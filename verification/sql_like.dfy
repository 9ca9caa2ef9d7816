/** The SQL `LIKE` operator as the two hand-written JPQL search queries use it:
    `LOWER(x) LIKE LOWER(CONCAT('%', :keyword, '%'))`. The keyword is bound as
    a parameter and is not escaped, so its own `%` and `_` act as wildcards. */
module SqlLike {
  import opened Text

  /** `s LIKE p`: `%` matches any run of characters, `_` any one character,
      every other character itself. */
  predicate Like(s: string, p: string)
    ensures '%' !in p && '_' !in p ==> (Like(s, p) <==> s == p)
    decreases |s| + |p|
  {
    if p == [] then s == []
    else if p[0] == '%' then Like(s, p[1..]) || (s != [] && Like(s[1..], p))
    else
      assert p == [p[0]] + p[1..];
      assert s != [] ==> s == [s[0]] + s[1..];
      s != [] && (p[0] == '_' || p[0] == s[0]) && Like(s[1..], p[1..])
  }

  /** A keyword in which LIKE sees no wildcard. */
  predicate NoWildcards(k: string)
  {
    '%' !in k && '_' !in k
  }

  /** `CONCAT('%', k, '%')`. */
  function ContainsPattern(k: string): (p: string)
    ensures |p| == |k| + 2 && p[0] == '%' && p[|p| - 1] == '%'
    ensures p[1..|p| - 1] == k
  {
    "%" + k + "%"
  }

  /** A lone `%` matches every string. */
  lemma {:induction false} LikePercent(s: string)
    ensures Like(s, "%")
  {
    if s != [] {
      LikePercent(s[1..]);
    }
  }

  /** Without wildcards, `k%` matches exactly the strings that start with `k`. */
  lemma {:induction false} LikePrefixPattern(s: string, k: string)
    requires NoWildcards(k)
    ensures Like(s, k + "%") <==> k <= s
  {
    if k == [] {
      assert k + "%" == "%";
      LikePercent(s);
    } else {
      var p := k + "%";
      assert p[0] == k[0] && p[1..] == k[1..] + "%";
      assert k[0] in k;
      if s != [] {
        LikePrefixPattern(s[1..], k[1..]);
        assert k <= s <==> k[0] == s[0] && k[1..] <= s[1..];
      }
    }
  }

  /** `%q` matches `s` exactly when `q` matches some suffix of `s`. */
  lemma {:induction false} LikeLeadingPercent(s: string, q: string)
    ensures Like(s, "%" + q) <==> exists i :: 0 <= i <= |s| && Like(s[i..], q)
  {
    var p := "%" + q;
    assert p[0] == '%' && p[1..] == q;
    if s == [] {
      assert s[0..] == s;
    } else {
      LikeLeadingPercent(s[1..], q);
      if Like(s, p) {
        if Like(s, q) {
          assert s[0..] == s;
        } else {
          var i :| 0 <= i <= |s[1..]| && Like(s[1..][i..], q);
          assert s[1..][i..] == s[i + 1..];
        }
      }
      if exists i :: 0 <= i <= |s| && Like(s[i..], q) {
        var i :| 0 <= i <= |s| && Like(s[i..], q);
        if i == 0 {
          assert s[0..] == s;
        } else {
          assert s[1..][i - 1..] == s[i..];
        }
      }
    }
  }

  /** Without wildcards in the keyword, `s LIKE CONCAT('%', k, '%')` is substring search. */
  lemma ContainsPatternIsContains(s: string, k: string)
    requires NoWildcards(k)
    ensures Like(s, ContainsPattern(k)) <==> Contains(s, k)
  {
    assert ContainsPattern(k) == "%" + (k + "%");
    LikeLeadingPercent(s, k + "%");
    forall i | 0 <= i <= |s|
      ensures Like(s[i..], k + "%") <==> k <= s[i..]
    {
      LikePrefixPattern(s[i..], k);
    }
  }

  /** `LOWER` leaves `%` alone, so lower-casing the pattern lower-cases the keyword. */
  lemma LowerContainsPattern(k: string)
    ensures Lower(ContainsPattern(k)) == ContainsPattern(Lower(k))
    ensures NoWildcards(k) ==> NoWildcards(Lower(k))
  {
    var p, q := Lower(ContainsPattern(k)), ContainsPattern(Lower(k));
    assert |p| == |q|;
    forall i | 0 <= i < |p| ensures p[i] == q[i] {
      if 0 < i < |p| - 1 {
        assert ContainsPattern(k)[i] == k[i - 1];
      }
    }
    if NoWildcards(k) {
      forall i | 0 <= i < |k| ensures Lower(k)[i] != '%' && Lower(k)[i] != '_' {
        assert k[i] in k;
      }
    }
  }

  /** A keyword with a wildcard matches titles that do not contain it:
      `"a_c"` matches `"abc"`. */
  lemma WildcardKeywordMatchesNonContaining()
    ensures Like("abc", ContainsPattern("a_c"))
    ensures !Contains("abc", "a_c")
  {
  }
}
