/** The queries of `TripRepository` over the trip table. Spring Data derives
    most of them from their names (`countByUser`, `findTop10By...OrderBy...`);
    the two searches are hand-written JPQL. Paging (`Pageable`) is not part of
    this model: the paged finders are modelled as returning every matching row. */
module TripRepository {
  import opened Wrappers
  import opened Accounts
  import opened Text
  import opened SqlLike

  datatype City = City(id: nat, name: string)

  /** A trip plan row. Dates are the date texts `LocalDate.parse` accepted;
      `createdAt` and `updatedAt` are clock readings. */
  datatype Trip = Trip(
    id: nat,
    owner: UserId,
    title: string,
    description: string,
    startDate: string,
    endDate: string,
    likeCount: nat,
    privatePlan: bool,
    city: Option<City>,
    createdAt: int,
    updatedAt: int)

  /** The trip table, in primary-key order. */
  type TripTable = seq<Trip>

  /** Primary keys grow along the table. */
  predicate IncreasingIds(trips: TripTable)
  {
    forall i, j :: 0 <= i < j < |trips| ==> trips[i].id < trips[j].id
  }

  /** Position of the row with this primary key, or |trips| if there is none. */
  function FindIndexById(trips: TripTable, id: nat): (k: nat)
    ensures k <= |trips|
    ensures k < |trips| ==> trips[k].id == id
    ensures forall j :: 0 <= j < k ==> trips[j].id != id
  {
    if trips == [] then 0
    else if trips[0].id == id then 0
    else 1 + FindIndexById(trips[1..], id)
  }

  /** `findById(id)`. */
  function FindById(trips: TripTable, id: nat): (r: Option<Trip>)
    ensures r.None? <==> forall i :: 0 <= i < |trips| ==> trips[i].id != id
    ensures r.Some? ==> r.value in trips && r.value.id == id
  {
    var k := FindIndexById(trips, id);
    if k < |trips| then Some(trips[k]) else None
  }

  /** `delete(trip)` of the row at position `k`: every other row stays, in order. */
  lemma DeleteRowFacts(trips: TripTable, k: nat)
    requires IncreasingIds(trips) && k < |trips|
    ensures IncreasingIds(trips[..k] + trips[k + 1..])
    ensures forall t :: t in trips[..k] + trips[k + 1..] <==> t in trips && t.id != trips[k].id
  {
    var r := trips[..k] + trips[k + 1..];
    assert forall i :: 0 <= i < |r| ==> r[i] == trips[if i < k then i else i + 1];
    forall t ensures t in r <==> t in trips && t.id != trips[k].id {
      if t in trips && t.id != trips[k].id {
        var i :| 0 <= i < |trips| && trips[i] == t;
        assert r[if i < k then i else i - 1] == t;
      }
    }
  }

  /** Number of rows satisfying `p`, counted by position. */
  function RowCount(trips: TripTable, p: Trip -> bool): nat
  {
    |set i | 0 <= i < |trips| && p(trips[i])|
  }

  /** `SELECT ... WHERE p`: the rows satisfying `p`, in table order. */
  function Where(trips: TripTable, p: Trip -> bool): (r: TripTable)
    ensures forall t :: t in r <==> t in trips && p(t)
    ensures multiset(r) <= multiset(trips)
  {
    if trips == [] then []
    else
      var last := trips[|trips| - 1];
      assert trips == trips[..|trips| - 1] + [last];
      Where(trips[..|trips| - 1], p) + (if p(last) then [last] else [])
  }

  /** Counting the rows of a table that has one more row at its end. */
  lemma RowCountStep(trips: TripTable, p: Trip -> bool)
    requires trips != []
    ensures RowCount(trips, p) ==
      RowCount(trips[..|trips| - 1], p) + (if p(trips[|trips| - 1]) then 1 else 0)
  {
    var n := |trips|;
    var init := trips[..n - 1];
    var below := set i | 0 <= i < n - 1 && p(init[i]);
    var all := set i | 0 <= i < n && p(trips[i]);
    assert all - {n - 1} == below;
    if p(trips[n - 1]) {
      assert all == below + {n - 1};
    } else {
      assert all == below;
    }
  }

  /** The rows `Where` returns are as many as the rows satisfying `p`. */
  lemma {:induction false} WhereCount(trips: TripTable, p: Trip -> bool)
    ensures |Where(trips, p)| == RowCount(trips, p)
  {
    if trips != [] {
      WhereCount(trips[..|trips| - 1], p);
      RowCountStep(trips, p);
    }
  }

  /** `Where` depends only on what `p` says of the table's rows. */
  lemma {:induction false} WhereCongruent(trips: TripTable, p: Trip -> bool, q: Trip -> bool)
    requires forall t :: t in trips ==> p(t) == q(t)
    ensures Where(trips, p) == Where(trips, q)
  {
    if trips != [] {
      WhereCongruent(trips[..|trips| - 1], p, q);
      assert trips[|trips| - 1] in trips;
    }
  }

  /** `countByUser(user)`. */
  function CountByUser(trips: TripTable, owner: UserId): (n: nat)
    ensures n == |set i | 0 <= i < |trips| && trips[i].owner == owner|
  {
    var p := (t: Trip) => t.owner == owner;
    WhereCount(trips, p);
    assert (set i | 0 <= i < |trips| && p(trips[i])) == set i | 0 <= i < |trips| && trips[i].owner == owner;
    |Where(trips, p)|
  }

  /** `findByUser(user)`: exactly the user's trips, one per row. */
  function FindByUser(trips: TripTable, owner: UserId): (r: TripTable)
    ensures forall t :: t in r <==> t in trips && t.owner == owner
    ensures |r| == CountByUser(trips, owner)
  {
    WhereCount(trips, (t: Trip) => t.owner == owner);
    Where(trips, (t: Trip) => t.owner == owner)
  }

  /** `countByPrivatePlan(b)`. */
  function CountByPrivatePlan(trips: TripTable, b: bool): (n: nat)
    ensures n == |set i | 0 <= i < |trips| && trips[i].privatePlan == b|
  {
    var p := (t: Trip) => t.privatePlan == b;
    WhereCount(trips, p);
    ghost var matching := set i | 0 <= i < |trips| && trips[i].privatePlan == b;
    assert (set i | 0 <= i < |trips| && p(trips[i])) == matching by {
      forall i | 0 <= i < |trips| ensures p(trips[i]) <==> trips[i].privatePlan == b { }
    }
    |Where(trips, p)|
  }

  /** `findByPrivatePlan(b, pageable)`, every page together. */
  function FindByPrivatePlan(trips: TripTable, b: bool): (r: TripTable)
    ensures forall t :: t in r <==> t in trips && t.privatePlan == b
    ensures |r| == CountByPrivatePlan(trips, b)
  {
    WhereCount(trips, (t: Trip) => t.privatePlan == b);
    Where(trips, (t: Trip) => t.privatePlan == b)
  }

  /** `findByPrivatePlanOrUser(b, user, pageable)`, every page together. */
  function FindByPrivatePlanOrUser(trips: TripTable, b: bool, owner: UserId): (r: TripTable)
    ensures forall t :: t in r <==> t in trips && (t.privatePlan == b || t.owner == owner)
  {
    Where(trips, (t: Trip) => t.privatePlan == b || t.owner == owner)
  }

  predicate InCity(t: Trip, city: City)
  {
    t.city.Some? && t.city.value.id == city.id
  }

  /** `existsByCity(city)`: some trip is planned in that city. */
  function ExistsByCity(trips: TripTable, city: City): (r: bool)
    ensures r <==> exists i :: 0 <= i < |trips| && InCity(trips[i], city)
  {
    if trips == [] then false
    else InCity(trips[0], city) || ExistsByCity(trips[1..], city)
  }

  /** How many trips `findTop10...` returns at most. */
  const TopLimit: nat := 10

  predicate SortedByLikesDesc(s: TripTable)
  {
    forall i, j :: 0 <= i < j < |s| ==> s[i].likeCount >= s[j].likeCount
  }

  /** A row with at least as many likes as every row of a sorted table can head it. */
  lemma SortedCons(h: Trip, rest: TripTable)
    requires SortedByLikesDesc(rest)
    requires forall x :: x in rest ==> x.likeCount <= h.likeCount
    ensures SortedByLikesDesc([h] + rest)
  {
    forall i, j | 0 <= i < j < |[h] + rest|
      ensures ([h] + rest)[i].likeCount >= ([h] + rest)[j].likeCount
    {
      if i == 0 {
        assert ([h] + rest)[j] == rest[j - 1];
        assert rest[j - 1] in rest;
      } else {
        assert ([h] + rest)[i] == rest[i - 1] && ([h] + rest)[j] == rest[j - 1];
      }
    }
  }

  /** The head of a sorted table has at least as many likes as every row of
      its tail, with a row of fewer likes added. */
  lemma HeadBoundsInsertedTail(s: TripTable, t: Trip, rest: TripTable)
    requires SortedByLikesDesc(s) && s != [] && t.likeCount < s[0].likeCount
    requires multiset(rest) == multiset(s[1..]) + multiset{t}
    ensures forall x :: x in rest ==> x.likeCount <= s[0].likeCount
  {
    forall x | x in rest ensures x.likeCount <= s[0].likeCount {
      assert x in multiset(rest);
      if x != t {
        assert x in multiset(s[1..]);
        var j :| 0 <= j < |s[1..]| && s[1..][j] == x;
        assert s[j + 1] == x;
      }
    }
  }

  /** Puts `t` before the first row with no more likes than it has. */
  function InsertByLikes(t: Trip, s: TripTable): (r: TripTable)
    requires SortedByLikesDesc(s)
    ensures SortedByLikesDesc(r)
    ensures multiset(r) == multiset(s) + multiset{t}
  {
    if s == [] then [t]
    else if s[0].likeCount <= t.likeCount then
      SortedCons(t, s);
      [t] + s
    else
      assert s == [s[0]] + s[1..];
      var rest := InsertByLikes(t, s[1..]);
      HeadBoundsInsertedTail(s, t, rest);
      SortedCons(s[0], rest);
      [s[0]] + rest
  }

  /** `ORDER BY likeCount DESC`; rows with equal counts keep table order. */
  function SortByLikesDesc(s: TripTable): (r: TripTable)
    ensures SortedByLikesDesc(r)
    ensures multiset(r) == multiset(s)
  {
    if s == [] then []
    else
      assert s == [s[0]] + s[1..];
      InsertByLikes(s[0], SortByLikesDesc(s[1..]))
  }

  /** A reordering holds the same rows, as many of them. */
  lemma SameRows(s: TripTable, r: TripTable)
    requires multiset(r) == multiset(s)
    ensures |r| == |s|
    ensures forall t :: t in r <==> t in s
  {
    assert |multiset(r)| == |multiset(s)|;
    forall t ensures t in r <==> t in s {
      assert t in r <==> t in multiset(r);
      assert t in s <==> t in multiset(s);
    }
  }

  /** What a prefix of a sorted table keeps. */
  lemma SortedPrefix(sorted: TripTable, m: nat)
    requires SortedByLikesDesc(sorted) && m <= |sorted|
    ensures SortedByLikesDesc(sorted[..m])
    ensures multiset(sorted[..m]) <= multiset(sorted)
    ensures forall t :: t in sorted[..m] ==> t in sorted
    ensures m == |sorted| ==> sorted[..m] == sorted
  {
    assert sorted == sorted[..m] + sorted[m..];
  }

  /** The first `m` rows of a sorted table are the top `m`. */
  lemma TopOfSorted(sorted: TripTable, m: nat)
    requires SortedByLikesDesc(sorted) && m <= |sorted|
    ensures forall t, i :: t in sorted && t !in sorted[..m] && 0 <= i < m ==>
      t.likeCount <= sorted[i].likeCount
  {
    forall t, i | t in sorted && t !in sorted[..m] && 0 <= i < m
      ensures t.likeCount <= sorted[i].likeCount
    {
      var j :| 0 <= j < |sorted| && sorted[j] == t;
      assert !(j < m);
    }
  }

  /** What the first `m` rows of the sorted public trips are. */
  lemma TopRowsFacts(public: TripTable, sorted: TripTable, m: nat)
    requires SortedByLikesDesc(sorted) && multiset(sorted) == multiset(public)
    requires |sorted| == |public|
    requires m == if |public| < TopLimit then |public| else TopLimit
    ensures |sorted[..m]| == m
    ensures forall t :: t in sorted[..m] ==> t in public
    ensures multiset(sorted[..m]) <= multiset(public)
    ensures SortedByLikesDesc(sorted[..m])
    ensures m < TopLimit ==> forall t :: t in public ==> t in sorted[..m]
    ensures forall t, i :: t in public && t !in sorted[..m] && 0 <= i < m ==>
      t.likeCount <= sorted[..m][i].likeCount
  {
    SameRows(public, sorted);
    SortedPrefix(sorted, m);
    TopOfSorted(sorted, m);
  }

  /** `findTop10ByPrivatePlanFalseOrderByLikeCountDesc`: at most ten public
      trips, most liked first; a public trip left out has no more likes than
      any returned; fewer than ten only when there are no more public trips. */
  function FindTop10ByPrivatePlanFalseOrderByLikeCountDesc(trips: TripTable): (r: TripTable)
    ensures |r| <= TopLimit
    ensures |r| == if CountByPrivatePlan(trips, false) < TopLimit then CountByPrivatePlan(trips, false) else TopLimit
    ensures forall t :: t in r ==> t in trips && !t.privatePlan
    ensures multiset(r) <= multiset(trips)
    ensures SortedByLikesDesc(r)
    ensures |r| < TopLimit ==> forall t :: t in trips && !t.privatePlan ==> t in r
    ensures forall t, i :: t in trips && !t.privatePlan && t !in r && 0 <= i < |r| ==>
      t.likeCount <= r[i].likeCount
  {
    var public := FindByPrivatePlan(trips, false);
    var sorted := SortByLikesDesc(public);
    SameRows(public, sorted);
    var m := if |public| < TopLimit then |public| else TopLimit;
    TopRowsFacts(public, sorted, m);
    sorted[..m]
  }

  /** The LIKE predicate of `searchByTitleContainingIgnoreCase`. */
  predicate TitleMatches(t: Trip, keyword: string)
    ensures NoWildcards(keyword) ==> (TitleMatches(t, keyword) <==> Contains(Lower(t.title), Lower(keyword)))
  {
    MatchesIsContains(t.title, keyword);
    Like(Lower(t.title), Lower(ContainsPattern(keyword)))
  }

  /** `searchByTitleContainingIgnoreCase(keyword)` as written:
      `LOWER(t.title) LIKE LOWER(CONCAT('%', :keyword, '%'))`. */
  function SearchByTitleContainingIgnoreCase(trips: TripTable, keyword: string): (r: TripTable)
    ensures forall t :: t in r <==> t in trips && TitleMatches(t, keyword)
  {
    Where(trips, (t: Trip) => TitleMatches(t, keyword))
  }

  /** The LIKE predicate of `searchByCityNameContainingIgnoreCase`; the inner
      join leaves out trips without a city. */
  predicate CityNameMatches(t: Trip, keyword: string)
    ensures t.city.None? ==> !CityNameMatches(t, keyword)
    ensures NoWildcards(keyword) && t.city.Some? ==>
      (CityNameMatches(t, keyword) <==> Contains(Lower(t.city.value.name), Lower(keyword)))
  {
    t.city.Some? && (MatchesIsContains(t.city.value.name, keyword);
      Like(Lower(t.city.value.name), Lower(ContainsPattern(keyword))))
  }

  /** `searchByCityNameContainingIgnoreCase(keyword)` as written. */
  function SearchByCityNameContainingIgnoreCase(trips: TripTable, keyword: string): (r: TripTable)
    ensures forall t :: t in r <==> t in trips && CityNameMatches(t, keyword)
  {
    Where(trips, (t: Trip) => CityNameMatches(t, keyword))
  }

  /** Title search as its name promises: the lower-cased title contains the
      lower-cased keyword. */
  function SearchByTitleContaining(trips: TripTable, keyword: string): (r: TripTable)
    ensures forall t :: t in r <==> t in trips && Contains(Lower(t.title), Lower(keyword))
  {
    Where(trips, (t: Trip) => Contains(Lower(t.title), Lower(keyword)))
  }

  /** City-name search as its name promises. */
  function SearchByCityNameContaining(trips: TripTable, keyword: string): (r: TripTable)
    ensures forall t :: t in r <==> t in trips && t.city.Some? && Contains(Lower(t.city.value.name), Lower(keyword))
  {
    Where(trips, (t: Trip) => t.city.Some? && Contains(Lower(t.city.value.name), Lower(keyword)))
  }

  /** Matching a keyword that holds neither `%` nor `_` is case-insensitive
      substring search. */
  lemma MatchesIsContains(s: string, keyword: string)
    ensures NoWildcards(keyword) ==>
      (Like(Lower(s), Lower(ContainsPattern(keyword))) <==> Contains(Lower(s), Lower(keyword)))
  {
    if NoWildcards(keyword) {
      LowerContainsPattern(keyword);
      ContainsPatternIsContains(Lower(s), Lower(keyword));
    }
  }

  /** For keywords without wildcards the written searches return exactly what
      their names promise. */
  lemma SearchesAgreeWithoutWildcards(trips: TripTable, keyword: string)
    requires NoWildcards(keyword)
    ensures SearchByTitleContainingIgnoreCase(trips, keyword) == SearchByTitleContaining(trips, keyword)
    ensures SearchByCityNameContainingIgnoreCase(trips, keyword) == SearchByCityNameContaining(trips, keyword)
  {
    forall t | t in trips
      ensures TitleMatches(t, keyword) == Contains(Lower(t.title), Lower(keyword))
    {
      MatchesIsContains(t.title, keyword);
    }
    WhereCongruent(trips, (t: Trip) => TitleMatches(t, keyword), (t: Trip) => Contains(Lower(t.title), Lower(keyword)));
    forall t | t in trips && t.city.Some?
      ensures CityNameMatches(t, keyword) == Contains(Lower(t.city.value.name), Lower(keyword))
    {
      MatchesIsContains(t.city.value.name, keyword);
    }
    WhereCongruent(trips, (t: Trip) => CityNameMatches(t, keyword),
      (t: Trip) => t.city.Some? && Contains(Lower(t.city.value.name), Lower(keyword)));
  }

  /** A keyword holding `_` finds a title that does not contain it: the
      title "abc" matches the keyword "a_c". */
  lemma TitleSearchTreatsUnderscoreAsWildcard(t: Trip)
    requires t.title == "abc"
    ensures t in SearchByTitleContainingIgnoreCase([t], "a_c")
    ensures t !in SearchByTitleContaining([t], "a_c")
  {
    WildcardKeywordMatchesNonContaining();
    assert Lower("abc") == "abc";
    assert Lower("a_c") == "a_c";
    assert Lower(ContainsPattern("a_c")) == ContainsPattern("a_c") by {
      LowerContainsPattern("a_c");
    }
  }
}
