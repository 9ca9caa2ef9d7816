/** The helpers community posts use: whether the caller liked a post, the
    post's thumbnail, and the plain-text preview of a rich-text body.

    The body is a Quill Delta document, `{"ops":[{"insert":"..."}, ...]}`.
    JSON parsing is not part of this model: a document reaches `GetPreview`
    already parsed, as the sequence of its ops, each being the text of its
    `insert` field (what `JsonNode.asText()` yields) or `None` when the op has
    no `insert`; a body that does not parse, or has no `ops`, is `None`. */
module CommunityUtil {
  import opened Wrappers
  import opened Text
  import opened Accounts
  import opened Images

  /** Longest preview, in characters. */
  const MaxPreviewLength: nat := 200

  /** One op of the document: its `insert` text, if it has an `insert`. */
  type Op = Option<string>

  datatype PreviewError = MalformedContent

  /** What an op contributes before truncation: its insert with line feeds removed. */
  function InsertText(op: Op): (r: string)
    ensures op.None? ==> r == ""
    ensures op.Some? ==> r == StripNewlines(op.value)
    ensures op.Some? ==> |r| <= |op.value| && forall c :: c in r <==> c in op.value && c != '\n'
  {
    match op
    case None => ""
    case Some(text) => StripNewlines(text)
  }

  /** Every op's contribution, in op order. */
  function Stripped(ops: seq<Op>): (r: string)
    ensures forall c :: c in r ==> exists i :: 0 <= i < |ops| && ops[i].Some? && c in ops[i].value
  {
    if ops == [] then "" else InsertText(ops[0]) + Stripped(ops[1..])
  }

  /** The first `n` characters of `s`, or all of `s` if it is shorter. */
  function Truncate(s: string, n: nat): (r: string)
    ensures r <= s && |r| <= n
    ensures |s| <= n ==> r == s
    ensures |s| > n ==> |r| == n
  {
    if |s| <= n then s else s[..n]
  }

  /** The preview a document should get: its stripped text cut to the maximum length. */
  function Preview(ops: seq<Op>): (r: string)
    ensures r <= Stripped(ops) && |r| <= MaxPreviewLength
  {
    Truncate(Stripped(ops), MaxPreviewLength)
  }

  lemma {:induction false} StrippedAppend(a: seq<Op>, b: seq<Op>)
    ensures Stripped(a + b) == Stripped(a) + Stripped(b)
  {
    if a == [] {
      assert a + b == b;
    } else {
      assert (a + b)[0] == a[0];
      assert (a + b)[1..] == a[1..] + b;
      StrippedAppend(a[1..], b);
    }
  }

  lemma {:induction false} StrippedHasNoNewline(ops: seq<Op>)
    ensures '\n' !in Stripped(ops)
  {
    if ops != [] {
      StrippedHasNoNewline(ops[1..]);
      assert '\n' !in InsertText(ops[0]) by {
        match ops[0]
        case None =>
        case Some(text) =>
      }
    }
  }

  lemma TruncateConcat(a: string, b: string, n: nat)
    requires |a| < n
    ensures Truncate(a + b, n) == a + Truncate(b, n - |a|)
  {
    if |a + b| > n {
      assert (a + b)[..n] == a + b[..n - |a|];
    }
  }

  /** The preview is at most 200 characters, has no line feed, and is a prefix
      of the stripped text: all of it when that fits, otherwise exactly 200
      characters of it. */
  lemma PreviewShape(ops: seq<Op>)
    ensures |Preview(ops)| <= MaxPreviewLength
    ensures '\n' !in Preview(ops)
    ensures Preview(ops) <= Stripped(ops)
    ensures |Stripped(ops)| <= MaxPreviewLength ==> Preview(ops) == Stripped(ops)
    ensures |Stripped(ops)| > MaxPreviewLength ==> |Preview(ops)| == MaxPreviewLength
  {
    StrippedHasNoNewline(ops);
    var s := Stripped(ops);
    assert forall c :: c in Preview(ops) ==> c in s by {
      forall c | c in Preview(ops) ensures c in s {
        var i :| 0 <= i < |Preview(ops)| && Preview(ops)[i] == c;
        assert s[i] == c;
      }
    }
  }

  /** Once the ops read so far fill the preview, the ops after them change nothing. */
  lemma PreviewIgnoresOpsAfterLimit(ops: seq<Op>, k: nat)
    requires k <= |ops|
    requires |Stripped(ops[..k])| >= MaxPreviewLength
    ensures Preview(ops) == Preview(ops[..k])
  {
    assert ops == ops[..k] + ops[k..];
    StrippedAppend(ops[..k], ops[k..]);
    var a := Stripped(ops[..k]);
    assert (a + Stripped(ops[k..]))[..MaxPreviewLength] == a[..MaxPreviewLength];
  }

  /** An op without an `insert` contributes nothing. */
  lemma PreviewSkipsOpWithoutInsert(before: seq<Op>, after: seq<Op>)
    ensures Preview(before + [None] + after) == Preview(before + after)
  {
    var rest: seq<Op> := [None] + after;
    assert before + [None] + after == before + rest;
    assert rest[1..] == after;
    StrippedAppend(before, rest);
    StrippedAppend(before, after);
  }

  /** One turn of the loop: an op read while there is room appends its
      contribution, cut to the room left. */
  lemma PreviewStep(ops: seq<Op>, i: nat)
    requires i < |ops|
    requires |Stripped(ops[..i])| < MaxPreviewLength
    ensures Preview(ops[..i + 1]) ==
      Preview(ops[..i]) + Truncate(InsertText(ops[i]), MaxPreviewLength - |Preview(ops[..i])|)
  {
    var one: seq<Op> := [ops[i]];
    assert ops[..i + 1] == ops[..i] + one;
    assert one[1..] == [];
    StrippedAppend(ops[..i], one);
    TruncateConcat(Stripped(ops[..i]), InsertText(ops[i]), MaxPreviewLength);
  }

  /** `getPreview`: appends each op's insert, line feeds removed, while there is
      room left, cutting the last one to fit and stopping once the preview is
      full; a body that does not parse is an error, never a partial preview. */
  method GetPreview(contents: Option<seq<Op>>) returns (r: Result<string, PreviewError>)
    ensures contents.None? <==> r.Err?
    ensures contents.Some? ==> r == Ok(Preview(contents.value))
  {
    if contents.None? {
      return Err(MalformedContent);
    }
    var ops := contents.value;
    var preview := "";
    var i := 0;
    while i < |ops|
      invariant 0 <= i <= |ops|
      invariant preview == Preview(ops[..i])
    {
      var leftLength := MaxPreviewLength - |preview|;
      if leftLength < 1 {
        PreviewIgnoresOpsAfterLimit(ops, i);
        break;
      }
      PreviewStep(ops, i);
      match ops[i] {
        case None =>
        case Some(insert) =>
          var text := StripNewlines(insert);
          preview := preview + (if |text| > leftLength then text[..leftLength] else text);
      }
      i := i + 1;
    }
    if i == |ops| {
      assert ops[..i] == ops;
    }
    return Ok(preview);
  }

  /** A like of a community post: the pair (user, post). */
  datatype CommunityLike = CommunityLike(userId: UserId, postId: nat)

  /** `CommunityLikeRepository.existsByUserAndCommunity`. */
  function ExistsByUserAndCommunity(likes: seq<CommunityLike>, userId: UserId, postId: nat): (r: bool)
    ensures r <==> exists i :: 0 <= i < |likes| && likes[i].userId == userId && likes[i].postId == postId
  {
    if likes == [] then false
    else
      (likes[0].userId == userId && likes[0].postId == postId)
      || ExistsByUserAndCommunity(likes[1..], userId, postId)
  }

  /** `isLikedCommunity`: false for an unknown e-mail; otherwise whether that
      user's like of the post is recorded. */
  function IsLikedCommunity(users: UserTable, likes: seq<CommunityLike>, email: Email, postId: nat): (r: bool)
    ensures email !in users ==> !r
    ensures email in users ==> (r <==> CommunityLike(users[email].id, postId) in likes)
  {
    match FindByEmail(users, email)
    case None => false
    case Some(user) => ExistsByUserAndCommunity(likes, user.id, postId)
  }

  /** `getThumbnailUrl`: empty when the post has no image, otherwise the URL
      prefix followed by the name of the post's first image. */
  function GetThumbnailUrl(prefix: string, images: seq<Image>, postId: nat): (r: string)
    ensures FindByTarget(images, "community", postId).None? ==> r == ""
    ensures FindByTarget(images, "community", postId).Some? ==>
      r == prefix + FindByTarget(images, "community", postId).value.url
  {
    var thumbnails := AllByTarget(images, "community", postId);
    if |thumbnails| == 0 then "" else prefix + thumbnails[0].url
  }
}
