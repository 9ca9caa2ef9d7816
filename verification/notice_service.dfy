/** `NoticeService`: the notice board, which only administrators may change.
    The clock (`LocalDateTime.now` in Asia/Seoul) is the parameter `now`. */
module NoticeService {
  import opened Wrappers
  import opened Accounts
  import opened Images

  /** A notice row. Title and contents are copied from the request as they
      are, so either may be absent (Java `null`). */
  datatype Notice = Notice(id: nat, title: Option<string>, contents: Option<string>, createdAt: int)

  /** `NoticeReqDTO`: an absent field means "leave it" on update. */
  datatype NoticeRequest = NoticeRequest(title: Option<string>, contents: Option<string>)

  datatype NoticeError = UserNotFound | NotAdmin | NoticeNotFound

  /** `validateUserExists` then `validateUserIsAdmin`. */
  function CheckAdmin(users: UserTable, email: Email): (r: Result<User, NoticeError>)
    ensures r.Ok? <==> email in users && users[email].admin
    ensures r.Ok? ==> r.value == users[email]
    ensures email !in users ==> r == Err(UserNotFound)
    ensures email in users && !users[email].admin ==> r == Err(NotAdmin)
  {
    match FindByEmail(users, email)
    case None => Err(UserNotFound)
    case Some(user) => if user.admin then Ok(user) else Err(NotAdmin)
  }

  /** The admin check, then `validateNoticeExists`. */
  function CheckNotice(users: UserTable, notices: map<nat, Notice>, email: Email, noticeId: nat)
    : (r: Result<Notice, NoticeError>)
    ensures r.Ok? <==> CheckAdmin(users, email).Ok? && noticeId in notices
    ensures r.Ok? ==> r.value == notices[noticeId]
    ensures CheckAdmin(users, email).Err? ==> r == Err(CheckAdmin(users, email).error)
    ensures CheckAdmin(users, email).Ok? && noticeId !in notices ==> r == Err(NoticeNotFound)
  {
    match CheckAdmin(users, email)
    case Err(e) => Err(e)
    case Ok(_) => if noticeId in notices then Ok(notices[noticeId]) else Err(NoticeNotFound)
  }

  /** `updateNotice`'s partial update: a field present in the request replaces
      the stored one, an absent field leaves it; id and creation time stay. */
  function Merge(n: Notice, req: NoticeRequest): (r: Notice)
    ensures r.title == (if req.title.Some? then req.title else n.title)
    ensures r.contents == (if req.contents.Some? then req.contents else n.contents)
    ensures r.id == n.id && r.createdAt == n.createdAt
  {
    var n1 := if req.title.Some? then n.(title := req.title) else n;
    if req.contents.Some? then n1.(contents := req.contents) else n1
  }

  /** A request with neither field leaves the notice as it was. */
  lemma MergeEmptyRequest(n: Notice)
    ensures Merge(n, NoticeRequest(None, None)) == n
  {
  }

  /** Sending the same update twice has the effect of sending it once. */
  lemma MergeIdempotent(n: Notice, req: NoticeRequest)
    ensures Merge(Merge(n, req), req) == Merge(n, req)
  {
  }

  /** Two updates in a row are one update whose present fields are the later
      request's, else the earlier one's. */
  lemma MergeCompose(n: Notice, first: NoticeRequest, second: NoticeRequest)
    ensures Merge(Merge(n, first), second) ==
      Merge(n, NoticeRequest(if second.title.Some? then second.title else first.title,
                             if second.contents.Some? then second.contents else first.contents))
  {
  }

  class NoticeService {
    /** The notice table, by primary key. */
    var notices: map<nat, Notice>
    /** The next primary key the table hands out. */
    var nextId: nat
    const users: UserTable
    const images: ImageStore

    ghost predicate Valid()
      reads this, images
    {
      images.Valid() && forall id :: id in notices ==> notices[id].id == id && id < nextId
    }

    constructor (users: UserTable, images: ImageStore)
      requires images.Valid()
      ensures Valid()
      ensures notices == map[] && nextId == 0 && this.users == users && this.images == images
    {
      this.notices, this.nextId := map[], 0;
      this.users, this.images := users, images;
    }

    /** `getAllNotices`: every stored notice and nothing else. */
    function GetAllNotices(): (r: set<Notice>)
      requires Valid()
      reads this, images
      ensures forall id :: id in notices ==> notices[id] in r
      ensures forall n :: n in r ==> n.id in notices && notices[n.id] == n
      ensures |r| == |notices|
    {
      var r := set id | id in notices :: notices[id];
      NoticeCount(notices, r);
      r
    }

    /** `writeNotice`: an administrator adds a notice with the request's title
        and contents; anyone else changes nothing. */
    method WriteNotice(req: NoticeRequest, email: Email, now: int) returns (r: Result<Notice, NoticeError>)
      requires Valid()
      modifies this
      ensures Valid()
      ensures CheckAdmin(users, email).Err? ==> r == Err(CheckAdmin(users, email).error) && unchanged(this)
      ensures CheckAdmin(users, email).Ok? ==>
        && r == Ok(Notice(old(nextId), req.title, req.contents, now))
        && old(nextId) !in old(notices)
        && notices == old(notices)[old(nextId) := r.value]
        && nextId == old(nextId) + 1
    {
      var checked := CheckAdmin(users, email);
      if checked.Err? {
        return Err(checked.error);
      }
      var notice := Notice(nextId, req.title, req.contents, now);
      notices := notices[nextId := notice];
      nextId := nextId + 1;
      r := Ok(notice);
    }

    /** `updateNotice`: an administrator's partial update of an existing
        notice; no other notice changes, and a failed check changes nothing. */
    method UpdateNotice(req: NoticeRequest, noticeId: nat, email: Email) returns (r: Result<Notice, NoticeError>)
      requires Valid()
      modifies this
      ensures Valid()
      ensures old(CheckNotice(users, notices, email, noticeId)).Err? ==>
        r == Err(old(CheckNotice(users, notices, email, noticeId)).error) && unchanged(this)
      ensures old(CheckNotice(users, notices, email, noticeId)).Ok? ==>
        && r == Ok(Merge(old(notices)[noticeId], req))
        && notices == old(notices)[noticeId := r.value]
        && (forall id :: id in old(notices) && id != noticeId ==> id in notices && notices[id] == old(notices)[id])
        && r.value.createdAt == old(notices)[noticeId].createdAt
        && nextId == old(nextId)
    {
      var checked := CheckNotice(users, notices, email, noticeId);
      if checked.Err? {
        return Err(checked.error);
      }
      var updated := Merge(checked.value, req);
      notices := notices[noticeId := updated];
      r := Ok(updated);
    }

    /** `deleteNotice`: an administrator removes an existing notice and its
        image, and gets `true`; a failed check changes nothing. */
    method DeleteNotice(email: Email, noticeId: nat) returns (r: Result<bool, NoticeError>)
      requires Valid()
      modifies this, images
      ensures Valid()
      ensures old(CheckNotice(users, notices, email, noticeId)).Err? ==>
        r == Err(old(CheckNotice(users, notices, email, noticeId)).error) && unchanged(this) && unchanged(images)
      ensures old(CheckNotice(users, notices, email, noticeId)).Ok? ==>
        && r == Ok(true)
        && notices == old(notices) - {noticeId}
        && images.images == RemoveFirstByTarget(old(images.images), "notice", noticeId)
        && images.nextId == old(images.nextId)
        && nextId == old(nextId)
    {
      var checked := CheckNotice(users, notices, email, noticeId);
      if checked.Err? {
        return Err(checked.error);
      }
      var image := FindByTarget(images.images, "notice", noticeId);
      if image.Some? {
        images.DeleteImage(image.value.id);
      }
      notices := notices - {noticeId};
      r := Ok(true);
    }
  }

  /** Notices with distinct keys are distinct, so listing them loses none. */
  lemma NoticeCount(notices: map<nat, Notice>, listed: set<Notice>)
    requires forall id :: id in notices ==> notices[id].id == id
    requires listed == set id | id in notices :: notices[id]
    ensures |listed| == |notices|
  {
    if notices != map[] {
      var id :| id in notices;
      var rest := notices - {id};
      var restListed := set k | k in rest :: rest[k];
      NoticeCount(rest, restListed);
      forall n | n in listed ensures n in restListed + {notices[id]} {
        var k :| k in notices && notices[k] == n;
        if k != id {
          assert rest[k] == n;
        }
      }
      assert listed == restListed + {notices[id]};
      assert notices[id] !in restListed;
      assert |rest| == |notices| - 1;
    }
  }
}
