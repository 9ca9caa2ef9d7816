/** `TripService`: writing, editing and deleting trip plans, with the
    ownership and restriction gates, and the list views over the trip table.
    The clock (`LocalDateTime.now`) is the parameter `now`; the date check of
    `ValidationUtil.ValidateDate` is the parameter `validDate`. */
module TripService {
  import opened Wrappers
  import opened Accounts
  import opened Text
  import opened Images
  import opened TripRepository

  /** The `BadRequestExceptionMessage`s (and lookup failures) the service raises. */
  datatype TripError = UserNotFound | UserRestricted | InvalidDate | InvalidPrivacyFlag | TripNotFound | NotOwner

  /** `writeTrip`'s privacy flag: exactly "yes" (private) or "no" (public). */
  function ParseWriteFlag(flag: string): (r: Option<bool>)
    ensures r == Some(true) <==> flag == "yes"
    ensures r == Some(false) <==> flag == "no"
    ensures r == None <==> flag != "yes" && flag != "no"
  {
    if flag == "yes" then Some(true)
    else if flag == "no" then Some(false)
    else None
  }

  /** `updateTripBasicInfo`'s privacy flag: "yes" or "no" in any letter case. */
  function ParseUpdateFlag(flag: string): (r: Option<bool>)
    ensures r == Some(true) <==> Lower(flag) == "yes"
    ensures r == Some(false) <==> Lower(flag) == "no"
    ensures r == None <==> Lower(flag) != "yes" && Lower(flag) != "no"
  {
    EqualsIgnoreCaseIsLowerEquality(flag, "yes");
    EqualsIgnoreCaseIsLowerEquality(flag, "no");
    assert Lower("yes") == "yes" && Lower("no") == "no";
    if EqualsIgnoreCase(flag, "yes") then Some(true)
    else if EqualsIgnoreCase(flag, "no") then Some(false)
    else None
  }

  /** Every flag `writeTrip` accepts, `updateTripBasicInfo` accepts with the same meaning. */
  lemma UpdateFlagExtendsWriteFlag(flag: string)
    ensures ParseWriteFlag(flag).Some? ==> ParseUpdateFlag(flag) == ParseWriteFlag(flag)
  {
    assert Lower("yes") == "yes" && Lower("no") == "no";
  }

  /** "YES" is refused on creation and accepted on update. */
  lemma UpperCaseYes()
    ensures ParseWriteFlag("YES") == None
    ensures ParseUpdateFlag("YES") == Some(true)
  {
    assert Lower("YES") == "yes";
  }

  /** `validateUserExists` then `validateUserRestricted`. */
  function CheckUser(users: UserTable, email: Email): (r: Result<User, TripError>)
    ensures r.Ok? <==> email in users && !users[email].restricted
    ensures r.Ok? ==> r.value == users[email]
    ensures email !in users ==> r == Err(UserNotFound)
    ensures email in users && users[email].restricted ==> r == Err(UserRestricted)
  {
    match FindByEmail(users, email)
    case None => Err(UserNotFound)
    case Some(user) => if user.restricted then Err(UserRestricted) else Ok(user)
  }

  /** The checks `writeTrip` makes before it saves anything, in its order:
      the user, both dates, then the flag. On success: the author and whether
      the trip is private. */
  function ValidateWrite(users: UserTable, email: Email, startDate: string, endDate: string,
                         privatePlan: string, validDate: string -> bool): (r: Result<(User, bool), TripError>)
    ensures r.Ok? <==> (email in users && !users[email].restricted && validDate(startDate)
                        && validDate(endDate) && (privatePlan == "yes" || privatePlan == "no"))
    ensures r.Ok? ==> r.value == (users[email], privatePlan == "yes")
    ensures CheckUser(users, email).Err? ==> r == Err(CheckUser(users, email).error)
    ensures CheckUser(users, email).Ok? && !(validDate(startDate) && validDate(endDate)) ==> r == Err(InvalidDate)
    ensures (CheckUser(users, email).Ok? && validDate(startDate) && validDate(endDate)
             && privatePlan != "yes" && privatePlan != "no") ==> r == Err(InvalidPrivacyFlag)
  {
    match CheckUser(users, email)
    case Err(e) => Err(e)
    case Ok(user) =>
      if !validDate(startDate) || !validDate(endDate) then Err(InvalidDate)
      else match ParseWriteFlag(privatePlan)
        case None => Err(InvalidPrivacyFlag)
        case Some(isPrivate) => Ok((user, isPrivate))
  }

  /** The user check, then `validateTripExists`, then the ownership check that
      `deleteMyTrip` and `updateTripBasicInfo` share. On success: the trip's position. */
  function ValidateOwnedTrip(users: UserTable, trips: TripTable, email: Email, tripId: nat): (r: Result<nat, TripError>)
    ensures r.Ok? <==> (email in users && !users[email].restricted
                        && FindById(trips, tripId).Some? && FindById(trips, tripId).value.owner == users[email].id)
    ensures r.Ok? ==> r.value < |trips| && trips[r.value] == FindById(trips, tripId).value
    ensures CheckUser(users, email).Err? ==> r == Err(CheckUser(users, email).error)
    ensures CheckUser(users, email).Ok? && FindById(trips, tripId).None? ==> r == Err(TripNotFound)
    ensures (CheckUser(users, email).Ok? && FindById(trips, tripId).Some?
             && FindById(trips, tripId).value.owner != users[email].id) ==> r == Err(NotOwner)
  {
    match CheckUser(users, email)
    case Err(e) => Err(e)
    case Ok(user) =>
      var k := FindIndexById(trips, tripId);
      if k == |trips| then Err(TripNotFound)
      else if trips[k].owner != user.id then Err(NotOwner)
      else Ok(k)
  }

  /** `updateTripBasicInfo`'s checks: ownership first, the flag only after it. */
  function ValidateUpdate(users: UserTable, trips: TripTable, email: Email, tripId: nat, isPrivate: string)
    : (r: Result<(nat, bool), TripError>)
    ensures ValidateOwnedTrip(users, trips, email, tripId).Err? ==>
      r == Err(ValidateOwnedTrip(users, trips, email, tripId).error)
    ensures ValidateOwnedTrip(users, trips, email, tripId).Ok? && ParseUpdateFlag(isPrivate).None? ==>
      r == Err(InvalidPrivacyFlag)
    ensures r.Ok? <==> ValidateOwnedTrip(users, trips, email, tripId).Ok? && ParseUpdateFlag(isPrivate).Some?
    ensures r.Ok? ==> r.value == (ValidateOwnedTrip(users, trips, email, tripId).value, ParseUpdateFlag(isPrivate).value)
  {
    match ValidateOwnedTrip(users, trips, email, tripId)
    case Err(e) => Err(e)
    case Ok(k) =>
      match ParseUpdateFlag(isPrivate)
      case None => Err(InvalidPrivacyFlag)
      case Some(b) => Ok((k, b))
  }

  /** A non-owner is refused as a non-owner whatever flag they send. */
  lemma OwnershipBeforeFlag(users: UserTable, trips: TripTable, email: Email, tripId: nat, isPrivate: string)
    requires email in users && !users[email].restricted
    requires FindById(trips, tripId).Some? && FindById(trips, tripId).value.owner != users[email].id
    ensures ValidateUpdate(users, trips, email, tripId, isPrivate) == Err(NotOwner)
  {
  }

  /** The fields `updateTripBasicInfo` sets; every other field stays. */
  function WithBasicInfo(t: Trip, title: string, privatePlan: bool, now: int): (u: Trip)
    ensures u.title == title && u.privatePlan == privatePlan && u.updatedAt == now
    ensures u.id == t.id && u.owner == t.owner && u.description == t.description
    ensures u.startDate == t.startDate && u.endDate == t.endDate && u.likeCount == t.likeCount
    ensures u.city == t.city && u.createdAt == t.createdAt
  {
    t.(title := title, privatePlan := privatePlan, updatedAt := now)
  }

  /** What the list endpoints show of a trip (`TripRespDTO` without the image
      URLs and the author's name). */
  datatype TripView = TripView(
    tripId: nat, owner: UserId, title: string, startDate: string, endDate: string,
    description: string, likeCount: nat, privatePlan: bool)

  function View(t: Trip): (v: TripView)
    ensures v.tripId == t.id && v.owner == t.owner && v.likeCount == t.likeCount && v.privatePlan == t.privatePlan
    ensures v.title == t.title && v.description == t.description
    ensures v.startDate == t.startDate && v.endDate == t.endDate
  {
    TripView(t.id, t.owner, t.title, t.startDate, t.endDate, t.description, t.likeCount, t.privatePlan)
  }

  /** `stream().map(...)`: one view per row, in order. */
  function Views(s: TripTable): (r: seq<TripView>)
    ensures |r| == |s|
    ensures forall i :: 0 <= i < |s| ==> r[i] == View(s[i])
  {
    seq(|s|, i requires 0 <= i < |s| => View(s[i]))
  }

  /** The updated trip shows the new title and privacy and otherwise what it
      showed before the update. */
  lemma ViewOfUpdatedTrip(t: Trip, title: string, privatePlan: bool, now: int)
    ensures View(WithBasicInfo(t, title, privatePlan, now)) == View(t).(title := title, privatePlan := privatePlan)
  {
    var u := WithBasicInfo(t, title, privatePlan, now);
    assert u.id == t.id && u.owner == t.owner && u.likeCount == t.likeCount;
  }

  /** A listing: the total `PaginationService` is given, and the rows. */
  datatype TripPage = TripPage(totalCount: nat, rows: seq<TripView>)

  class TripService {
    /** The trip table. */
    var trips: TripTable
    /** The next primary key the table hands out. */
    var nextTripId: nat
    const users: UserTable
    const images: ImageStore

    ghost predicate Valid()
      reads this, images
    {
      images.Valid() && IncreasingIds(trips) && forall i :: 0 <= i < |trips| ==> trips[i].id < nextTripId
    }

    constructor (users: UserTable, images: ImageStore)
      requires images.Valid()
      ensures Valid()
      ensures trips == [] && nextTripId == 0 && this.users == users && this.images == images
    {
      this.trips, this.nextTripId := [], 0;
      this.users, this.images := users, images;
    }

    /** `getAllTrips`: the total counts the public trips only, and the rows are
        exactly the public trips, as many as the total says. */
    function GetAllTrips(): (page: TripPage)
      reads this
      ensures page.totalCount == |set i | 0 <= i < |trips| && !trips[i].privatePlan|
      ensures |page.rows| == page.totalCount
      ensures forall t :: t in trips && !t.privatePlan ==> View(t) in page.rows
      ensures forall i :: 0 <= i < |page.rows| ==> exists t :: t in trips && !t.privatePlan && page.rows[i] == View(t)
    {
      var rows := FindByPrivatePlan(trips, false);
      var page := TripPage(CountByPrivatePlan(trips, false), Views(rows));
      assert (set i | 0 <= i < |trips| && trips[i].privatePlan == false)
          == set i | 0 <= i < |trips| && !trips[i].privatePlan;
      assert forall t :: t in rows ==> View(t) in page.rows by {
        forall t | t in rows ensures View(t) in page.rows {
          var i :| 0 <= i < |rows| && rows[i] == t;
          assert page.rows[i] == View(t);
        }
      }
      assert forall i :: 0 <= i < |page.rows| ==> rows[i] in rows;
      page
    }

    /** `getAllMyTrips`: an unknown user is refused (a restricted one is not);
        the total counts the caller's trips, public or private, and the rows
        are exactly those trips. */
    function GetAllMyTrips(email: Email): (r: Result<TripPage, TripError>)
      reads this
      ensures email !in users <==> r == Err(UserNotFound)
      ensures r.Ok? <==> email in users
      ensures r.Ok? ==> (email in users
                         && r.value.totalCount == |set i | 0 <= i < |trips| && trips[i].owner == users[email].id|
                         && |r.value.rows| == r.value.totalCount)
      ensures r.Ok? ==> forall t :: t in trips && t.owner == users[email].id ==> View(t) in r.value.rows
      ensures r.Ok? ==> forall i :: 0 <= i < |r.value.rows| ==>
        exists t :: t in trips && t.owner == users[email].id && r.value.rows[i] == View(t)
    {
      match FindByEmail(users, email)
      case None => Err(UserNotFound)
      case Some(user) =>
        var rows := FindByUser(trips, user.id);
        var page := TripPage(CountByUser(trips, user.id), Views(rows));
        assert forall t :: t in rows ==> View(t) in page.rows by {
          forall t | t in rows ensures View(t) in page.rows {
            var i :| 0 <= i < |rows| && rows[i] == t;
            assert page.rows[i] == View(t);
          }
        }
        assert forall i :: 0 <= i < |page.rows| ==> rows[i] in rows;
        Ok(page)
    }

    /** `getTop10Trips`: the repository's top ten, one view per trip, in its
        order: at most ten public trips, most liked first. */
    function GetTop10Trips(): (r: seq<TripView>)
      reads this
      ensures |r| <= TopLimit
      ensures var top := FindTop10ByPrivatePlanFalseOrderByLikeCountDesc(trips);
        |r| == |top| && forall i :: 0 <= i < |r| ==> r[i] == View(top[i])
      ensures forall i :: 0 <= i < |r| ==> !r[i].privatePlan
      ensures forall i, j :: 0 <= i < j < |r| ==> r[i].likeCount >= r[j].likeCount
    {
      Views(FindTop10ByPrivatePlanFalseOrderByLikeCountDesc(trips))
    }

    /** `writeTrip`: after the user, date and flag checks, appends a trip owned
        by the caller with no likes and the parsed privacy, then stores its
        image. A failed check changes nothing. `image` stands for the name the
        file storage gives the uploaded file. */
    method WriteTrip(email: Email, title: string, description: string, startDate: string, endDate: string,
                     privatePlan: string, image: string, validDate: string -> bool, now: int)
      returns (r: Result<Trip, TripError>)
      requires Valid()
      modifies this, images
      ensures Valid()
      ensures ValidateWrite(users, email, startDate, endDate, privatePlan, validDate).Err? ==>
        r == Err(ValidateWrite(users, email, startDate, endDate, privatePlan, validDate).error)
        && unchanged(this) && unchanged(images)
      ensures ValidateWrite(users, email, startDate, endDate, privatePlan, validDate).Ok? ==>
        && r == Ok(Trip(old(nextTripId), users[email].id, title, description, startDate, endDate,
                        0, privatePlan == "yes", None, now, now))
        && trips == old(trips) + [r.value]
        && nextTripId == old(nextTripId) + 1
        && images.images == old(images.images) + [Image(old(images.nextId), "trip", r.value.id, image)]
        && images.nextId == old(images.nextId) + 1
    {
      var checked := ValidateWrite(users, email, startDate, endDate, privatePlan, validDate);
      if checked.Err? {
        return Err(checked.error);
      }
      var (user, isPrivate) := checked.value;
      var trip := Trip(nextTripId, user.id, title, description, startDate, endDate, 0, isPrivate, None, now, now);
      trips := trips + [trip];
      nextTripId := nextTripId + 1;
      var _ := images.Upload("trip", trip.id, image);
      r := Ok(trip);
    }

    /** `updateTripBasicInfo`: the owner may change the title and the privacy
        (flag case ignored); nothing else changes, and a failed check changes nothing. */
    method UpdateTripBasicInfo(email: Email, tripId: nat, title: string, isPrivate: string, now: int)
      returns (r: Result<Trip, TripError>)
      requires Valid()
      modifies this
      ensures Valid()
      ensures old(ValidateUpdate(users, trips, email, tripId, isPrivate)).Err? ==>
        r == Err(old(ValidateUpdate(users, trips, email, tripId, isPrivate)).error) && unchanged(this)
      ensures old(ValidateUpdate(users, trips, email, tripId, isPrivate)).Ok? ==>
        var (k, b) := old(ValidateUpdate(users, trips, email, tripId, isPrivate)).value;
        && r == Ok(WithBasicInfo(old(trips)[k], title, b, now))
        && trips == old(trips)[k := r.value]
        && nextTripId == old(nextTripId)
    {
      var checked := ValidateUpdate(users, trips, email, tripId, isPrivate);
      if checked.Err? {
        return Err(checked.error);
      }
      var (k, b) := checked.value;
      var updated := WithBasicInfo(trips[k], title, b, now);
      trips := trips[k := updated];
      r := Ok(updated);
    }

    /** `deleteMyTrip`: the owner's trip is removed, together with its image;
        every other trip stays. A failed check changes nothing. */
    method DeleteMyTrip(tripId: nat, email: Email) returns (r: Result<(), TripError>)
      requires Valid()
      modifies this, images
      ensures Valid()
      ensures old(ValidateOwnedTrip(users, trips, email, tripId)).Err? ==>
        r == Err(old(ValidateOwnedTrip(users, trips, email, tripId)).error) && unchanged(this) && unchanged(images)
      ensures old(ValidateOwnedTrip(users, trips, email, tripId)).Ok? ==>
        && r == Ok(())
        && (forall t :: t in trips <==> t in old(trips) && t.id != tripId)
        && images.images == RemoveFirstByTarget(old(images.images), "trip", tripId)
        && images.nextId == old(images.nextId)
        && nextTripId == old(nextTripId)
    {
      var checked := ValidateOwnedTrip(users, trips, email, tripId);
      if checked.Err? {
        return Err(checked.error);
      }
      var k := checked.value;
      var image := FindByTarget(images.images, "trip", tripId);
      if image.Some? {
        images.DeleteImage(image.value.id);
      }
      DeleteRowFacts(trips, k);
      trips := trips[..k] + trips[k + 1..];
      r := Ok(());
    }
  }
}
