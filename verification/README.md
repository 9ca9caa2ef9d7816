# Trip plans, notices and community helpers of the plan backend, in Dafny

This project models three sequential parts of the travel-planning backend
`plan_backend` and proves properties of them:

- **Community helpers** (`CommunityUtil`). `getPreview` turns a Quill Delta
  post body (`{"ops":[{"insert":"..."}, ...]}`) into a plain-text preview. It
  appends each op's `insert` text with line feeds removed and stops at 200
  characters. `isLikedCommunity` says whether the caller liked a post, and
  `getThumbnailUrl` picks a post's first image.
- **Trip plans** (`TripService` over the queries of `TripRepository`). Users
  create trip plans. Only the owner may change a plan's title and privacy or
  delete it, and restricted (banned) users may do neither. The repository
  answers counts, per-user and public listings, the ten most-liked public
  plans, existence by city, and two case-insensitive searches.
- **Notices** (`NoticeService`). Administrators write, partially update and
  delete notices. Anyone may list them.

Modules, one per source file or collaborator:

| file | module | models |
|---|---|---|
| `wrappers.dfy` | `Wrappers` | `Option` (Java `null`/`Optional`) and `Result` (an exception or a value) |
| `accounts.dfy` | `Accounts` | the user table the services read, keyed by e-mail |
| `text.dfy` | `Text` | `String.replace("\n", "")`, lower-casing, `equalsIgnoreCase`, containment |
| `sql_like.dfy` | `SqlLike` | SQL `LIKE` with `%` and `_` |
| `images.dfy` | `Images` | the image table shared by trips, notices and posts: lookup by target, delete |
| `community_util.dfy` | `CommunityUtil` | `getPreview`, `isLikedCommunity`, `getThumbnailUrl` |
| `trip_repository.dfy` | `TripRepository` | the trip table (a `seq` in primary-key order) and its queries, as pure functions |
| `trip_service.dfy` | `TripService` | the service's checks as pure functions, and class `TripService` holding the trip table |
| `notice_service.dfy` | `NoticeService` | class `NoticeService` holding the notice table (a `map` by id) |

Code that changes state step by step is a class with methods. `TripService`
and `NoticeService` hold their tables. `ImageStore` is the image table the two
services share. Each method states its whole new state in terms of the old one
and a pure check function. `getPreview`'s `for` loop with `break` is the
method `GetPreview`, proved equal to the function `Preview`: the stripped text
cut to 200 characters. The preview's properties are lemmas about `Preview`.

Collaborators the model does not implement are inputs:
- `ValidationUtil.ValidateDate` is the parameter `validDate`.
- The clock (`LocalDateTime.now`) is the parameter `now`, one reading per operation.
- The name file storage gives an uploaded image is the parameter `image`.
- A parsed post body is `Option<seq<Option<string>>>`. `None` is a body that
  does not parse or has no `ops`. Each op is the text of its `insert`, or
  `None` when it has none.

The comment-thread subsystem (nested replies, reply and like counters,
cascading delete) is not part of this model. Its service class is not among
the source files: `CommentController` only forwards to it.

## Model

| member | source | states |
|---|---|---|
| `Accounts.FindByEmail` | src/main/java/com/jandi/plan_backend/util/CommunityUtil.java:44 | the lookup finds a user exactly when the e-mail is registered, and that user |
| `Text.StripNewlines` | src/main/java/com/jandi/plan_backend/util/CommunityUtil.java:72 | the result holds exactly the characters of the input other than line feeds and is no longer; a string without line feeds is returned unchanged |
| `Text.StripNewlinesAppend` | src/main/java/com/jandi/plan_backend/util/CommunityUtil.java:72 | removing line feeds distributes over concatenation; with the clause above, this pins the result down as the input with its line feeds filtered out, order and repeats kept |
| `Text.LowerChar` | src/main/java/com/jandi/plan_backend/trip/repository/TripRepository.java:35 | an ASCII capital maps to its own small letter (same offset from `a` as from `A`); every other character stays |
| `Text.Lower` | src/main/java/com/jandi/plan_backend/trip/repository/TripRepository.java:35 | `LOWER`: same length, each character lower-cased in place |
| `Text.EqualsIgnoreCase` | src/main/java/com/jandi/plan_backend/trip/service/TripService.java:224-226 | equal strings are equal ignoring case, and strings equal ignoring case have the same length |
| `Text.EqualsIgnoreCaseIsLowerEquality` | src/main/java/com/jandi/plan_backend/trip/service/TripService.java:224-226 | comparing ignoring case is the same as comparing the lower-cased strings |
| `Text.Contains` | src/main/java/com/jandi/plan_backend/trip/repository/TripRepository.java:35-39 | a string contains each of its prefixes, and nothing longer than itself |
| `SqlLike.Like` | src/main/java/com/jandi/plan_backend/trip/repository/TripRepository.java:35-39 | `LIKE`; a pattern with neither `%` nor `_` matches exactly the string equal to it |
| `SqlLike.ContainsPattern` | src/main/java/com/jandi/plan_backend/trip/repository/TripRepository.java:35 | `CONCAT('%', k, '%')`: two characters longer than `k`, `%` at both ends, `k` in between |
| `SqlLike.LikePrefixPattern` | src/main/java/com/jandi/plan_backend/trip/repository/TripRepository.java:35 | for a keyword without wildcards, `k%` matches exactly the strings that start with `k` |
| `SqlLike.LikeLeadingPercent` | src/main/java/com/jandi/plan_backend/trip/repository/TripRepository.java:35 | `%q` matches a string exactly when `q` matches one of its suffixes |
| `SqlLike.ContainsPatternIsContains` | src/main/java/com/jandi/plan_backend/trip/repository/TripRepository.java:35-39 | for a keyword without `%` or `_`, matching `CONCAT('%', k, '%')` is exactly substring containment |
| `SqlLike.LowerContainsPattern` | src/main/java/com/jandi/plan_backend/trip/repository/TripRepository.java:35 | lower-casing the whole pattern lower-cases only the keyword, and adds no wildcard |
| `SqlLike.WildcardKeywordMatchesNonContaining` | src/main/java/com/jandi/plan_backend/trip/repository/TripRepository.java:35-36 | the keyword `a_c` matches `abc`, which does not contain it |
| `Images.FirstIndexByTarget` | src/main/java/com/jandi/plan_backend/resource/service/NoticeService.java:85 | the position found holds an image of the target, and no earlier one does |
| `Images.FindByTarget` | src/main/java/com/jandi/plan_backend/resource/service/NoticeService.java:85-86 | no image is found exactly when none is attached to the target; a found one is attached to it |
| `Images.AllByTarget` | src/main/java/com/jandi/plan_backend/util/CommunityUtil.java:49 | exactly the images attached to the target; empty exactly when the lookup finds none; its first is the one the lookup finds |
| `Images.Without` | src/main/java/com/jandi/plan_backend/trip/service/TripService.java:197 | exactly the images with a different id remain, ids still increasing |
| `Images.RemoveFirstByTarget` | src/main/java/com/jandi/plan_backend/resource/service/NoticeService.java:85-86 | the table changes exactly when the target has an image, and only loses images |
| `Images.RemoveFirstByTargetEffect` | src/main/java/com/jandi/plan_backend/resource/service/NoticeService.java:85-86 | deleting the target's image keeps every image of other targets and adds none; with at most one image per target, none of the target's remains |
| `Images.ImageStore.Upload` | src/main/java/com/jandi/plan_backend/trip/service/TripService.java:116 | one image, attached to the target with a fresh id, is appended |
| `Images.ImageStore.DeleteImage` | src/main/java/com/jandi/plan_backend/trip/service/TripService.java:197 | the image with that id is removed and nothing else |
| `CommunityUtil.StrippedAppend` | src/main/java/com/jandi/plan_backend/util/CommunityUtil.java:63-75 | the ops' contributions concatenate in op order |
| `CommunityUtil.InsertText` | src/main/java/com/jandi/plan_backend/util/CommunityUtil.java:69-72 | an op without `insert` contributes nothing; an op with one contributes exactly its text with line feeds removed |
| `CommunityUtil.Stripped` | src/main/java/com/jandi/plan_backend/util/CommunityUtil.java:63-75 | every character of the stripped text comes from some op's `insert` |
| `CommunityUtil.Truncate` | src/main/java/com/jandi/plan_backend/util/CommunityUtil.java:73-74 | a prefix of at most `n` characters: all of the input when it fits, otherwise exactly `n` |
| `CommunityUtil.Preview` | src/main/java/com/jandi/plan_backend/util/CommunityUtil.java:63-75 | a prefix of the stripped text, at most 200 characters long |
| `CommunityUtil.StrippedHasNoNewline` | src/main/java/com/jandi/plan_backend/util/CommunityUtil.java:72 | the stripped text has no line feed |
| `CommunityUtil.PreviewShape` | src/main/java/com/jandi/plan_backend/util/CommunityUtil.java:63-75 | the preview has at most 200 characters and no line feed, and is a prefix of the stripped text: all of it when that fits, otherwise exactly 200 characters |
| `CommunityUtil.PreviewIgnoresOpsAfterLimit` | src/main/java/com/jandi/plan_backend/util/CommunityUtil.java:64-67 | once the ops read so far give 200 characters, the later ops change nothing |
| `CommunityUtil.PreviewSkipsOpWithoutInsert` | src/main/java/com/jandi/plan_backend/util/CommunityUtil.java:69-70 | an op without `insert` contributes nothing |
| `CommunityUtil.PreviewStep` | src/main/java/com/jandi/plan_backend/util/CommunityUtil.java:66-74 | an op read while there is room appends its text cut to the room left |
| `CommunityUtil.TruncateConcat` | src/main/java/com/jandi/plan_backend/util/CommunityUtil.java:73-74 | cutting a concatenation whose first part fits keeps that part and cuts the second to the remaining length |
| `CommunityUtil.GetPreview` | src/main/java/com/jandi/plan_backend/util/CommunityUtil.java:54-81 | a body that does not parse is an error, never a partial preview; otherwise the loop's result is exactly `Preview`, the stripped text cut to 200 |
| `CommunityUtil.ExistsByUserAndCommunity` | src/main/java/com/jandi/plan_backend/util/CommunityUtil.java:45 | true exactly when some recorded like is that user's like of that post |
| `CommunityUtil.IsLikedCommunity` | src/main/java/com/jandi/plan_backend/util/CommunityUtil.java:43-46 | false for an unknown e-mail; otherwise true exactly when that user's like of the post is recorded |
| `CommunityUtil.GetThumbnailUrl` | src/main/java/com/jandi/plan_backend/util/CommunityUtil.java:48-51 | `""` when the post has no image; otherwise the prefix followed by the first image's name |
| `TripRepository.FindIndexById` | src/main/java/com/jandi/plan_backend/trip/service/TripService.java:188 | the position found holds the row with that key, and no earlier one does |
| `TripRepository.FindById` | src/main/java/com/jandi/plan_backend/trip/service/TripService.java:188 | no row is found exactly when none has the key; a found row has it |
| `TripRepository.DeleteRowFacts` | src/main/java/com/jandi/plan_backend/trip/service/TripService.java:200 | deleting a row keeps exactly the rows with other keys, keys still increasing |
| `TripRepository.Where` | src/main/java/com/jandi/plan_backend/trip/repository/TripRepository.java:19-22 | a filter returns exactly the rows satisfying its condition, each at most as often as in the table |
| `TripRepository.WhereCount` | src/main/java/com/jandi/plan_backend/trip/repository/TripRepository.java:16 | a filter returns as many rows as there are positions satisfying its condition |
| `TripRepository.WhereCongruent` | src/main/java/com/jandi/plan_backend/trip/repository/TripRepository.java:35-39 | two conditions that agree on every row select the same rows |
| `TripRepository.CountByUser` | src/main/java/com/jandi/plan_backend/trip/repository/TripRepository.java:16 | the number of rows owned by the user |
| `TripRepository.FindByUser` | src/main/java/com/jandi/plan_backend/trip/repository/TripRepository.java:41 | exactly the user's trips, as many as `countByUser` says |
| `TripRepository.CountByPrivatePlan` | src/main/java/com/jandi/plan_backend/trip/repository/TripRepository.java:25 | the number of rows whose privacy flag equals `b` |
| `TripRepository.FindByPrivatePlan` | src/main/java/com/jandi/plan_backend/trip/repository/TripRepository.java:22 | exactly the trips with that flag, as many as `countByPrivatePlan` says |
| `TripRepository.FindByPrivatePlanOrUser` | src/main/java/com/jandi/plan_backend/trip/repository/TripRepository.java:33 | exactly the trips that have flag `b` or are owned by the user |
| `TripRepository.ExistsByCity` | src/main/java/com/jandi/plan_backend/trip/repository/TripRepository.java:30 | true exactly when some trip is in that city |
| `TripRepository.SortedCons` | src/main/java/com/jandi/plan_backend/trip/repository/TripRepository.java:28 | a row with at least as many likes as every row of a sorted table can head it |
| `TripRepository.HeadBoundsInsertedTail` | src/main/java/com/jandi/plan_backend/trip/repository/TripRepository.java:28 | the head of a sorted table outranks its tail with a lower row inserted |
| `TripRepository.InsertByLikes` | src/main/java/com/jandi/plan_backend/trip/repository/TripRepository.java:28 | inserting into a table sorted by likes, descending, keeps it sorted and adds exactly that row |
| `TripRepository.SortByLikesDesc` | src/main/java/com/jandi/plan_backend/trip/repository/TripRepository.java:28 | `ORDER BY likeCount DESC` yields a permutation sorted by likes, descending |
| `TripRepository.SameRows` | src/main/java/com/jandi/plan_backend/trip/repository/TripRepository.java:28 | a reordering has the same rows and length |
| `TripRepository.SortedPrefix` | src/main/java/com/jandi/plan_backend/trip/repository/TripRepository.java:28 | a prefix of a sorted table is sorted and part of it |
| `TripRepository.TopOfSorted` | src/main/java/com/jandi/plan_backend/trip/repository/TripRepository.java:28 | a row outside the first `m` of a sorted table has no more likes than any of them |
| `TripRepository.TopRowsFacts` | src/main/java/com/jandi/plan_backend/trip/repository/TripRepository.java:28 | the first `min(10, n)` sorted public rows are public, sorted, the top ones, and all of them when fewer than 10 |
| `TripRepository.FindTop10ByPrivatePlanFalseOrderByLikeCountDesc` | src/main/java/com/jandi/plan_backend/trip/repository/TripRepository.java:28 | at most 10 public trips (10, or every public trip when there are fewer), most likes first; a public trip left out has no more likes than any returned |
| `TripRepository.TitleMatches` | src/main/java/com/jandi/plan_backend/trip/repository/TripRepository.java:35 | for a keyword without wildcards, the `WHERE` test holds exactly when the lower-cased title contains the lower-cased keyword |
| `TripRepository.CityNameMatches` | src/main/java/com/jandi/plan_backend/trip/repository/TripRepository.java:38 | a trip without a city never matches; for a keyword without wildcards, one with a city matches exactly when the lower-cased name contains the lower-cased keyword |
| `TripRepository.SearchByTitleContainingIgnoreCase` | src/main/java/com/jandi/plan_backend/trip/repository/TripRepository.java:35-36 | as written: exactly the trips whose lower-cased title is `LIKE` the lower-cased `%keyword%` |
| `TripRepository.SearchByCityNameContainingIgnoreCase` | src/main/java/com/jandi/plan_backend/trip/repository/TripRepository.java:38-39 | as written: exactly the trips with a city whose lower-cased name is `LIKE` the lower-cased `%keyword%` |
| `TripRepository.SearchByTitleContaining` | src/main/java/com/jandi/plan_backend/trip/repository/TripRepository.java:35-36 | as intended: exactly the trips whose lower-cased title contains the lower-cased keyword |
| `TripRepository.SearchByCityNameContaining` | src/main/java/com/jandi/plan_backend/trip/repository/TripRepository.java:38-39 | as intended: exactly the trips with a city whose lower-cased name contains the lower-cased keyword |
| `TripRepository.MatchesIsContains` | src/main/java/com/jandi/plan_backend/trip/repository/TripRepository.java:35 | for a keyword without wildcards, the lower-cased `LIKE` test is case-insensitive containment |
| `TripRepository.SearchesAgreeWithoutWildcards` | src/main/java/com/jandi/plan_backend/trip/repository/TripRepository.java:35-39 | for a keyword without `%` or `_`, both searches as written return exactly what their names promise |
| `TripRepository.TitleSearchTreatsUnderscoreAsWildcard` | src/main/java/com/jandi/plan_backend/trip/repository/TripRepository.java:35-36 | the title search as written finds the title `abc` for the keyword `a_c`; the intended search does not |
| `TripService.ParseWriteFlag` | src/main/java/com/jandi/plan_backend/trip/service/TripService.java:97-100 | accepted exactly when the flag is `"yes"` or `"no"`, case-sensitive; private exactly when `"yes"` |
| `TripService.ParseUpdateFlag` | src/main/java/com/jandi/plan_backend/trip/service/TripService.java:223-230 | private exactly when the lower-cased flag is `"yes"`, public exactly when it is `"no"`, refused otherwise |
| `TripService.UpdateFlagExtendsWriteFlag` | src/main/java/com/jandi/plan_backend/trip/service/TripService.java:224-230 | every flag creation accepts, update accepts with the same meaning |
| `TripService.UpperCaseYes` | src/main/java/com/jandi/plan_backend/trip/service/TripService.java:224-230 | `"YES"` is refused on creation and means private on update |
| `TripService.CheckUser` | src/main/java/com/jandi/plan_backend/trip/service/TripService.java:93-94 | passes exactly a registered, unrestricted user; unknown users and restricted users get their own errors |
| `TripService.ValidateWrite` | src/main/java/com/jandi/plan_backend/trip/service/TripService.java:93-100 | passes exactly for a registered unrestricted user, two valid dates and flag `"yes"`/`"no"`, in that order of checks; yields the user and "private iff `"yes"`" |
| `TripService.ValidateOwnedTrip` | src/main/java/com/jandi/plan_backend/trip/service/TripService.java:184-193 | passes exactly when the caller passes the user check and owns the existing trip; otherwise the first failing check's error |
| `TripService.ValidateUpdate` | src/main/java/com/jandi/plan_backend/trip/service/TripService.java:213-230 | the ownership checks come first and their error wins; then the flag is parsed ignoring case |
| `TripService.OwnershipBeforeFlag` | src/main/java/com/jandi/plan_backend/trip/service/TripService.java:217-230 | a non-owner is refused as a non-owner whatever flag is sent |
| `TripService.WithBasicInfo` | src/main/java/com/jandi/plan_backend/trip/service/TripService.java:233-235 | title, privacy and `updatedAt` take the new values; id, owner, description, dates, likes, city and `createdAt` stay |
| `TripService.View` | src/main/java/com/jandi/plan_backend/trip/service/TripService.java:144-172 | the view shows the trip's own id, owner, title, dates, description, likes and privacy |
| `TripService.ViewOfUpdatedTrip` | src/main/java/com/jandi/plan_backend/trip/service/TripService.java:252-261 | the updated trip shows the new title and privacy and otherwise what it showed before |
| `TripService.Views` | src/main/java/com/jandi/plan_backend/trip/service/TripService.java:143-174 | one view per trip, same length and order |
| `TripService.TripService.GetAllTrips` | src/main/java/com/jandi/plan_backend/trip/service/TripService.java:36-58 | the total counts only public trips; the rows are exactly the public trips, as many as the total |
| `TripService.TripService.GetAllMyTrips` | src/main/java/com/jandi/plan_backend/trip/service/TripService.java:62-86 | a page is returned exactly when the e-mail is registered (restricted users included), otherwise `UserNotFound`; the total counts the caller's trips; the rows are exactly those trips |
| `TripService.TripService.GetTop10Trips` | src/main/java/com/jandi/plan_backend/trip/service/TripService.java:138-175 | the repository's top-10 mapped one-to-one in its order: at most 10 public views, most likes first |
| `TripService.TripService.WriteTrip` | src/main/java/com/jandi/plan_backend/trip/service/TripService.java:90-133 | a failed check changes nothing; otherwise a trip owned by the caller with 0 likes and the parsed privacy is appended under a fresh id, and its image stored |
| `TripService.TripService.UpdateTripBasicInfo` | src/main/java/com/jandi/plan_backend/trip/service/TripService.java:211-262 | a failed check changes nothing; otherwise only the owner's trip is replaced, with only title, privacy and `updatedAt` changed |
| `TripService.TripService.DeleteMyTrip` | src/main/java/com/jandi/plan_backend/trip/service/TripService.java:182-201 | a failed check changes nothing; otherwise exactly the trips with other ids remain and the trip's image is deleted |
| `NoticeService.CheckAdmin` | src/main/java/com/jandi/plan_backend/resource/service/NoticeService.java:45-46 | passes exactly a registered administrator; unknown users and non-admins get their own errors |
| `NoticeService.CheckNotice` | src/main/java/com/jandi/plan_backend/resource/service/NoticeService.java:61-65 | passes exactly an administrator naming an existing notice, which it yields; the admin check's error comes first |
| `NoticeService.Merge` | src/main/java/com/jandi/plan_backend/resource/service/NoticeService.java:67-69 | the title is replaced exactly when the request has one, the contents likewise; id and `createdAt` stay |
| `NoticeService.MergeEmptyRequest` | src/main/java/com/jandi/plan_backend/resource/service/NoticeService.java:68-69 | a request with both fields absent leaves the notice unchanged |
| `NoticeService.MergeIdempotent` | src/main/java/com/jandi/plan_backend/resource/service/NoticeService.java:68-69 | applying the same update twice equals applying it once |
| `NoticeService.MergeCompose` | src/main/java/com/jandi/plan_backend/resource/service/NoticeService.java:68-69 | two updates in a row equal one update whose present fields are the later request's, else the earlier's |
| `NoticeService.NoticeCount` | src/main/java/com/jandi/plan_backend/resource/service/NoticeService.java:38-39 | listing notices with distinct keys loses none |
| `NoticeService.NoticeService.GetAllNotices` | src/main/java/com/jandi/plan_backend/resource/service/NoticeService.java:38-40 | every stored notice and nothing else, one per key |
| `NoticeService.NoticeService.WriteNotice` | src/main/java/com/jandi/plan_backend/resource/service/NoticeService.java:43-57 | a non-admin or unknown user changes nothing; otherwise a notice with the request's title and contents is added under a fresh id |
| `NoticeService.NoticeService.UpdateNotice` | src/main/java/com/jandi/plan_backend/resource/service/NoticeService.java:59-74 | a failed check (not admin, absent notice) changes nothing; otherwise only that notice changes, merged with the request, keeping `createdAt` |
| `NoticeService.NoticeService.DeleteNotice` | src/main/java/com/jandi/plan_backend/resource/service/NoticeService.java:76-91 | a failed check changes nothing; otherwise the notice and its image are removed and the result is `true` |

## Findings

| source | as written | input that shows it | evidently intended | confidence | as-written member | corrected member |
|---|---|---|---|---|---|---|
| src/main/java/com/jandi/plan_backend/trip/repository/TripRepository.java:35-39 | the keyword goes into `LIKE CONCAT('%', :keyword, '%')` unescaped, so `%` and `_` in it act as wildcards | keyword `a_c`, trip title `abc`: the title is found though it does not contain `a_c` | case-insensitive substring search, as the names `...ContainingIgnoreCase` say (Spring Data's derived `Containing` queries escape wildcards) | medium; not executed | `TripRepository.TitleSearchTreatsUnderscoreAsWildcard` | `TripRepository.SearchByTitleContaining` |

`SearchesAgreeWithoutWildcards` proves that the two searches as written and
the intended ones agree on every keyword without `%` or `_`.

## Left out

- The comment, reply and comment-like subsystem: its service is not among the source files. The controllers only forward to it.
- The controllers: HTTP routing, token handling and response assembly.
- JSON parsing in `getPreview`: the body comes in already parsed. A body that does not parse and a body without `ops` are the same error.
- String lengths are counted in characters, not in Java's UTF-16 code units. So a cut that would split a surrogate pair is not modelled.
- `equalsIgnoreCase` and SQL `LOWER` are modelled on ASCII letters only. Java's full case mapping accepts a few other spellings too; for example `"yeſ"` (long s) equals `"yes"` ignoring case.
- `LIKE`: no escape character is modelled, and neither is collation (a database collation can make `LIKE` case-insensitive by itself).
- Pagination: page and size slicing is not shown. The paged finders return every matching row, and a listing is its total and all its rows.
- Response DTOs: author names, profile-image and trip-image URLs, and the storage URL prefix are left out. A listed trip is shown as `TripView`.
- `TripService.TripService.WriteTrip`: the image upload is assumed to succeed. If it failed, the trip would already be saved; that path is not modelled.
- `budget` and the other trip fields `writeTrip` does not set are not modelled. A new trip has no city.
- `ValidationUtil`: only the observable outcomes are modelled. Unknown user, restricted user, non-admin, missing trip or notice, and invalid date each give their own error. The date check itself is the parameter `validDate`, and the stored date is the accepted text.
- `Images.FindByTarget`: the first attached image is taken. Spring's `Optional` finder would throw if several images shared a target.
- `Images.RemoveFirstByTargetEffect`: it proves that no image of the target remains only when the target has at most one image, because the source deletes only the one image its lookup returns.
- Ties in `ORDER BY likeCount DESC`: the database leaves their order open. The model keeps table order.
- `NoticeService.NoticeService.GetAllNotices`: returns a set, so the order of `findAll` is not modelled.
- Java `null` arguments are not modelled. In `updateTripBasicInfo` a `null` flag would throw `NullPointerException`. In `writeTrip` the null-safe `Objects.equals` refuses a `null` flag like any other value that is not yes/no; the model's flag is always a string. The request fields of both `writeNotice` and `updateNotice` may be absent: `writeNotice` stores an absent field as absent, and `updateNotice` keeps the old value.
- `TripService.TripService.WriteTrip`: the source reads the clock twice, once for `createdAt` and once for `updatedAt`. The model uses the single reading `now` for both, so the two always agree.
- Transactions and concurrency: each operation is one sequential step.
