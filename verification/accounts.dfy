/** The user records the services read (never write): the user repository
    keyed by e-mail, as `ValidationUtil.validateUserExists` and
    `UserRepository.findByEmail` look users up. */
module Accounts {
  import opened Wrappers

  type Email = string
  type UserId = nat

  /** A user as the core sees it: identity, and the two flags the gates test. */
  datatype User = User(id: UserId, name: string, restricted: bool, admin: bool)

  /** The user repository: at most one user per e-mail address. */
  type UserTable = map<Email, User>

  /** `findByEmail(email).orElse(null)`. */
  function FindByEmail(users: UserTable, email: Email): (r: Option<User>)
    ensures r.None? <==> email !in users
    ensures r.Some? ==> r.value == users[email]
  {
    if email in users then Some(users[email]) else None
  }
}
