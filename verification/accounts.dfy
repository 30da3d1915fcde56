/** The account map every script keeps in `users.json`: username to the
    password exactly as typed. Nothing is hashed. */
module Accounts {
  import opened Text

  type Users = map<string, string>

  /** `username in users and users[username] == password`, the login test
      shared by all the scripts: exact string equality on both parts. */
  predicate Matches(users: Users, username: string, password: string) {
    username in users && users[username] == password
  }

  /** `not username.strip() or not password.strip()`: the signup forms'
      test for a blank field. */
  function BlankField(username: string, password: string): (b: bool)
    ensures b <==> Blank(username) || Blank(password)
  {
    StripsToEmpty(username) || StripsToEmpty(password)
  }

  /** Why a signup was refused, or that it went through. */
  datatype SignupOutcome = SignedUp | InvalidInput | DuplicateUser

  /** `users` gained exactly `username -> password` and nothing else moved. */
  ghost predicate AddedOnly(users: Users, users': Users, username: string, password: string) {
    && users'.Keys == users.Keys + {username}
    && users'[username] == password
    && (forall u :: u in users && u != username ==> users'[u] == users[u])
  }
}
