/** How the account rules of the scripts relate to one another. */
module Variants {
  import opened Text
  import opened Accounts
  import Ai = AiTranslatorApp
  import Project = TranslatorProject
  import MainApp

  /** The two signup forms check blank input and an existing name in
      opposite orders. Over the same accounts they accept the same requests
      and leave the same accounts behind; they only disagree on the warning,
      exactly when an existing name comes with a blank name or password. */
  lemma SignupCheckOrder(a: Ai.State, p: Project.State, username: string, password: string)
    requires a.users == p.users
    ensures var ra := Ai.Signup(a, username, password);
      var rp := Project.Signup(p, username, password);
      && ra.state.users == rp.state.users
      && (ra.outcome == SignedUp <==> rp.outcome == SignedUp)
      && (ra.outcome != rp.outcome <==>
            username in a.users && (Blank(username) || Blank(password)))
  {
  }

  /** All three login forms accept the same pairs: the stored password must
      equal the typed one exactly. */
  lemma LoginAgreement(a: Ai.State, m: MainApp.State, p: Project.State, username: string, password: string)
    requires a.users == m.users == p.users
    ensures Ai.Login(a, username, password).outcome == Ai.Welcome
      <==> MainApp.Login(m, username, password).outcome == MainApp.Welcome
    ensures Ai.Login(a, username, password).outcome == Ai.Welcome
      <==> Project.Login(p, username, password).outcome == Project.Welcome
  {
  }
}
