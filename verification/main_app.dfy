/** The "AI Translator" script (`main.py`): guest access or a login that
    creates the account on the fly, translation with an optional Roman-Urdu
    source choice, a JSON history whose panel shows the 10 newest entries,
    and a logout button. */
module MainApp {
  import opened Wrappers
  import opened Text
  import opened Accounts
  import opened History
  import opened Translation
  import Tables

  /** The history panel lists this many entries. */
  const HistoryLimit: nat := 10

  /** How many leading characters the detection probe sends. */
  const ProbeLength: nat := 100

  /** The session user of the guest button. */
  const GuestName := "Guest"

  /** The words whose presence selects Roman Urdu as the source. */
  const RomanUrduWords: seq<string> :=
    ["tum", "mera", "tera", "kyun", "kaise", "nahi", "acha", "shukriya", "hai", "main"]

  /** The loaded `users` and `history` maps and the two session fields
      `logged_in` and `user`. */
  datatype State = State(users: Users, history: HistoryMap, loggedIn: bool, user: Option<string>)

  datatype Step<O> = Step(state: State, outcome: O)

  datatype LoginOutcome =
    | Welcome         // the pair matched a stored account
    | AccountCreated  // "New account created"
    | MissingFields   // "Please enter username and password"
    | WrongPassword   // only the corrected login gives this answer

  datatype TranslateOutcome =
    | LoginScreen        // not logged in: the page stops before the translator
    | NoText             // "Please enter some text to translate"
    | TranslationFailed  // a translation call or the target lookup raised
    | Translated(output: string)

  /** The session fields agree: logged in exactly when a user is set. */
  predicate Consistent(s: State) {
    s.loggedIn <==> s.user.Some?
  }

  /** A fresh session over the loaded maps. */
  function Init(users: Users, history: HistoryMap): (s: State)
    ensures Consistent(s) && !s.loggedIn && s.user.None?
    ensures s.users == users && s.history == history
  {
    State(users, history, false, None)
  }

  /** "Continue as Guest": logged in as `Guest`, accounts untouched. */
  function Guest(s: State): (r: State)
    ensures r.loggedIn && r.user == Some(GuestName) && Consistent(r)
    ensures r.users == s.users && r.history == s.history
  {
    s.(user := Some(GuestName), loggedIn := true)
  }

  /** The Login button as written. A matching pair logs in; otherwise any
      non-empty pair is stored, creating the account or replacing the
      password of an existing one, and logs in; an empty field is refused
      with no change. Emptiness is Python truthiness, so a whitespace name
      or password is accepted. */
  function Login(s: State, username: string, password: string): (r: Step<LoginOutcome>)
    ensures Consistent(s) ==> Consistent(r.state)
    ensures r.outcome != WrongPassword
    ensures r.outcome == Welcome <==> Matches(s.users, username, password)
    ensures r.outcome == Welcome ==> r.state == s.(user := Some(username), loggedIn := true)
    ensures r.outcome == AccountCreated <==>
      !Matches(s.users, username, password) && username != "" && password != ""
    ensures r.outcome == AccountCreated ==>
      && r.state.users.Keys == s.users.Keys + {username}
      && (forall u :: u in s.users && u != username ==> r.state.users[u] == s.users[u])
      && r.state.loggedIn && r.state.user == Some(username)
      && r.state.history == s.history
    ensures r.outcome == MissingFields ==> r.state == s
    ensures r.outcome != MissingFields ==> Matches(r.state.users, username, password)
  {
    if username in s.users && s.users[username] == password then
      Step(s.(user := Some(username), loggedIn := true), Welcome)
    else if username != "" && password != "" then
      Step(s.(users := s.users[username := password], user := Some(username), loggedIn := true),
           AccountCreated)
    else
      Step(s, MissingFields)
  }

  /** Whatever the outcome of a login with a non-empty pair, the same pair
      matches afterwards and a second login is a plain welcome. */
  lemma LoginThenLogin(s: State, username: string, password: string)
    requires username != "" && password != ""
    ensures var s' := Login(s, username, password).state;
      && Matches(s'.users, username, password)
      && Login(s', username, password).outcome == Welcome
      && Login(s', username, password).state.users == s'.users
  {
  }

  /** The login as written hands an existing account to anyone who types
      its name with a different non-empty password. */
  lemma WrongPasswordTakesOverAccount(s: State, username: string, password: string)
    requires username in s.users && s.users[username] != password
    requires username != "" && password != ""
    ensures Login(s, username, password).outcome == AccountCreated
    ensures Login(s, username, password).state.users[username] == password
    ensures Login(s, username, password).state.user == Some(username)
  {
  }

  /** A concrete instance: `alice` with stored `pw123`, logging in with
      `wrong`, ends logged in as `alice` with her password replaced. */
  lemma WrongPasswordExample()
    ensures var s := Init(map["alice" := "pw123"], map[]);
      var r := Login(s, "alice", "wrong");
      && r.state.loggedIn && r.state.user == Some("alice")
      && r.state.users["alice"] == "wrong"
  {
    var s := Init(map["alice" := "pw123"], map[]);
    assert !Matches(s.users, "alice", "wrong");
  }

  /** The login the "Auto create user if not exists" comment describes: a
      new non-empty name is created, an existing name with a wrong password
      is refused. */
  function LoginIntended(s: State, username: string, password: string): (r: Step<LoginOutcome>)
    ensures Consistent(s) ==> Consistent(r.state)
    ensures r.outcome == Welcome <==> Matches(s.users, username, password)
    ensures r.outcome == AccountCreated <==>
      username !in s.users && username != "" && password != ""
    ensures r.outcome == WrongPassword <==>
      username in s.users && s.users[username] != password && username != "" && password != ""
    ensures forall u :: u in s.users ==> u in r.state.users && r.state.users[u] == s.users[u]
    ensures r.state.loggedIn && !s.loggedIn ==>
      Matches(s.users, username, password) || username !in s.users
    ensures r.outcome == WrongPassword || r.outcome == MissingFields ==> r.state == s
  {
    if username in s.users && s.users[username] == password then
      Step(s.(user := Some(username), loggedIn := true), Welcome)
    else if username != "" && password != "" && username !in s.users then
      Step(s.(users := s.users[username := password], user := Some(username), loggedIn := true),
           AccountCreated)
    else if username != "" && password != "" then
      Step(s, WrongPassword)
    else
      Step(s, MissingFields)
  }

  /** The two logins differ exactly on a known name with a wrong password. */
  lemma LoginIntendedAgrees(s: State, username: string, password: string)
    ensures Login(s, username, password) == LoginIntended(s, username, password)
      <==> !(username in s.users && s.users[username] != password && username != "" && password != "")
  {
  }

  /** The Logout button. */
  function Logout(s: State): (r: State)
    ensures !r.loggedIn && r.user.None? && Consistent(r)
    ensures r.users == s.users && r.history == s.history
  {
    s.(loggedIn := false, user := None)
  }

  /** The manual source choice: Roman Urdu when one of the words occurs
      anywhere in the lower-cased text, the service's own detection
      otherwise. */
  function RomanUrduSource(text: string): (r: (string, string))
    ensures r == ("ur", "Roman Urdu") <==>
      exists k, i :: 0 <= k < |RomanUrduWords| && OccursAt(Lower(text), RomanUrduWords[k], i)
    ensures r != ("ur", "Roman Urdu") ==> r == ("auto", "Auto-Detected")
  {
    ContainsAnyIff(Lower(text), RomanUrduWords);
    if ContainsAny(Lower(text), RomanUrduWords) then ("ur", "Roman Urdu")
    else ("auto", "Auto-Detected")
  }

  /** Python's `text[:n]`. */
  function Prefix(text: string, n: nat): (r: string)
    ensures |r| == Min(n, |text|) && r <= text
  {
    if |text| <= n then text else text[..n]
  }

  /** The source code and the displayed source label of a translation:
      automatic detection when it is switched on, otherwise the Roman-Urdu
      keyword test decides. */
  function Source(text: string, autoDetect: bool): (r: (string, string))
    ensures autoDetect ==> r == ("auto", "Auto-Detected")
    ensures !autoDetect ==> r == RomanUrduSource(text)
  {
    if autoDetect then ("auto", "Auto-Detected") else RomanUrduSource(text)
  }

  /** The TRANSLATE NOW button. With auto-detection on, a probe of the first
      100 characters into English must succeed before the real call. On
      success exactly one entry, with the source shown, the target name, the
      input and the output, is added at the end of the user's history; every
      failure leaves the state unchanged. */
  function Translate(s: State, text: string, targetLang: string, languages: map<string, string>,
                     autoDetect: bool, translate: Translator, now: string): (r: Step<TranslateOutcome>)
    requires Consistent(s)
    ensures Consistent(r.state)
    ensures r.state.users == s.users && r.state.loggedIn == s.loggedIn && r.state.user == s.user
    ensures !s.loggedIn ==> r == Step(s, LoginScreen)
    ensures s.loggedIn && Blank(text) ==> r == Step(s, NoText)
    ensures !r.outcome.Translated? ==> r.state == s
    ensures r.outcome.Translated? ==> s.loggedIn && !Blank(text) && targetLang in languages
  {
    if !s.loggedIn then Step(s, LoginScreen)
    else if StripsToEmpty(text) then Step(s, NoText)
    else
      // the body of the `try`: `None` when any step raises
      var (src, shown) := Source(text, autoDetect);
      var result :=
        if autoDetect && translate(Prefix(text, ProbeLength), "auto", "en").None? then None
        else if targetLang !in languages then None
        else translate(text, src, languages[targetLang]);
      match result
      case None => Step(s, TranslationFailed)
      case Some(out) =>
        var e := Entry(now, shown, targetLang, text, out);
        Step(s.(history := Append(s.history, s.user.value, e)), Translated(out))
  }

  /** The converse of `TranslateSaves`: a logged-in, non-blank request with a
      known target, whose probe (under auto-detection) and real call both
      return, is translated. */
  lemma TranslateSucceeds(s: State, text: string, targetLang: string, languages: map<string, string>,
                          autoDetect: bool, translate: Translator, now: string)
    requires Consistent(s) && s.loggedIn && !Blank(text) && targetLang in languages
    requires autoDetect ==> translate(Prefix(text, ProbeLength), "auto", "en").Some?
    requires translate(text, Source(text, autoDetect).0, languages[targetLang]).Some?
    ensures Translate(s, text, targetLang, languages, autoDetect, translate, now).outcome
      == Translated(translate(text, Source(text, autoDetect).0, languages[targetLang]).value)
  {
  }

  /** What a successful translation required and what it saved: the probe
      passed when auto-detection is on, the real call returned the shown
      output, and exactly that entry was appended to the user's history. */
  lemma TranslateSaves(s: State, text: string, targetLang: string, languages: map<string, string>,
                       autoDetect: bool, translate: Translator, now: string)
    requires Consistent(s)
    ensures var r := Translate(s, text, targetLang, languages, autoDetect, translate, now);
      r.outcome.Translated? ==>
        && s.loggedIn && targetLang in languages
        && (autoDetect ==> translate(Prefix(text, ProbeLength), "auto", "en").Some?)
        && translate(text, Source(text, autoDetect).0, languages[targetLang]) == Some(r.outcome.output)
        && AppendedOne(s.history, r.state.history, s.user.value,
                       Entry(now, Source(text, autoDetect).1, targetLang, text, r.outcome.output))
  {
  }

  /** The history panel: the 10 newest entries of the session user, newest
      first; nothing for a user with no saved history. */
  function RecentHistory(s: State): (r: seq<Entry>)
    ensures s.user.Some? ==> |r| == Min(HistoryLimit, |Log(s.history, s.user.value)|)
    ensures s.user.Some? ==> forall i :: 0 <= i < |r| ==>
      r[i] == Log(s.history, s.user.value)[|Log(s.history, s.user.value)| - 1 - i]
    ensures s.user.None? || s.user.value !in s.history ==> r == []
  {
    match s.user
    case None => []
    case Some(u) => if u in s.history && s.history[u] != [] then View(s.history, u, HistoryLimit) else []
  }

  /** Guests share one history: a guest session and an account named
      `Guest` read and write the same list. */
  lemma GuestSharesHistory(s: State, password: string)
    requires password != ""
    ensures RecentHistory(Guest(s)) == RecentHistory(Login(s, GuestName, password).state)
  {
  }
}
