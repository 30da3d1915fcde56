/** The "Free AI Translator" script (`translator_project.py`): a login page
    with a switch to a signup page, translation into a language picked by
    name, a plain-text history log and a logout button. */
module TranslatorProject {
  import opened Wrappers
  import opened Text
  import opened TextLog
  import opened Accounts
  import opened Translation
  import Tables

  /** Width of the dashed line closing each log record. */
  const RuleWidth: nat := 50

  /** The loaded `users` map, the session fields `logged_in`, `username`
      and `signup_mode`, and the contents of `Translator_History.txt`. */
  datatype State = State(users: Users, loggedIn: bool, username: string, signupMode: bool, log: string)

  datatype Step<O> = Step(state: State, outcome: O)

  datatype LoginOutcome = Welcome | InvalidCredentials

  datatype TranslateOutcome =
    | LoginScreen        // not logged in: the page stops before the translator
    | UnknownLanguage    // `name_to_code[...]` raised before the button is read
    | NoText             // "Please enter some text first."
    | TranslationFailed  // the translation call raised
    | Translated(output: string)

  /** The login page's Login button: logged in exactly when the pair matches
      a stored account; otherwise nothing changes. */
  function Login(s: State, username: string, password: string): (r: Step<LoginOutcome>)
    ensures r.outcome == Welcome <==> Matches(s.users, username, password)
    ensures r.outcome == Welcome ==> r.state.loggedIn && r.state.username == username
    ensures r.outcome == InvalidCredentials ==> r.state == s
    ensures r.state.users == s.users && r.state.log == s.log && r.state.signupMode == s.signupMode
  {
    if username in s.users && s.users[username] == password then
      Step(s.(loggedIn := true, username := username), Welcome)
    else
      Step(s, InvalidCredentials)
  }

  /** The login page's Create Account button: switches to the signup page. */
  function RequestSignup(s: State): (r: State)
    ensures r.signupMode
    ensures r.users == s.users && r.loggedIn == s.loggedIn && r.username == s.username && r.log == s.log
  {
    s.(signupMode := true)
  }

  /** The Sign Up button: an existing name is refused first, then blank
      input; otherwise the account is added and its owner logged in. A
      refusal changes nothing. */
  function Signup(s: State, username: string, password: string): (r: Step<SignupOutcome>)
    ensures username in s.users ==> r == Step(s, DuplicateUser)
    ensures username !in s.users && (Blank(username) || Blank(password)) ==> r == Step(s, InvalidInput)
    ensures r.outcome == SignedUp <==> username !in s.users && !Blank(username) && !Blank(password)
    ensures r.outcome == SignedUp ==>
      && AddedOnly(s.users, r.state.users, username, password)
      && r.state.loggedIn && r.state.username == username
      && r.state.log == s.log && r.state.signupMode == s.signupMode
  {
    if username in s.users then Step(s, DuplicateUser)
    else if BlankField(username, password) then Step(s, InvalidInput)
    else
      var users' := s.users[username := password];
      assert AddedOnly(s.users, users', username, password);
      Step(s.(users := users', loggedIn := true, username := username), SignedUp)
  }

  /** After a successful signup the same pair logs in. */
  lemma SignupThenLogin(s: State, username: string, password: string)
    requires Signup(s, username, password).outcome == SignedUp
    ensures Login(Signup(s, username, password).state, username, password).outcome == Welcome
  {
  }

  /** The Logout button. */
  function Logout(s: State): (r: State)
    ensures !r.loggedIn && r.username == ""
    ensures r.users == s.users && r.log == s.log && r.signupMode == s.signupMode
  {
    s.(loggedIn := false, username := "")
  }

  function NameKey(item: LanguageItem): string {
    Lower(item.1)
  }

  /** `{v.lower(): k for k, v in langs_codes.items()}`. */
  function NameToCode(items: seq<LanguageItem>): map<string, string> {
    Tables.Tabulate(items, NameKey, CodeOf)
  }

  lemma {:induction false} LastIndexExists(items: seq<LanguageItem>, key: string, i: nat)
    requires i < |items| && NameKey(items[i]) == key
    ensures exists j :: 0 <= j < |items| && NameKey(items[j]) == key && Tables.LastWithKey(items, NameKey, j)
    decreases |items| - i
  {
    if !Tables.LastWithKey(items, NameKey, i) {
      var l :| i < l < |items| && NameKey(items[l]) == key;
      LastIndexExists(items, key, l);
    }
  }

  /** A language picked under any spelling whose lower-case form is that of
      a listed name resolves, to the code of the last item listing it. */
  lemma NameResolvesAnyCase(items: seq<LanguageItem>, i: nat, picked: string)
    requires i < |items| && Lower(picked) == Lower(items[i].1)
    ensures Lower(picked) in NameToCode(items)
    ensures exists j ::
      && 0 <= j < |items| && NameKey(items[j]) == Lower(picked)
      && Tables.LastWithKey(items, NameKey, j) && NameToCode(items)[Lower(picked)] == items[j].0
  {
    var key := Lower(picked);
    assert NameKey(items[i]) == key;
    LastIndexExists(items, key, i);
    var j :| 0 <= j < |items| && NameKey(items[j]) == key && Tables.LastWithKey(items, NameKey, j);
    Tables.TabulateLastWins(items, NameKey, CodeOf);
    assert NameToCode(items)[NameKey(items[j])] == CodeOf(items[j]);
  }

  /** `save_translation`: a header with the time and the user, the source
      text, the translation with the target name, and a dashed rule, each
      ended by a newline. */
  function Record(time: string, user: string, text: string, lang: string, translated: string): string {
    Unlines(["[" + time + "] (" + user + ")", "Source: " + text,
             "Translated (" + lang + "): " + translated, Repeat('-', RuleWidth)])
  }

  /** With newline-free fields a record reads back as exactly four lines:
      the header, the source, the translation and a rule of 50 dashes. */
  lemma RecordLines(time: string, user: string, text: string, lang: string, translated: string)
    requires NoNewline(time) && NoNewline(user) && NoNewline(text) && NoNewline(lang) && NoNewline(translated)
    ensures var ls := Lines(Record(time, user, text, lang, translated));
      && |ls| == 4
      && ls[0] == "[" + time + "] (" + user + ")"
      && ls[1] == "Source: " + text
      && ls[2] == "Translated (" + lang + "): " + translated
      && |ls[3]| == RuleWidth && (forall i :: 0 <= i < RuleWidth ==> ls[3][i] == '-')
  {
    var ls := ["[" + time + "] (" + user + ")", "Source: " + text,
               "Translated (" + lang + "): " + translated, Repeat('-', RuleWidth)];
    assert NoNewline(ls[0]) && NoNewline(ls[1]) && NoNewline(ls[2]) && NoNewline(ls[3]);
    LinesUnlines(ls);
  }

  /** The Translate button, after the target code is looked up by the
      lower-cased name. A record is appended only for a non-blank text and
      only once the translation has returned; the earlier log is kept as
      its prefix. Accounts and the session are never touched. */
  function Translate(s: State, text: string, targetLang: string, items: seq<LanguageItem>,
                     translate: Translator, now: string): (r: Step<TranslateOutcome>)
    ensures r.state.users == s.users && r.state.loggedIn == s.loggedIn
    ensures r.state.username == s.username && r.state.signupMode == s.signupMode
    ensures s.log <= r.state.log
    ensures !s.loggedIn ==> r == Step(s, LoginScreen)
    ensures Blank(text) ==> r.state == s
    ensures !r.outcome.Translated? ==> r.state == s
    ensures r.outcome.Translated? ==>
      && s.loggedIn && !Blank(text)
      && Lower(targetLang) in NameToCode(items)
      && translate(text, "auto", NameToCode(items)[Lower(targetLang)]) == Some(r.outcome.output)
      && r.state.log[|s.log|..] == Record(now, s.username, text, targetLang, r.outcome.output)
  {
    if !s.loggedIn then Step(s, LoginScreen)
    else
      match Tables.Get(NameToCode(items), Lower(targetLang))
      case None => Step(s, UnknownLanguage)
      case Some(code) =>
        if StripsToEmpty(text) then Step(s, NoText)
        else
          match translate(text, "auto", code)
          case None => Step(s, TranslationFailed)
          case Some(out) =>
            Step(s.(log := s.log + Record(now, s.username, text, targetLang, out)), Translated(out))
  }

  /** A logged-in user with a non-blank text, a target whose lower-cased
      name is listed, and a translation call that returns, always gets a
      record appended to the log. */
  lemma TranslateSucceeds(s: State, text: string, targetLang: string, items: seq<LanguageItem>,
                          translate: Translator, now: string)
    requires s.loggedIn && !Blank(text) && Lower(targetLang) in NameToCode(items)
    requires translate(text, "auto", NameToCode(items)[Lower(targetLang)]).Some?
    ensures var out := translate(text, "auto", NameToCode(items)[Lower(targetLang)]).value;
      var r := Translate(s, text, targetLang, items, translate, now);
      && r.outcome == Translated(out)
      && r.state.log == s.log + Record(now, s.username, text, targetLang, out)
  {
  }

  /** Reading the log back after a translation: the old lines, then the
      lines of the new record (four of them for newline-free fields, by
      `RecordLines`; a multi-line text spreads over more). */
  lemma TranslateLogLines(s: State, text: string, targetLang: string, items: seq<LanguageItem>,
                          translate: Translator, now: string)
    requires Terminated(s.log)
    requires Translate(s, text, targetLang, items, translate, now).outcome.Translated?
    ensures var r := Translate(s, text, targetLang, items, translate, now);
      Terminated(r.state.log)
      && Lines(r.state.log) == Lines(s.log)
         + Lines(Record(now, s.username, text, targetLang, r.outcome.output))
  {
    var r := Translate(s, text, targetLang, items, translate, now);
    var rec := Record(now, s.username, text, targetLang, r.outcome.output);
    assert r.state.log == s.log + rec;
    LinesAppend(s.log, rec);
  }
}
