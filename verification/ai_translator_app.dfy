/** The "AI Translator Pro" script (`ai_translator_app.py`): login and
    signup side by side, a dashboard with a logout button, translation with
    an optional source-language guess, and a JSON history whose panel shows
    the 50 newest entries. */
module AiTranslatorApp {
  import opened Wrappers
  import opened Text
  import opened Accounts
  import opened History
  import opened Translation
  import Tables

  /** The selection that asks for the source language to be guessed. */
  const AutoDetect := "Auto-detect"

  /** The history panel lists this many entries. */
  const HistoryLimit: nat := 50

  /** The words whose presence makes the fallback guess Roman Urdu. */
  const UrduHints: seq<string> := ["ki", "ka", "hai", "tum", "mera", "shukriya", "acha"]

  /** The words of the fallback's second test, which answers English like
      the default does. */
  const EnglishHints: seq<string> := ["the", "and", "is", "you", "thanks"]

  /** The loaded `users` and `history` maps and `st.session_state.user`. */
  datatype State = State(users: Users, history: HistoryMap, user: Option<string>)

  datatype Step<O> = Step(state: State, outcome: O)

  datatype LoginOutcome = Welcome | InvalidCredentials

  datatype TranslateOutcome =
    | LoginScreen        // `if not st.session_state.user`: the page stops before the translator
    | NoText             // "No text to translate."
    | CodesNotFound      // a language code is missing or empty
    | TranslationFailed  // the translation call raised
    | Translated(output: string)

  /** The dashboard shows only when the session user is truthy: a user
      logged in under the empty name still sees the login screen. */
  predicate LoggedIn(s: State) {
    s.user.Some? && s.user.value != ""
  }

  /** The Login button: the session user is set exactly when the pair
      matches a stored account; otherwise nothing changes. */
  function Login(s: State, username: string, password: string): (r: Step<LoginOutcome>)
    ensures r.outcome == Welcome <==> Matches(s.users, username, password)
    ensures r.outcome == Welcome ==> r.state.user == Some(username)
    ensures r.state.users == s.users && r.state.history == s.history
    ensures r.outcome == InvalidCredentials ==> r.state == s
  {
    if username in s.users && s.users[username] == password then
      Step(s.(user := Some(username)), Welcome)
    else
      Step(s, InvalidCredentials)
  }

  /** The Create account button: blank input is refused first, then an
      existing name; otherwise the account is added and its owner logged
      in. A refusal changes nothing, so an existing password is never
      overwritten. */
  function Signup(s: State, username: string, password: string): (r: Step<SignupOutcome>)
    ensures Blank(username) || Blank(password) ==> r == Step(s, InvalidInput)
    ensures !Blank(username) && !Blank(password) && username in s.users ==> r == Step(s, DuplicateUser)
    ensures r.outcome == SignedUp <==> !Blank(username) && !Blank(password) && username !in s.users
    ensures r.outcome == SignedUp ==>
      && AddedOnly(s.users, r.state.users, username, password)
      && r.state.user == Some(username)
      && r.state.history == s.history
  {
    if BlankField(username, password) then Step(s, InvalidInput)
    else if username in s.users then Step(s, DuplicateUser)
    else Step(s.(users := s.users[username := password], user := Some(username)), SignedUp)
  }

  /** A successful signup leaves the new user on the dashboard, and the
      same pair logs in afterwards. */
  lemma SignupThenLogin(s: State, username: string, password: string)
    requires Signup(s, username, password).outcome == SignedUp
    ensures LoggedIn(Signup(s, username, password).state)
    ensures Login(Signup(s, username, password).state, username, password).outcome == Welcome
  {
  }

  /** The sidebar Logout button. */
  function Logout(s: State): (r: State)
    ensures !LoggedIn(r) && r.user.None?
    ensures r.users == s.users && r.history == s.history
  {
    s.(user := None)
  }

  /** The heuristic branch of `detect_language_of_text`: Roman Urdu when a
      hint word occurs anywhere in the lower-cased text, English in every
      other case (the English word test answers the same as the default). */
  function FallbackGuess(text: string): (code: string)
    ensures code == "ur" <==> exists k, i :: 0 <= k < |UrduHints| && OccursAt(Lower(text), UrduHints[k], i)
    ensures code != "ur" ==> code == "en"
  {
    var low := Lower(text);
    ContainsAnyIff(low, UrduHints);
    if ContainsAny(low, UrduHints) then "ur"
    else if ContainsAny(low, EnglishHints) then "en"
    else "en"
  }

  /** `detect_language_of_text`: the language detector's answer when it
      gives one (`detected`), the heuristic guess when it raises. */
  function DetectLanguage(text: string, detected: Option<string>): (code: string)
    ensures detected.Some? ==> code == detected.value
    ensures detected.None? ==> code == FallbackGuess(text)
  {
    match detected
    case Some(c) => c
    case None => FallbackGuess(text)
  }

  /** The source code the translator is called with: the guess under
      "Auto-detect", otherwise `LANGUAGES.get(source_sel)`. */
  function SourceCode(text: string, sourceSel: string, languages: map<string, string>,
                      detected: Option<string>): (r: Option<string>)
    ensures sourceSel == AutoDetect ==> r == Some(DetectLanguage(text, detected))
    ensures sourceSel != AutoDetect ==> (r.Some? <==> sourceSel in languages)
    ensures sourceSel != AutoDetect && r.Some? ==> r.value == languages[sourceSel]
  {
    if sourceSel == AutoDetect then Some(DetectLanguage(text, detected))
    else Tables.Get(languages, sourceSel)
  }

  /** Python truthiness of a looked-up code: present and non-empty. */
  predicate Truthy(code: Option<string>) {
    code.Some? && code.value != ""
  }

  /** The Translate button with the text to translate already in hand. On
      success exactly one entry is added at the end of the user's history:
      the selected source name, or the guessed code under "Auto-detect",
      the target name, the input and the output. Every failure leaves the
      state as it was. Accounts and the session are never touched. */
  function Translate(s: State, text: string, sourceSel: string, targetSel: string,
                     languages: map<string, string>, detected: Option<string>,
                     translate: Translator, now: string): (r: Step<TranslateOutcome>)
    ensures r.state.users == s.users && r.state.user == s.user
    ensures !LoggedIn(s) ==> r == Step(s, LoginScreen)
    ensures LoggedIn(s) && Blank(text) ==> r == Step(s, NoText)
    ensures !r.outcome.Translated? ==> r.state == s
    ensures r.outcome.Translated? ==>
      var user := s.user.value;
      var src := SourceCode(text, sourceSel, languages, detected);
      var tgt := Tables.Get(languages, targetSel);
      && LoggedIn(s) && !Blank(text) && Truthy(src) && Truthy(tgt)
      && translate(text, src.value, tgt.value) == Some(r.outcome.output)
      && AppendedOne(s.history, r.state.history, user,
           Entry(now, if sourceSel == AutoDetect then src.value else sourceSel,
                 targetSel, text, r.outcome.output))
  {
    if !(s.user.Some? && s.user.value != "") then Step(s, LoginScreen)
    else if text == [] || StripsToEmpty(text) then Step(s, NoText)
    else
      var src := SourceCode(text, sourceSel, languages, detected);
      var tgt := Tables.Get(languages, targetSel);
      if !Truthy(src) || !Truthy(tgt) then Step(s, CodesNotFound)
      else
        match translate(text, src.value, tgt.value)
        case None => Step(s, TranslationFailed)
        case Some(out) =>
          var from := if sourceSel != AutoDetect then sourceSel else src.value;
          var e := Entry(now, from, targetSel, text, out);
          Step(s.(history := Append(s.history, s.user.value, e)), Translated(out))
  }

  /** A translation of a non-blank text by a logged-in user, with both codes
      resolved and the service answering, is always saved. */
  lemma TranslateSucceeds(s: State, text: string, sourceSel: string, targetSel: string,
                          languages: map<string, string>, detected: Option<string>,
                          translate: Translator, now: string)
    requires LoggedIn(s) && !Blank(text)
    requires Truthy(SourceCode(text, sourceSel, languages, detected))
    requires Truthy(Tables.Get(languages, targetSel))
    requires translate(text, SourceCode(text, sourceSel, languages, detected).value,
                       Tables.Get(languages, targetSel).value).Some?
    ensures Translate(s, text, sourceSel, targetSel, languages, detected, translate, now).outcome.Translated?
  {
  }

  /** The history panel: the 50 newest entries of the session user, newest
      first; empty for a user with no saved history. */
  function RecentHistory(s: State): (r: seq<Entry>)
    ensures s.user.Some? ==> |r| == Min(HistoryLimit, |Log(s.history, s.user.value)|)
    ensures s.user.Some? ==> forall i :: 0 <= i < |r| ==>
      r[i] == Log(s.history, s.user.value)[|Log(s.history, s.user.value)| - 1 - i]
    ensures s.user.None? || s.user.value !in s.history ==> r == []
  {
    match s.user
    case None => []
    case Some(u) => View(s.history, u, HistoryLimit)
  }

  /** A successful translation shows up at the top of the panel. */
  lemma TranslationShownFirst(s: State, text: string, sourceSel: string, targetSel: string,
                              languages: map<string, string>, detected: Option<string>,
                              translate: Translator, now: string)
    requires Translate(s, text, sourceSel, targetSel, languages, detected, translate, now).outcome.Translated?
    ensures var r := Translate(s, text, sourceSel, targetSel, languages, detected, translate, now);
      && RecentHistory(r.state) != []
      && RecentHistory(r.state)[0].input == text
      && RecentHistory(r.state)[0].output == r.outcome.output
  {
  }
}
