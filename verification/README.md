# AI Translator: accounts, sessions and translation history in Dafny

The AI Translator repository is a set of single-file Streamlit scripts. Each
one lets a user log in, translate text through an online translation
service, hear the result and keep a history of translations. What can be
stated and proved is the thin layer around the network calls:

- the account map (`users.json`: username to password, stored and compared
  as typed);
- the session (`st.session_state`: who is logged in);
- the per-user JSON history (`history.json`) or the append-only text log
  (`Translator_History.txt`);
- the small pure helpers those scripts rely on: Python's `strip` and
  `lower`, the Roman-Urdu keyword tests, the record formatters and the
  language lookup tables.

Four scripts are modelled, each in its own module. Their rules are kept
apart because they differ:

- `AiTranslatorApp` (`ai_translator_app.py`): separate login and signup.
  Signup refuses blank input before it looks for an existing name. The
  source language can be guessed. The history panel shows the 50 newest
  entries.
- `MainApp` (`main.py`): guest access, and a login that creates the
  account when the pair does not match. An empty field is judged by Python
  truthiness, so whitespace passes. There is an optional Roman-Urdu source
  choice, and the history panel shows the 10 newest entries.
- `TranslatorProject` (`translator_project.py`): a login page that can
  switch to a signup page. Signup refuses an existing name before blank
  input. The target language is looked up by its lower-cased name, and a
  record is appended to the text log.
- `TranslatorAppMobile` (`translator_app_mobile.py`): no accounts. The
  target is picked from "name (code)" strings, and both the forward and the
  reverse (back to English) translation append text-log records.

Shared modules:

- `Text`: whitespace as Python's `str.isspace`, `strip`, `lower`, the
  substring test `w in s`, `any` over words, and `c * n`.
- `TextLog`: reading the text log back as lines.
- `Tables`: dict comprehensions, where the last item wins on a repeated key.
- `Accounts`: the user map and the shared login test.
- `History`: entries, appending, and Python's `reversed(log[-k:])`.
- `Wrappers` and `Translation`: `Option`, and the translation service as a
  function parameter.
- `Variants`: how the scripts' account rules relate to each other.

Each operation is a pure function from one explicit state to the next
state, paired with an outcome that names the message the page shows. The
translation service is a parameter `(text, source, target) -> Option<string>`,
where `None` stands for a call that raised. The current time is a string
parameter. The `langdetect` answer is an `Option<string>` parameter.

What the scripts do not do, and the model therefore does not either:

- Passwords are stored and compared in plaintext, not hashed.
- The signup forms say whether a name is already taken
  (`ai_translator_app.py` line 250, `translator_project.py` line 58).
- Stored history is never truncated. Only the panel is limited, to 50 or
  10 entries.
- There is no account deletion, history clearing or administrator role in
  these scripts.
- `MainApp.Login` never refuses a non-empty pair: a pair that does not
  match creates the account, or overwrites it when the name exists.

## Model

| member | source | states |
|---|---|---|
| `AiTranslatorApp.Login` | ai_translator_app.py:236-242 | the session user becomes the typed name exactly when the name is stored with exactly that password; otherwise nothing changes |
| `AiTranslatorApp.Signup` | ai_translator_app.py:246-256 | blank or whitespace-only name or password is refused first, then an existing name whatever the password; a refusal changes nothing; success adds exactly name→password, keeps every other account and logs the new user in |
| `AiTranslatorApp.SignupThenLogin` | ai_translator_app.py:237-254 | after a successful signup the dashboard shows, and logging in with the same pair succeeds |
| `AiTranslatorApp.Logout` | ai_translator_app.py:264-266 | the session user becomes `None`, so no one is logged in; accounts and history are kept |
| `AiTranslatorApp.FallbackGuess` | ai_translator_app.py:134-140 | "ur" exactly when one of the seven hint words occurs somewhere in the lower-cased text, "en" in every other case |
| `AiTranslatorApp.DetectLanguage` | ai_translator_app.py:127-140 | the detector's answer when it gives one, otherwise exactly the heuristic guess `FallbackGuess(text)` |
| `AiTranslatorApp.SourceCode` | ai_translator_app.py:331-334 | under "Auto-detect" the detected (or guessed) code; otherwise the code listed for the selected name, and nothing when the name is not listed |
| `AiTranslatorApp.Translate` | ai_translator_app.py:327-374 | blank text changes nothing; missing or empty codes and failed translations change nothing; on success exactly one entry (time, selected source name or guessed code under Auto-detect, target name, input, output) is appended at the end of the user's list, created if absent, and no other user's list, no account and no session field changes |
| `AiTranslatorApp.TranslateSucceeds` | ai_translator_app.py:336-370 | with a logged-in user, non-blank text, both codes resolved and the service answering, the translation is saved |
| `AiTranslatorApp.RecentHistory` | ai_translator_app.py:377-384 | the panel lists min(50, n) entries, the i-th being the i-th newest; a user with no key gets an empty panel |
| `AiTranslatorApp.TranslationShownFirst` | ai_translator_app.py:361-384 | after a successful translation the panel's first entry holds that input and output |
| `MainApp.Init` | main.py:125-128 | the session starts logged out with no user, over exactly the loaded accounts and history, which is a consistent session |
| `MainApp.Guest` | main.py:138-141 | logs in as "Guest" without touching accounts or history |
| `MainApp.Login` | main.py:148-163 | a matching pair logs in with no account change; any other non-empty pair is stored (created or overwriting) and logs in; an empty name or password is refused with no change; whitespace counts as non-empty |
| `MainApp.LoginThenLogin` | main.py:149-161 | after a login with a non-empty pair, that pair always matches and logging in again is a plain welcome with no account change |
| `MainApp.WrongPasswordTakesOverAccount` | main.py:154-161 | an existing name with a different non-empty password is re-registered with the new password and logged in |
| `MainApp.WrongPasswordExample` | main.py:154-161 | concretely: alice/pw123 stored, login alice/wrong leaves alice logged in with password "wrong" |
| `MainApp.LoginIntended` | main.py:148-163 | corrected login: never changes an existing account, creates only new names, refuses a known name with a wrong password |
| `MainApp.LoginIntendedAgrees` | main.py:148-163 | the written and corrected logins agree exactly except on a known name with a wrong non-empty password |
| `MainApp.Logout` | main.py:356-359 | logged out with no user; accounts and history kept |
| `MainApp.RomanUrduSource` | main.py:215-222 | ("ur", "Roman Urdu") exactly when one of the ten words occurs in the lower-cased text, ("auto", "Auto-Detected") otherwise |
| `MainApp.Source` | main.py:208-222 | with auto-detection on, source "auto" shown as "Auto-Detected"; otherwise the Roman-Urdu keyword test above picks the source and its label |
| `MainApp.Translate` | main.py:204-306 | outside a session the login screen is shown; blank text does nothing; every failure (the 100-character probe under auto-detection, the target lookup, the translation) leaves the state unchanged; only a logged-in, non-blank request with a known target can succeed; the account table and the session never change, so a consistent session stays consistent |
| `MainApp.TranslateSaves` | main.py:208-294 | a success means the probe passed when auto-detection is on and the real call, from the chosen source code, returned the shown output; exactly one entry (time, source label, target name, input, output) is appended to the user's list and every other user's list is unchanged |
| `MainApp.TranslateSucceeds` | main.py:204-294 | a logged-in, non-blank request with a known target, whose probe answers under auto-detection and whose real call from the chosen source answers, is translated with that call's output |
| `MainApp.Prefix` | main.py:210 | `text[:n]`: a prefix of the text of length min(n, len(text)) |
| `Text.StripsToEmpty` | main.py:204 | `s.strip()` is empty exactly when every character of `s` is Python whitespace |
| `Accounts.BlankField` | translator_project.py:59 | a sign-up form is rejected as blank exactly when the username or the password is all whitespace |
| `MainApp.RecentHistory` | main.py:314-318 | the panel lists min(10, n) entries newest first; nothing for a user with no key or an empty list |
| `MainApp.GuestSharesHistory` | main.py:285-287 | a guest session and an account named "Guest" show the same history |
| `TranslatorProject.Login` | translator_project.py:76-83 | logged in as the typed name exactly when the pair matches; otherwise nothing changes |
| `TranslatorProject.RequestSignup` | translator_project.py:85-87 | switches to the signup page and changes nothing else |
| `TranslatorProject.Signup` | translator_project.py:56-67 | an existing name is refused before any blank check; then blank name or password is refused; refusals change nothing; success adds exactly name→password and logs in as that name, leaving the signup-page flag and the log as they were |
| `TranslatorProject.SignupThenLogin` | translator_project.py:61-77 | after a successful signup the same pair logs in |
| `TranslatorProject.Logout` | translator_project.py:150-153 | logged out with an empty username; accounts and log kept |
| `TranslatorProject.NameResolvesAnyCase` | translator_project.py:101-115 | a picked name resolves when its lower-case form is that of a listed name, whatever its case, to the code of the last item listing that name |
| `TranslatorProject.RecordLines` | translator_project.py:120-124 | for fields without newlines, a record reads back as exactly four lines: "[time] (user)", "Source: text", "Translated (lang): translation", 50 dashes |
| `TranslatorProject.Translate` | translator_project.py:115-145 | the old log is always a prefix of the new one; a record is added only for non-blank text, only once the translation returned, and it is the record of that text, target name and output |
| `TranslatorProject.TranslateSucceeds` | translator_project.py:115-133 | a logged-in user with non-blank text, a target whose lower-cased name is listed and an answering call always gets exactly that record appended and the call's output shown |
| `TranslatorProject.TranslateLogLines` | translator_project.py:120-133 | after a translation of any text, multi-line included, a log whose last line was complete reads back as its old lines followed by the record's lines |
| `TranslatorAppMobile.DisplayInjective` | translator_app_mobile.py:17-20 | for codes without "(", equal picker strings come from equal (code, name) pairs |
| `TranslatorAppMobile.DisplayRoundTrip` | translator_app_mobile.py:17-20 | for distinct codes without "(", each pair's "name (code)" maps back to that code and that name |
| `TranslatorAppMobile.RecordLines` | translator_app_mobile.py:33-39 | for fields without newlines, a record reads back as exactly four lines: "[time]", "Source (lang): text", "Translated (lang): result", 40 dashes |
| `TranslatorAppMobile.AppendHistory` | translator_app_mobile.py:40-41 | the old log is a prefix and the record follows it; when the old log's last line is complete, read as lines, the record's lines follow the old ones |
| `TranslatorAppMobile.Forward` | translator_app_mobile.py:70-81 | blank text logs nothing; only after the translation returns is a record logged, with the original text, "Auto-detected" and the target's readable name |
| `TranslatorAppMobile.Reverse` | translator_app_mobile.py:99-110 | blank text logs nothing; only after both translations return is a record logged, with the intermediate text, the target's name as source and "English" as target |
| `TranslatorAppMobile.ReverseLogs` | translator_app_mobile.py:99-110 | a picker string from the list always resolves, so a non-blank text whose two translations both return is always logged: the intermediate text, the picked pair's name as source, "English" and the English result |
| `TranslatorAppMobile.ForwardLogs` | translator_app_mobile.py:62-81 | a picker string from the list always resolves, so a non-blank text whose translation returns is always logged under the picked pair's name |
| `History.Append` | ai_translator_app.py:361-370 | exactly one entry is added at the end of the user's list, which is created when absent; every other user's list is unchanged |
| `History.View` | ai_translator_app.py:379-384 | `reversed(log[-k:])`: for k > 0, min(k, n) entries with the i-th being the i-th newest; empty for a user with no key |
| `History.ViewAfterAppend` | ai_translator_app.py:361-384 | after one save, the panel with room for one more entry is the new entry followed by the panel as it was before the save |
| `History.ViewOtherUser` | main.py:285-295 | saving for one user never changes another user's panel |
| `History.AppendAllLog` | main.py:284-296 | after a run of saves a user's list has grown by exactly those entries in order, and nobody else's changed |
| `History.Newest` | ai_translator_app.py:384 | `log[-k:]`: for k > 0 the last min(k, n) entries; for k == 0 the whole list; always a suffix |
| `History.ViewAfterAppendAll` | main.py:314-318 | n saves, whatever the user saved before, listed with limit n, come back in reverse order of saving |
| `History.ViewRetention` | ai_translator_app.py:383-384 | after at least k saves, whatever the user saved before, the panel with limit k shows exactly the last k saved, newest first |
| `History.Reverse` | ai_translator_app.py:384 | `reversed`: same length, the i-th element is the i-th from the end |
| `Text.Strip` | translator_project.py:59 | `strip()` is empty exactly when every character is whitespace; otherwise it neither starts nor ends with whitespace |
| `Text.StripIsSlice` | translator_project.py:59 | `strip()` is the slice of the input between a blank head and a blank tail, so with `Strip`'s non-whitespace ends it is exactly the text from the first to the last non-whitespace character |
| `Text.ContainsIff` | ai_translator_app.py:136 | the substring scan succeeds exactly when the word occurs at some index |
| `Text.ContainsAnyIff` | main.py:217 | `any(w in s ...)` succeeds exactly when some listed word occurs at some index |
| `Text.Lower` | ai_translator_app.py:135 | same length; each ASCII capital becomes its small letter (code point + 32); every other character is kept |
| `Text.Repeat` | translator_app_mobile.py:38 | `"-" * n` is n copies of the character |
| `TextLog.LinesAppend` | translator_app_mobile.py:40-41 | appending to a log whose last line is complete keeps its lines and adds the new ones after them |
| `TextLog.LinesUnlines` | translator_project.py:122-124 | newline-free lines written one per line read back unchanged |
| `Tables.TabulateHasKeys` | translator_project.py:101 | the dict comprehension holds a key for every item |
| `Tables.TabulateOnlyKeys` | translator_project.py:101 | every key of the dict comprehension is the key of some item |
| `Tables.TabulateLastWins` | translator_project.py:101 | when several items share a key, the dict keeps the value of the last of them |
| `Variants.SignupCheckOrder` | translator_project.py:57-60 | the two signup forms accept the same requests and leave the same accounts; their warnings differ exactly when an existing name comes with a blank name or password |
| `Variants.LoginAgreement` | main.py:149 | all three login forms accept exactly the same pairs |

## Left out

- Streamlit rendering: widgets, columns, balloons and reruns are not modelled. `st.stop` is modelled as the `LoginScreen` outcome, which leaves the state unchanged.
- Network and library calls are not modelled: the translation service, the language-list service, gTTS, pyttsx3, Whisper, SpeechRecognition, pydub, the recorder widget and langdetect. Translation is a function parameter that may return `None`. Detection is an `Option` parameter. Speech output never affects the state in any script, since every speech failure is caught.
- Voice input in `ai_translator_app.py` (146-193, 312-325) is not modelled. `Translate` takes the text as it stands after transcription.
- File and JSON I/O (`load_json`, `save_json`, `save_users`, temporary audio files) is not modelled. The maps and the text log are in-memory values, and write failures are not represented. In `main.py` (lines 102-109) a missing or unreadable file reads as an empty map, which is just the empty map as the initial value; the other scripts raise at start-up on a corrupt file, which is not represented.
- The clock is not modelled: `datetime.now()` is the `now` parameter.
- The large `LANGUAGES` literals, including `main.py`'s repeated keys, are abstract `map<string, string>` parameters. The library's `(code, name)` lists are abstract sequences of pairs. The model follows each comprehension as written and reads the library's dictionary as code to name, as both scripts that use it do (`translator_app_mobile.py` line 14 says so). The library itself is not part of this model; were its dictionary name to code, the lookup at `translator_project.py` line 115 would fail for every pick, and `NameResolvesAnyCase` would not apply.
- Text.Lower: maps only the ASCII capitals A–Z. Python's `str.lower` also folds other scripts, and some characters fold onto ASCII letters, for example KELVIN SIGN to `k`. The keyword tests are therefore exact only for text whose capitals are ASCII.
- TranslatorAppMobile.Forward, TranslatorAppMobile.Reverse: a picker string missing from the tables ends as `TranslationFailed`, standing for the library rejecting a `None` target. It cannot arise from the picker, whose options are the table's keys (`ForwardLogs`, `ReverseLogs`).
- TranslatorProject.Translate: an unknown name at line 115 ends as `UnknownLanguage`, and a translation call that raises at line 131 ends as `TranslationFailed`. Neither is inside a `try`, so in the script each ends the whole run with a traceback and the logout button further down is not reached either. The state effect is the same: nothing changes.
- MainApp.Translate: requires the session to be consistent (logged in exactly when a user is set). Every transition keeps this (`Init`, `Guest`, `Login`, `Logout`, `Translate`).
- Password hashing, locking and concurrent writers are absent from the scripts and are not invented here.

## Findings

| source | as written | input that shows it | evidently intended | confidence | as-written member | corrected member |
|---|---|---|---|---|---|---|
| main.py:154-161 | a failed login with a non-empty name and password stores the pair even when the name already exists, replacing that account's password and logging the caller in as its owner | users = {alice: pw123}, login alice / wrong: logged in as alice, password now "wrong" | the comment says "Auto create user if not exists": create only unknown names, and refuse a known name with a wrong password | medium, not executed | `MainApp.WrongPasswordTakesOverAccount`, `MainApp.WrongPasswordExample` | `MainApp.LoginIntended` |
