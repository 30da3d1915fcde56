/** The "AI Translator + Voice" script (`translator_app_mobile.py`): no
    accounts, a target picked from "name (code)" strings, a forward and a
    reverse (back to English) translation, and a plain-text history log. */
module TranslatorAppMobile {
  import opened Wrappers
  import opened Text
  import opened TextLog
  import opened Translation
  import Tables

  /** Width of the dashed line closing each log record. */
  const RuleWidth: nat := 40

  datatype Step = Step(log: string, outcome: Outcome)

  datatype Outcome =
    | NoText             // "Please enter text to translate."
    | TranslationFailed  // a lookup or a translation call raised
    | Translated(output: string)

  /** The string shown in the language picker for a `(code, name)` pair. */
  function Display(code: string, name: string): string {
    name + " (" + code + ")"
  }

  function DisplayOf(item: LanguageItem): string {
    Display(item.0, item.1)
  }

  /** `display_to_code`: picker string to language code. */
  function DisplayToCode(items: seq<LanguageItem>): map<string, string> {
    Tables.Tabulate(items, DisplayOf, CodeOf)
  }

  /** `display_to_name`: picker string to readable name. */
  function DisplayToName(items: seq<LanguageItem>): map<string, string> {
    Tables.Tabulate(items, DisplayOf, NameOf)
  }

  predicate NoOpenParen(s: string) {
    forall i :: 0 <= i < |s| ==> s[i] != '('
  }

  /** For codes without an opening parenthesis the picker string determines
      the pair: the code is what follows the last " (". */
  lemma DisplayInjective(c1: string, n1: string, c2: string, n2: string)
    requires NoOpenParen(c1) && NoOpenParen(c2)
    requires Display(c1, n1) == Display(c2, n2)
    ensures c1 == c2 && n1 == n2
  {
    var d := Display(c1, n1);
    assert d[|n1| + 1] == '(' && d[|n2| + 1] == '(';
    assert forall i :: 0 <= i < |c1| ==> d[|n1| + 2 + i] == c1[i];
    assert forall i :: 0 <= i < |c2| ==> d[|n2| + 2 + i] == c2[i];
    assert |n1| == |n2|;
    assert n1 == d[..|n1|] == n2;
    assert c1 == d[|n1| + 2..|d| - 1] == c2;
  }

  /** Codes are distinct and free of "(", as assumed of the library's dict. */
  ghost predicate WellFormedCodes(items: seq<LanguageItem>) {
    && (forall i :: 0 <= i < |items| ==> NoOpenParen(items[i].0))
    && (forall i, j :: 0 <= i < j < |items| ==> items[i].0 != items[j].0)
  }

  /** For every listed pair, its picker string maps back to that code and
      that name. */
  lemma DisplayRoundTrip(items: seq<LanguageItem>, i: nat)
    requires WellFormedCodes(items) && i < |items|
    ensures Display(items[i].0, items[i].1) in DisplayToCode(items)
    ensures Display(items[i].0, items[i].1) in DisplayToName(items)
    ensures DisplayToCode(items)[Display(items[i].0, items[i].1)] == items[i].0
    ensures DisplayToName(items)[Display(items[i].0, items[i].1)] == items[i].1
  {
    forall j | i < j < |items|
      ensures DisplayOf(items[j]) != DisplayOf(items[i])
    {
      if DisplayOf(items[j]) == DisplayOf(items[i]) {
        DisplayInjective(items[j].0, items[j].1, items[i].0, items[i].1);
      }
    }
    assert Tables.LastWithKey(items, DisplayOf, i);
    Tables.TabulateLastWins(items, DisplayOf, CodeOf);
    Tables.TabulateLastWins(items, DisplayOf, NameOf);
  }

  /** `append_history`: the time, the source with its language, the result
      with its language, and a dashed rule, each ended by a newline. */
  function Record(time: string, srcText: string, srcLang: string, targetLang: string, result: string): string {
    Unlines(["[" + time + "]", "Source (" + srcLang + "): " + srcText,
             "Translated (" + targetLang + "): " + result, Repeat('-', RuleWidth)])
  }

  /** With newline-free fields a record reads back as exactly four lines. */
  lemma RecordLines(time: string, srcText: string, srcLang: string, targetLang: string, result: string)
    requires NoNewline(time) && NoNewline(srcText) && NoNewline(srcLang)
    requires NoNewline(targetLang) && NoNewline(result)
    ensures var ls := Lines(Record(time, srcText, srcLang, targetLang, result));
      && |ls| == 4
      && ls[0] == "[" + time + "]"
      && ls[1] == "Source (" + srcLang + "): " + srcText
      && ls[2] == "Translated (" + targetLang + "): " + result
      && |ls[3]| == RuleWidth && (forall i :: 0 <= i < RuleWidth ==> ls[3][i] == '-')
  {
    var ls := ["[" + time + "]", "Source (" + srcLang + "): " + srcText,
               "Translated (" + targetLang + "): " + result, Repeat('-', RuleWidth)];
    assert NoNewline(ls[0]) && NoNewline(ls[1]) && NoNewline(ls[2]) && NoNewline(ls[3]);
    LinesUnlines(ls);
  }

  /** The log file is opened for appending: the old content stays as a
      prefix and the record follows it; read as lines, the record's lines
      follow the old ones. */
  function AppendHistory(log: string, record: string): (r: string)
    ensures log <= r && r[|log|..] == record
    ensures Terminated(log) ==> Lines(r) == Lines(log) + Lines(record)
  {
    LinesAppendIfTerminated(log, record);
    log + record
  }

  lemma LinesAppendIfTerminated(log: string, record: string)
    ensures Terminated(log) ==> Lines(log + record) == Lines(log) + Lines(record)
  {
    if Terminated(log) { LinesAppend(log, record); }
  }

  /** The Translate button: for non-blank text, translate from automatic
      detection into the picked language and, only once that returns, log
      the original text as "Auto-detected" with the target's readable name. */
  function Forward(log: string, text: string, picked: string, items: seq<LanguageItem>,
                   translate: Translator, now: string): (r: Step)
    ensures log <= r.log
    ensures Blank(text) ==> r == Step(log, NoText)
    ensures !r.outcome.Translated? ==> r.log == log
    ensures r.outcome.Translated? ==>
      && !Blank(text)
      && picked in DisplayToCode(items) && picked in DisplayToName(items)
      && translate(text, "auto", DisplayToCode(items)[picked]) == Some(r.outcome.output)
      && r.log[|log|..] == Record(now, text, "Auto-detected", DisplayToName(items)[picked], r.outcome.output)
  {
    if text == [] || StripsToEmpty(text) then Step(log, NoText)
    else
      match (Tables.Get(DisplayToCode(items), picked), Tables.Get(DisplayToName(items), picked))
      case (Some(code), Some(name)) =>
        (match translate(text, "auto", code)
         case None => Step(log, TranslationFailed)
         case Some(out) => Step(AppendHistory(log, Record(now, text, "Auto-detected", name, out)), Translated(out)))
      case _ => Step(log, TranslationFailed)
  }

  /** The Reverse translate button: for non-blank text, translate into the
      picked language and that result back into English; only once both
      return, log the intermediate text with the target's name as source
      and "English" as target. */
  function Reverse(log: string, text: string, picked: string, items: seq<LanguageItem>,
                   translate: Translator, now: string): (r: Step)
    ensures log <= r.log
    ensures Blank(text) ==> r == Step(log, NoText)
    ensures !r.outcome.Translated? ==> r.log == log
    ensures r.outcome.Translated? ==>
      !Blank(text) && picked in DisplayToCode(items) && picked in DisplayToName(items)
    ensures r.outcome.Translated? && picked in DisplayToCode(items) && picked in DisplayToName(items) ==>
      var code := DisplayToCode(items)[picked];
      && translate(text, "auto", code).Some?
      && translate(translate(text, "auto", code).value, code, "en") == Some(r.outcome.output)
      && r.log[|log|..] == Record(now, translate(text, "auto", code).value,
                                  DisplayToName(items)[picked], "English", r.outcome.output)
  {
    if text == [] || StripsToEmpty(text) then Step(log, NoText)
    else
      match (Tables.Get(DisplayToCode(items), picked), Tables.Get(DisplayToName(items), picked))
      case (Some(code), Some(name)) =>
        (match translate(text, "auto", code)
         case None => Step(log, TranslationFailed)
         case Some(temp) =>
           (match translate(temp, code, "en")
            case None => Step(log, TranslationFailed)
            case Some(back) =>
              Step(AppendHistory(log, Record(now, temp, name, "English", back)), Translated(back))))
      case _ => Step(log, TranslationFailed)
  }

  /** A picker string taken from the list always resolves, so with a
      non-blank text and a translation that returns, the forward button
      always logs a record naming the picked pair. */
  lemma ForwardLogs(log: string, text: string, items: seq<LanguageItem>, i: nat,
                    translate: Translator, now: string)
    requires WellFormedCodes(items) && i < |items| && !Blank(text)
    requires translate(text, "auto", items[i].0).Some?
    ensures var r := Forward(log, text, Display(items[i].0, items[i].1), items, translate, now);
      && r.outcome == Translated(translate(text, "auto", items[i].0).value)
      && r.log == log + Record(now, text, "Auto-detected", items[i].1, r.outcome.output)
  {
    DisplayRoundTrip(items, i);
    var picked := Display(items[i].0, items[i].1);
    assert Tables.Get(DisplayToCode(items), picked) == Some(items[i].0);
    assert Tables.Get(DisplayToName(items), picked) == Some(items[i].1);
  }

  /** Likewise for the reverse button: a picker string taken from the list
      always resolves, so when both calls return, the intermediate text is
      logged with the picked name as its language and the English result. */
  lemma ReverseLogs(log: string, text: string, items: seq<LanguageItem>, i: nat,
                    translate: Translator, now: string)
    requires WellFormedCodes(items) && i < |items| && !Blank(text)
    requires translate(text, "auto", items[i].0).Some?
    requires translate(translate(text, "auto", items[i].0).value, items[i].0, "en").Some?
    ensures var temp := translate(text, "auto", items[i].0).value;
      var r := Reverse(log, text, Display(items[i].0, items[i].1), items, translate, now);
      && r.outcome == Translated(translate(temp, items[i].0, "en").value)
      && r.log == log + Record(now, temp, items[i].1, "English", r.outcome.output)
  {
    DisplayRoundTrip(items, i);
    var picked := Display(items[i].0, items[i].1);
    assert Tables.Get(DisplayToCode(items), picked) == Some(items[i].0);
    assert Tables.Get(DisplayToName(items), picked) == Some(items[i].1);
  }
}
