/** The flat `Translator_History.txt` log two of the scripts append to. The
    file is only ever opened in append mode, so the log is a string that
    grows at its end; reading it back as lines is how a person reads it. */
module TextLog {

  predicate NoNewline(s: string) {
    forall i :: 0 <= i < |s| ==> s[i] != '\n'
  }

  /** Every line of the log is complete: it is empty or ends in a newline. */
  predicate Terminated(s: string) {
    s == [] || s[|s| - 1] == '\n'
  }

  /** Index of the first newline, or `|s|` when there is none. */
  function FirstNewline(s: string): (i: nat)
    ensures i <= |s|
    ensures i < |s| ==> s[i] == '\n'
    ensures NoNewline(s[..i])
    decreases |s|
  {
    if s == [] then 0
    else if s[0] == '\n' then 0
    else
      var j := FirstNewline(s[1..]);
      assert s[..j + 1] == [s[0]] + s[1..][..j];
      j + 1
  }

  /** The lines of `s`, without their newlines; an unterminated tail counts
      as a last line. */
  function Lines(s: string): seq<string>
    decreases |s|
  {
    if s == [] then []
    else
      var i := FirstNewline(s);
      if i == |s| then [s] else [s[..i]] + Lines(s[i + 1..])
  }

  /** A newline-free line followed by its newline is read back as that line. */
  lemma LinesCons(line: string, rest: string)
    requires NoNewline(line)
    ensures Lines(line + "\n" + rest) == [line] + Lines(rest)
  {
    var s := line + "\n" + rest;
    var i := FirstNewline(s);
    assert forall j :: 0 <= j < |line| ==> s[j] == line[j];
    assert forall j :: 0 <= j < i ==> s[..i][j] == s[j];
    assert s[|line|] == '\n';
    assert i == |line|;
    assert s[..i] == line;
    assert s[i + 1..] == rest;
  }

  /** Appending to a log whose lines are complete adds lines and keeps the
      old ones. */
  lemma {:induction false} LinesAppend(s: string, t: string)
    requires Terminated(s)
    ensures Lines(s + t) == Lines(s) + Lines(t)
    decreases |s|
  {
    if s == [] {
      assert s + t == t;
    } else {
      var i := FirstNewline(s);
      assert i < |s| by {
        assert forall j :: 0 <= j < i ==> s[..i][j] == s[j];
      }
      var rest := s[i + 1..];
      FirstNewlineAppend(s, t);
      assert (s + t)[..i] == s[..i];
      assert (s + t)[i + 1..] == rest + t;
      LinesAppend(rest, t);
      var a, b := Lines(rest), Lines(t);
      assert [s[..i]] + (a + b) == [s[..i]] + a + b;
    }
  }

  /** Text after a complete first line does not move that line's newline. */
  lemma FirstNewlineAppend(s: string, t: string)
    requires FirstNewline(s) < |s|
    ensures FirstNewline(s + t) == FirstNewline(s)
  {
    var i := FirstNewline(s);
    assert (s + t)[i] == '\n' && NoNewline(s[..i]);
  }

  /** The text of newline-terminated lines: each line followed by `\n`. */
  function Unlines(ls: seq<string>): (s: string)
    ensures Terminated(s)
  {
    if ls == [] then [] else ls[0] + "\n" + Unlines(ls[1..])
  }

  /** Newline-free lines written out one per line are read back unchanged. */
  lemma {:induction false} LinesUnlines(ls: seq<string>)
    requires forall k :: 0 <= k < |ls| ==> NoNewline(ls[k])
    ensures Lines(Unlines(ls)) == ls
  {
    if ls != [] {
      LinesCons(ls[0], Unlines(ls[1..]));
      LinesUnlines(ls[1..]);
    }
  }
}
