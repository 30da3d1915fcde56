/** String helpers shared by the four scripts: Python's whitespace test and
    `str.strip`, lower-casing, the substring test `w in s` and `c * n`. */
module Text {

  /** Python's `str.isspace` on a single character. */
  predicate IsSpace(c: char) {
    var n := c as int;
    (9 <= n <= 13) || (0x1C <= n <= 0x20) || n == 0x85 || n == 0xA0
    || n == 0x1680 || (0x2000 <= n <= 0x200A) || n == 0x2028 || n == 0x2029
    || n == 0x202F || n == 0x205F || n == 0x3000
  }

  /** Every character is whitespace; the empty string is blank. */
  predicate Blank(s: string) {
    forall i :: 0 <= i < |s| ==> IsSpace(s[i])
  }

  /** Drops leading whitespace: what is dropped is blank, what is kept is a
      suffix that does not start with whitespace. */
  function TrimStart(s: string): (r: string)
    ensures |r| <= |s| && r == s[|s| - |r|..]
    ensures Blank(s[..|s| - |r|])
    ensures r != [] ==> !IsSpace(r[0])
    decreases |s|
  {
    if |s| > 0 && IsSpace(s[0]) then
      var r := TrimStart(s[1..]);
      assert s[..|s| - |r|] == [s[0]] + s[1..][..|s[1..]| - |r|];
      r
    else s
  }

  /** Drops trailing whitespace: what is dropped is blank, what is kept is a
      prefix that does not end with whitespace. */
  function TrimEnd(s: string): (r: string)
    ensures |r| <= |s| && r == s[..|r|]
    ensures Blank(s[|r|..])
    ensures r != [] ==> !IsSpace(r[|r| - 1])
    decreases |s|
  {
    if |s| > 0 && IsSpace(s[|s| - 1]) then
      var r := TrimEnd(s[..|s| - 1]);
      BlankLastKept(s, r);
      r
    else s
  }

  /** Trimming all but a blank last character trims the whole string. */
  lemma BlankLastKept(s: string, r: string)
    requires |s| > 0 && IsSpace(s[|s| - 1])
    requires |r| <= |s| - 1 && r == s[..|s| - 1][..|r|] && Blank(s[..|s| - 1][|r|..])
    ensures r == s[..|r|] && Blank(s[|r|..])
  {
    assert forall i :: |r| <= i < |s| - 1 ==> s[..|s| - 1][|r|..][i - |r|] == s[i];
  }

  /** The index form of "`r` is the slice of `s` at `a`, between a blank
      head and a blank tail". */
  predicate SliceBetweenBlanks(s: string, r: string, a: nat) {
    && a + |r| <= |s|
    && (forall i :: 0 <= i < a ==> IsSpace(s[i]))
    && (forall i :: 0 <= i < |r| ==> r[i] == s[a + i])
    && (forall i :: a + |r| <= i < |s| ==> IsSpace(s[i]))
  }

  /** A prefix `r` of a suffix `t` of `s`, each cut where `TrimEnd` and
      `TrimStart` cut, lies between the blank parts cut off on either side. */
  lemma TrimmedSlice(s: string, t: string, r: string)
    requires |t| <= |s| && t == s[|s| - |t|..] && Blank(s[..|s| - |t|])
    requires |r| <= |t| && r == t[..|r|] && Blank(t[|r|..])
    ensures SliceBetweenBlanks(s, r, |s| - |t|)
    ensures r != [] ==> s[|s| - |t|] == r[0]
  {
    var a := |s| - |t|;
    assert forall i :: 0 <= i < a ==> s[..a][i] == s[i];
    assert forall i :: 0 <= i < |r| ==> r[i] == t[i] == s[a + i];
    assert forall i :: a + |r| <= i < |s| ==> t[|r|..][i - a - |r|] == s[i];
  }

  /** The same cut is empty exactly when `s` is blank, and otherwise starts
      and ends with a non-whitespace character. */
  lemma TrimmedEnds(s: string, t: string, r: string)
    requires |t| <= |s| && t == s[|s| - |t|..] && Blank(s[..|s| - |t|])
    requires t != [] ==> !IsSpace(t[0])
    requires |r| <= |t| && r == t[..|r|] && Blank(t[|r|..])
    requires r != [] ==> !IsSpace(r[|r| - 1])
    ensures r == [] <==> Blank(s)
    ensures r != [] ==> !IsSpace(r[0]) && !IsSpace(r[|r| - 1])
  {
    TrimmedSlice(s, t, r);
    if r != [] {
      assert r[0] == t[0];
    }
  }

  /** Python's `str.strip()`: the result is empty exactly when the input is
      blank, and otherwise neither starts nor ends with whitespace. */
  function Strip(s: string): (r: string)
    ensures |r| <= |s|
    ensures r == [] <==> Blank(s)
    ensures r != [] ==> !IsSpace(r[0]) && !IsSpace(r[|r| - 1])
  {
    var t := TrimStart(s);
    var r := TrimEnd(t);
    TrimmedEnds(s, t, r);
    r
  }

  /** `Strip(s)` is the slice of `s` left once the blank head that
      `TrimStart` drops and a blank tail are cut off. With the
      non-whitespace ends stated by `Strip` this fixes the result: the kept
      slice runs from the first to the last non-whitespace character. */
  lemma StripIsSlice(s: string)
    ensures SliceBetweenBlanks(s, Strip(s), |s| - |TrimStart(s)|)
  {
    var t := TrimStart(s);
    var r := Strip(s);
    assert r == TrimEnd(t);
    TrimmedSlice(s, t, r);
  }

  /** `s.strip() == ""`, the scripts' test for empty input. */
  function StripsToEmpty(s: string): (b: bool)
    ensures b <==> Blank(s)
  {
    Strip(s) == []
  }

  /** `str.lower()` on one character; only the ASCII capitals are mapped. */
  function LowerChar(c: char): char {
    if 'A' <= c <= 'Z' then (c as int + 32) as char else c
  }

  predicate IsUpper(c: char) {
    'A' <= c <= 'Z'
  }

  /** `str.lower()`: same length, no ASCII capital left, and every other
      character kept. */
  function Lower(s: string): (r: string)
    ensures |r| == |s|
    ensures forall i :: 0 <= i < |r| ==> !IsUpper(r[i])
    ensures forall i :: 0 <= i < |s| && !IsUpper(s[i]) ==> r[i] == s[i]
    ensures forall i :: 0 <= i < |s| && IsUpper(s[i]) ==> r[i] as int == s[i] as int + 32
  {
    seq(|s|, i requires 0 <= i < |s| => LowerChar(s[i]))
  }

  /** `w` occurs in `s` starting at index `i`. */
  predicate OccursAt(s: string, w: string, i: int) {
    0 <= i && i + |w| <= |s| && s[i..i + |w|] == w
  }

  /** Python's substring test `w in s`, by scanning start positions. */
  predicate Contains(s: string, w: string)
    decreases |s|
  {
    (|w| <= |s| && s[..|w|] == w) || (s != [] && Contains(s[1..], w))
  }

  /** Dropping the first character shifts every occurrence down by one. */
  lemma OccursShift(s: string, w: string, i: nat)
    requires s != []
    ensures OccursAt(s[1..], w, i) <==> OccursAt(s, w, i + 1)
  {
    if i + |w| <= |s| - 1 {
      assert s[1..][i..i + |w|] == s[i + 1..i + 1 + |w|];
    }
  }

  /** The scan finds `w` exactly when `w` occurs at some index of `s`. */
  lemma {:induction false} ContainsIff(s: string, w: string)
    ensures Contains(s, w) <==> exists i :: OccursAt(s, w, i)
    decreases |s|
  {
    if |w| <= |s| && s[..|w|] == w {
      assert OccursAt(s, w, 0);
    } else if s != [] {
      ContainsIff(s[1..], w);
      assert !OccursAt(s, w, 0) by { if |w| <= |s| { assert s[0..|w|] == s[..|w|]; } }
      if exists i :: OccursAt(s[1..], w, i) {
        var i :| OccursAt(s[1..], w, i);
        OccursShift(s, w, i);
      }
      if exists i :: OccursAt(s, w, i) {
        var i :| OccursAt(s, w, i);
        OccursShift(s, w, i - 1);
      }
    }
  }

  /** Python's `any(w in s for w in ws)`. */
  predicate ContainsAny(s: string, ws: seq<string>)
    decreases |ws|
  {
    |ws| > 0 && (Contains(s, ws[0]) || ContainsAny(s, ws[1..]))
  }

  /** The `any` scan succeeds exactly when some listed word occurs in `s`. */
  lemma {:induction false} ContainsAnyIff(s: string, ws: seq<string>)
    ensures ContainsAny(s, ws) <==> exists k, i :: 0 <= k < |ws| && OccursAt(s, ws[k], i)
    decreases |ws|
  {
    if |ws| > 0 {
      ContainsIff(s, ws[0]);
      ContainsAnyIff(s, ws[1..]);
      if exists k, i :: 0 <= k < |ws| && OccursAt(s, ws[k], i) {
        var k, i :| 0 <= k < |ws| && OccursAt(s, ws[k], i);
        if k > 0 {
          assert ws[1..][k - 1] == ws[k];
          assert OccursAt(s, ws[1..][k - 1], i);
        }
      }
      if ContainsAny(s, ws[1..]) {
        var k, i :| 0 <= k < |ws[1..]| && OccursAt(s, ws[1..][k], i);
        assert OccursAt(s, ws[k + 1], i);
      }
    }
  }

  /** Python's `c * n` for a one-character string `c`. */
  function Repeat(c: char, n: nat): (r: string)
    ensures |r| == n
    ensures forall i :: 0 <= i < n ==> r[i] == c
  {
    if n == 0 then [] else [c] + Repeat(c, n - 1)
  }
}
