/** The per-user translation history the JSON scripts keep in
    `history.json`: username to the list of saved translations, oldest
    first. Saving appends at the end; the history panel lists the most
    recent entries newest first. */
module History {

  /** One saved translation. The scripts name the keys differently
      (`time/from/to/input/output` in one, `timestamp/source/target/original/
      translated` in the other); the five values are the same. */
  datatype Entry = Entry(time: string, source: string, target: string, input: string, output: string)

  type HistoryMap = map<string, seq<Entry>>

  /** A user's list; a user with no key has an empty one. */
  function Log(h: HistoryMap, user: string): seq<Entry> {
    if user in h then h[user] else []
  }

  /** `h'` is `h` with exactly `e` added at the end of `user`'s list: the
      user now has a key, and nobody else's list differs. */
  ghost predicate AppendedOne(h: HistoryMap, h': HistoryMap, user: string, e: Entry) {
    && h'.Keys == h.Keys + {user}
    && Log(h', user) == Log(h, user) + [e]
    && (forall other :: other != user ==> Log(h', other) == Log(h, other))
  }

  /** `if user not in history: history[user] = []` then
      `history[user].append(e)`. Exactly one entry lands at the end of this
      user's list and every other user keeps their list. */
  function Append(h: HistoryMap, user: string, e: Entry): (r: HistoryMap)
    ensures AppendedOne(h, r, user, e)
  {
    if user !in h then h[user := [e]] else h[user := h[user] + [e]]
  }

  /** Python's `reversed(s)`. */
  function Reverse<T>(s: seq<T>): (r: seq<T>)
    ensures |r| == |s|
    ensures forall i :: 0 <= i < |s| ==> r[i] == s[|s| - 1 - i]
  {
    if s == [] then [] else Reverse(s[1..]) + [s[0]]
  }

  function Min(a: int, b: int): int {
    if a <= b then a else b
  }

  /** Python's slice `s[-k:]`. For `k == 0` it is `s[0:]`, the whole list. */
  function Newest<T>(s: seq<T>, k: nat): (r: seq<T>)
    ensures k > 0 ==> |r| == Min(k, |s|)
    ensures k == 0 ==> r == s
    ensures |r| <= |s| && r == s[|s| - |r|..]
  {
    if k == 0 || k >= |s| then s else s[|s| - k..]
  }

  /** `reversed(history.get(user, [])[-k:])`: the history panel. For a
      positive limit it lists the `min(k, n)` newest entries, newest first. */
  function View(h: HistoryMap, user: string, k: nat): (r: seq<Entry>)
    ensures user !in h ==> r == []
    ensures k > 0 ==> |r| == Min(k, |Log(h, user)|)
    ensures k > 0 ==> forall i :: 0 <= i < |r| ==>
      r[i] == Log(h, user)[|Log(h, user)| - 1 - i]
  {
    Reverse(Newest(Log(h, user), k))
  }

  lemma ReverseSnoc<T>(s: seq<T>, x: T)
    ensures Reverse(s + [x]) == [x] + Reverse(s)
  {
    var r := Reverse(s + [x]);
    assert forall i :: 0 < i < |r| ==> r[i] == s[|s| - 1 - (i - 1)];
  }

  lemma NewestSnoc<T>(s: seq<T>, x: T, k: nat)
    requires k > 0
    ensures Newest(s + [x], k + 1) == Newest(s, k) + [x]
  {
    if k < |s| {
      assert (s + [x])[|s| - k..] == s[|s| - k..] + [x];
    }
  }

  /** Saving one entry puts it first in the panel: the panel with room for
      one more entry is the new entry followed by the old panel. */
  lemma {:induction false} ViewAfterAppend(h: HistoryMap, user: string, e: Entry, k: nat)
    requires k > 0
    ensures View(Append(h, user, e), user, k + 1) == [e] + View(h, user, k)
  {
    var log := Log(h, user);
    assert Log(Append(h, user, e), user) == log + [e];
    NewestSnoc(log, e, k);
    ReverseSnoc(Newest(log, k), e);
  }

  /** Saving for one user never changes what another user's panel shows. */
  lemma ViewOtherUser(h: HistoryMap, user: string, other: string, e: Entry, k: nat)
    requires other != user
    ensures View(Append(h, user, e), other, k) == View(h, other, k)
  {
  }

  /** Saving the entries of `es` one after the other. */
  function AppendAll(h: HistoryMap, user: string, es: seq<Entry>): HistoryMap
    decreases |es|
  {
    if es == [] then h else AppendAll(Append(h, user, es[0]), user, es[1..])
  }

  /** After a run of saves the user's list has grown by exactly those
      entries, in order, and nobody else's list changed. */
  lemma {:induction false} AppendAllLog(h: HistoryMap, user: string, es: seq<Entry>)
    ensures Log(AppendAll(h, user, es), user) == Log(h, user) + es
    ensures forall other :: other != user ==> Log(AppendAll(h, user, es), other) == Log(h, other)
    decreases |es|
  {
    if es != [] {
      AppendAllLog(Append(h, user, es[0]), user, es[1..]);
      assert Log(h, user) + [es[0]] + es[1..] == Log(h, user) + es;
    }
  }

  /** Saving `n` entries, whatever the user saved before, and listing `n`
      shows exactly those entries, last saved first. */
  lemma ViewAfterAppendAll(h: HistoryMap, user: string, es: seq<Entry>)
    requires |es| > 0
    ensures View(AppendAll(h, user, es), user, |es|) == Reverse(es)
  {
    AppendAllLog(h, user, es);
    assert Newest(Log(h, user) + es, |es|) == es;
  }

  /** With at least `k` entries saved, the panel shows exactly the last `k`
      of them, newest first, whatever the user saved before: older entries
      stay stored but are not shown. */
  lemma ViewRetention(h: HistoryMap, user: string, es: seq<Entry>, k: nat)
    requires 0 < k <= |es|
    ensures View(AppendAll(h, user, es), user, k) == Reverse(es[|es| - k..])
  {
    AppendAllLog(h, user, es);
    assert Newest(Log(h, user) + es, k) == es[|es| - k..];
  }
}
