/** `StateManager` of utils/vision_processing/state_manager.py: a majority
    vote over the last `buffer_size` labels. `update` appends to a bounded
    deque (the oldest label falls out when it is full); `get_stable_label`
    answers only once the window is full, with the window's most common
    label when it occurs at least `stable_threshold` times, is not None and
    differs from the label last answered, which it then remembers.

    `Counter(buffer).most_common(1)` takes, among the labels of highest
    count, the one seen first in the buffer; `BestIndex` states that
    choice. The unused `locked` attribute is not modelled. */
module Stabilizer {
  import opened Common

  type Label = Option<string>

  /** `deque(maxlen=n).append(x)`: the last `n` of `buf + [x]`. */
  function Push(buf: seq<Label>, x: Label, n: nat): (r: seq<Label>)
    requires |buf| <= n
    ensures |r| <= n
    ensures |buf| < n ==> r == buf + [x]
    ensures |buf| == n > 0 ==> r == buf[1..] + [x]
    ensures n == 0 ==> r == []
  {
    var b := buf + [x];
    if |b| > n then b[|b| - n..] else b
  }

  /** How often `x` occurs in the window. */
  function Count(buf: seq<Label>, x: Label): nat
  {
    multiset(buf)[x]
  }

  /** The index of the first label of highest count among `buf[..k]`. */
  function BestIndex(buf: seq<Label>, k: nat): (b: nat)
    requires 0 < k <= |buf|
    ensures b < k
    ensures forall i | 0 <= i < k :: Count(buf, buf[i]) <= Count(buf, buf[b])
    ensures forall i | 0 <= i < b :: Count(buf, buf[i]) < Count(buf, buf[b])
  {
    if k == 1 then 0
    else
      var b := BestIndex(buf, k - 1);
      if Count(buf, buf[k - 1]) > Count(buf, buf[b]) then k - 1 else b
  }

  /** `label_counts.most_common(1)[0][0]`. */
  function MostCommon(buf: seq<Label>): (m: Label)
    requires buf != []
    ensures m in buf
    ensures forall x :: Count(buf, x) <= Count(buf, m)
  {
    var m := buf[BestIndex(buf, |buf|)];
    assert forall x | x !in buf :: Count(buf, x) == 0;
    m
  }

  /** What `get_stable_label` answers on window `buf`, with window size
      `maxLen`, threshold `threshold` and last answer `last`. */
  function StableLabel(buf: seq<Label>, maxLen: nat, threshold: int, last: Label): (r: Label)
    ensures |buf| < maxLen ==> r == None
    ensures r.Some? <==> |buf| >= maxLen && buf != [] && MostCommon(buf).Some? &&
                         Count(buf, MostCommon(buf)) >= threshold && MostCommon(buf) != last
    ensures r.Some? ==> r == MostCommon(buf) && r != last
  {
    if |buf| < maxLen then None
    else if buf == [] then None
    else
      var m := MostCommon(buf);
      if Count(buf, m) >= threshold && m != last && m.Some? then m else None
  }

  class StateManager {
    const maxLen: nat
    const stableThreshold: int
    var buffer: seq<Label>
    var lastSentLabel: Label

    ghost predicate Valid()
      reads this
    {
      |buffer| <= maxLen
    }

    constructor (bufferSize: nat, stableThreshold: int)
      ensures Valid()
      ensures maxLen == bufferSize && this.stableThreshold == stableThreshold
      ensures buffer == [] && lastSentLabel == None
    {
      maxLen := bufferSize;
      this.stableThreshold := stableThreshold;
      buffer := [];
      lastSentLabel := None;
    }

    /** `update(new_label)`: only the window changes. */
    method Update(newLabel: Label)
      requires Valid()
      modifies this`buffer
      ensures Valid()
      ensures buffer == Push(old(buffer), newLabel, maxLen)
      ensures lastSentLabel == old(lastSentLabel)
    {
      var b := buffer + [newLabel];
      if |b| > maxLen {
        b := b[|b| - maxLen..];
      }
      buffer := b;
    }

    /** `get_stable_label()`: the answer, remembered when it is a label. */
    method GetStableLabel() returns (r: Label)
      requires Valid()
      modifies this`lastSentLabel
      ensures Valid()
      ensures r == StableLabel(buffer, maxLen, stableThreshold, old(lastSentLabel))
      ensures lastSentLabel == if r.Some? then r else old(lastSentLabel)
    {
      if |buffer| < maxLen {
        return None;
      }
      if buffer == [] {
        return None;
      }
      var mostCommon := MostCommon(buffer);
      var count := Count(buffer, mostCommon);
      if count >= stableThreshold && mostCommon != lastSentLabel && mostCommon.Some? {
        lastSentLabel := mostCommon;
        return mostCommon;
      }
      return None;
    }
  }

  /** The label chosen is determined by the window: the first index whose
      label has the highest count, with every earlier label strictly rarer,
      is unique. */
  lemma ModeIndexUnique(buf: seq<Label>, b: nat)
    requires b < |buf|
    requires forall i | 0 <= i < |buf| :: Count(buf, buf[i]) <= Count(buf, buf[b])
    requires forall i | 0 <= i < b :: Count(buf, buf[i]) < Count(buf, buf[b])
    ensures b == BestIndex(buf, |buf|)
  {
  }

  /** Among labels of equal highest count, the one whose first occurrence
      comes first wins. */
  lemma TieGoesToFirstSeen(buf: seq<Label>, i: nat, x: Label)
    requires buf != [] && i < |buf| && buf[i] == x
    requires Count(buf, x) == Count(buf, MostCommon(buf)) && x != MostCommon(buf)
    ensures exists j :: 0 <= j < i && buf[j] == MostCommon(buf)
  {
    var b := BestIndex(buf, |buf|);
    if i < b {
      assert false;
    }
    assert b < i;
  }

  /** A pulse: right after answering X, asking again without an update
      answers None. */
  lemma Pulse(buf: seq<Label>, maxLen: nat, threshold: int, last: Label)
    requires StableLabel(buf, maxLen, threshold, last).Some?
    ensures StableLabel(buf, maxLen, threshold, StableLabel(buf, maxLen, threshold, last)) == None
  {
  }

  /** The manager's state after feeding one label and asking once. */
  function Step(state: (seq<Label>, Label), x: Label, maxLen: nat, threshold: int): (seq<Label>, Label, Label)
    requires |state.0| <= maxLen
  {
    var buf := Push(state.0, x, maxLen);
    var r := StableLabel(buf, maxLen, threshold, state.1);
    (buf, if r.Some? then r else state.1, r)
  }

  /** The answers to `update(x); get_stable_label()` over a run of labels,
      starting from a fresh manager. */
  function Answers(xs: seq<Label>, maxLen: nat, threshold: int): (res: (seq<Label>, Label, seq<Label>))
    ensures |res.0| <= maxLen && |res.2| == |xs|
  {
    if xs == [] then ([], None, [])
    else
      var prev := Answers(xs[..|xs| - 1], maxLen, threshold);
      var next := Step((prev.0, prev.1), xs[|xs| - 1], maxLen, threshold);
      (next.0, next.1, prev.2 + [next.2])
  }

  /** While the window is filling, the buffer is the whole run so far, no
      label is remembered and every answer is None. */
  lemma {:induction false} NothingWhileFilling(xs: seq<Label>, maxLen: nat, threshold: int)
    requires |xs| < maxLen
    ensures Answers(xs, maxLen, threshold).0 == xs
    ensures Answers(xs, maxLen, threshold).1 == None
    ensures forall k | 0 <= k < |xs| :: Answers(xs, maxLen, threshold).2[k] == None
  {
    if xs != [] {
      var init := xs[..|xs| - 1];
      NothingWhileFilling(init, maxLen, threshold);
      assert init + [xs[|xs| - 1]] == xs;
    }
  }

  /** The fifth label fills the window X, X, X, None, None, whose most
      common label X (three times) is answered and remembered. */
  lemma WindowFills(x: string)
    ensures Step(([Some(x), Some(x), Some(x), None], None), None, 5, 3) ==
              ([Some(x), Some(x), Some(x), None, None], Some(x), Some(x))
  {
    var a: Label := Some(x);
    var n: Label := None;
    var w := [a, a, a, n, n];
    assert Push([a, a, a, n], n, 5) == w;
    assert Count(w, a) == 3 by { assert multiset(w)[a] == 3; }
    assert Count(w, n) == 2 by { assert multiset(w)[n] == 2; }
    assert MostCommon(w) == a;
  }

  /** One more None slides the window to X, X, None, None, None, whose most
      common label is None: nothing is answered and X stays remembered. */
  lemma NoneTakesOver(x: string)
    ensures Step(([Some(x), Some(x), Some(x), None, None], Some(x)), None, 5, 3) ==
              ([Some(x), Some(x), None, None, None], Some(x), None)
  {
    var a: Label := Some(x);
    var n: Label := None;
    var w := [a, a, n, n, n];
    assert Push([a, a, a, n, n], n, 5) == w;
    assert Count(w, a) == 2 by { assert multiset(w)[a] == 2; }
    assert Count(w, n) == 3 by { assert multiset(w)[n] == 3; }
    assert MostCommon(w) == n;
  }

  /** With the defaults (5, 3), X, X, X, None, None answers None four times
      while the window fills, then X. */
  lemma FirstAnswerOnFullWindow(x: string)
    ensures Answers([Some(x), Some(x), Some(x), None, None], 5, 3) ==
              ([Some(x), Some(x), Some(x), None, None], Some(x), [None, None, None, None, Some(x)])
  {
    var a: Label := Some(x);
    var n: Label := None;
    var p4 := [a, a, a, n];
    var p5 := [a, a, a, n, n];
    assert p5[..4] == p4;
    var prev := Answers(p4, 5, 3);
    assert prev == (p4, n, [n, n, n, n]) by {
      NothingWhileFilling(p4, 5, 3);
      assert |prev.2| == 4 && prev.2[0] == n && prev.2[1] == n && prev.2[2] == n && prev.2[3] == n;
      assert prev.2 == [n, n, n, n];
    }
    var next := Step((prev.0, prev.1), n, 5, 3);
    WindowFills(x);
    assert Answers(p5, 5, 3) == (next.0, next.1, prev.2 + [next.2]);
    assert prev.2 + [next.2] == [n, n, n, n, a];
  }

  /** With the defaults (5, 3), the run X, X, X, None, None, None answers X
      once, on the fifth call, when the window first fills; after it None is
      the most common label and the answer is None again. */
  lemma DefaultScenario(x: string)
    ensures Answers([Some(x), Some(x), Some(x), None, None, None], 5, 3).2 ==
              [None, None, None, None, Some(x), None]
  {
    var a: Label := Some(x);
    var n: Label := None;
    var p5 := [a, a, a, n, n];
    var p6 := [a, a, a, n, n, n];
    assert p6[..5] == p5;
    var prev := Answers(p5, 5, 3);
    assert prev == (p5, a, [n, n, n, n, a]) by {
      FirstAnswerOnFullWindow(x);
    }
    var window := [a, a, n, n, n];
    var next := Step((prev.0, prev.1), n, 5, 3);
    NoneTakesOver(x);
    assert Answers(p6, 5, 3) == (next.0, next.1, prev.2 + [next.2]);
    assert prev.2 + [next.2] == [n, n, n, n, a, n];
  }
}
