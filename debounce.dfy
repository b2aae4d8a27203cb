/** The debounce filter: a time-based rolling `min` (the trimmed mask) followed by
    a rolling `max` over the same trailing window (the persistent mask). A window
    of width `w` at a sample taken at time t holds every sample taken in
    (t - w, t], the sample itself included. */
module Debounce {
  import opened Series

  /** The rolling `min` of a boolean column at row `i`: the flag held at every
      sample of the trailing window. */
  ghost predicate HeldThroughout(ts: seq<int>, x: seq<bool>, w: int, i: int)
    requires |ts| == |x| && 0 <= i < |x|
  {
    forall j :: 0 <= j <= i && ts[i] - w < ts[j] ==> x[j]
  }

  /** The rolling `max` of a boolean column at row `i`: the flag held at some
      sample of the trailing window. */
  ghost predicate HeldSomewhere(ts: seq<int>, x: seq<bool>, w: int, i: int)
    requires |ts| == |x| && 0 <= i < |x|
  {
    exists j :: 0 <= j <= i && ts[i] - w < ts[j] && x[j]
  }

  /** The trimmed mask of a condition column. */
  ghost function Trimmed(ts: seq<int>, c: seq<bool>, w: int): seq<bool>
    requires |ts| == |c|
  {
    seq(|c|, i requires 0 <= i < |c| => HeldThroughout(ts, c, w, i))
  }

  /** The persistent mask: the rolling `max` of the trimmed mask. */
  ghost function Persistent(ts: seq<int>, c: seq<bool>, w: int): seq<bool>
    requires |ts| == |c|
  {
    seq(|c|, i requires 0 <= i < |c| => HeldSomewhere(ts, Trimmed(ts, c, w), w, i))
  }

  /** `rolling(window=w, on="ts")[col].min()` on a boolean column. The window
      holds every false sample after the latest one at or before the row, so it
      is enough to remember the index of that latest false sample. */
  method RollingMin(ts: seq<int>, x: seq<bool>, w: int) returns (r: seq<bool>)
    requires |ts| == |x| && StrictlyIncreasing(ts)
    ensures |r| == |x|
    ensures forall i :: 0 <= i < |x| ==> (r[i] <==> HeldThroughout(ts, x, w, i))
  {
    r := [];
    var lastFalse := -1;
    for i := 0 to |x|
      invariant |r| == i
      invariant -1 <= lastFalse < i
      invariant lastFalse >= 0 ==> !x[lastFalse]
      invariant forall j :: lastFalse < j < i ==> x[j]
      invariant forall k :: 0 <= k < i ==> (r[k] <==> HeldThroughout(ts, x, w, k))
    {
      if !x[i] {
        lastFalse := i;
      }
      r := r + [lastFalse < 0 || ts[lastFalse] <= ts[i] - w];
    }
  }

  /** `rolling(window=w, on="ts")[col].max()` on a boolean column, remembering
      the index of the latest true sample. */
  method RollingMax(ts: seq<int>, x: seq<bool>, w: int) returns (r: seq<bool>)
    requires |ts| == |x| && StrictlyIncreasing(ts)
    ensures |r| == |x|
    ensures forall i :: 0 <= i < |x| ==> (r[i] <==> HeldSomewhere(ts, x, w, i))
  {
    r := [];
    var lastTrue := -1;
    for i := 0 to |x|
      invariant |r| == i
      invariant -1 <= lastTrue < i
      invariant lastTrue >= 0 ==> x[lastTrue]
      invariant forall j :: lastTrue < j < i ==> !x[j]
      invariant forall k :: 0 <= k < i ==> (r[k] <==> HeldSomewhere(ts, x, w, k))
    {
      if x[i] {
        lastTrue := i;
      }
      r := r + [lastTrue >= 0 && ts[i] - w < ts[lastTrue]];
    }
  }

  /** The two passes for one condition and one window width. */
  method DebounceMask(ts: seq<int>, c: seq<bool>, w: int) returns (trimmed: seq<bool>, persistent: seq<bool>)
    requires |ts| == |c| && StrictlyIncreasing(ts)
    ensures trimmed == Trimmed(ts, c, w)
    ensures persistent == Persistent(ts, c, w)
  {
    trimmed := RollingMin(ts, c, w);
    assert trimmed == Trimmed(ts, c, w);
    persistent := RollingMax(ts, trimmed, w);
  }

  /** A trimmed sample satisfies the condition itself: it lies in its own window. */
  lemma TrimmedImpliesCondition(ts: seq<int>, c: seq<bool>, w: int, i: nat)
    requires |ts| == |c| && i < |c| && w > 0
    requires Trimmed(ts, c, w)[i]
    ensures c[i]
  {
    assert ts[i] - w < ts[i];
  }

  /** The persistent mask is at least the trimmed mask, pointwise. */
  lemma PersistentCoversTrimmed(ts: seq<int>, c: seq<bool>, w: int, i: nat)
    requires |ts| == |c| && i < |c| && w > 0
    requires Trimmed(ts, c, w)[i]
    ensures Persistent(ts, c, w)[i]
  {
    assert ts[i] - w < ts[i];
  }

  /** Without a single trimmed sample, the persistent mask is false everywhere. */
  lemma NoTrimmedNoPersistent(ts: seq<int>, c: seq<bool>, w: int)
    requires |ts| == |c|
    requires forall i :: 0 <= i < |c| ==> !Trimmed(ts, c, w)[i]
    ensures forall i :: 0 <= i < |c| ==> !Persistent(ts, c, w)[i]
  {
  }

  /** A persistent sample is less than `w` after a sample that satisfied the
      condition; it need not satisfy the condition itself. */
  lemma PersistentFollowsCondition(ts: seq<int>, c: seq<bool>, w: int, i: nat)
    requires |ts| == |c| && i < |c| && w > 0
    requires Persistent(ts, c, w)[i]
    ensures exists j :: 0 <= j <= i && ts[i] - ts[j] < w && c[j]
  {
    var t := Trimmed(ts, c, w);
    var j :| 0 <= j <= i && ts[i] - w < ts[j] && t[j];
    TrimmedImpliesCondition(ts, c, w, j);
  }

  /** A run of the condition that is preceded by a sample without it, and that
      ends less than `w` after that sample, is trimmed away entirely. */
  lemma ShortRunIsTrimmed(ts: seq<int>, c: seq<bool>, w: int, a: nat, b: nat)
    requires |ts| == |c| && StrictlyIncreasing(ts)
    requires 0 < a <= b < |c| && !c[a - 1]
    requires ts[b] - ts[a - 1] < w
    ensures forall k :: a <= k <= b ==> !Trimmed(ts, c, w)[k]
  {
    forall k | a <= k <= b ensures !HeldThroughout(ts, c, w, k) {
      assert ts[k] - w < ts[a - 1];
    }
  }

  /** At the first sample of the night the window holds that sample alone, so
      the trimmed mask there is the condition itself, however short the run. */
  lemma FirstSampleIsNotTrimmed(ts: seq<int>, c: seq<bool>, w: int)
    requires |ts| == |c| && 0 < |c| && w > 0
    ensures Trimmed(ts, c, w)[0] == c[0]
  {
    assert ts[0] - w < ts[0];
  }

  /** Every window up to the end of a run that starts the night holds only
      samples of that run, so the whole leading run is kept in the trimmed
      mask, however short it is. */
  lemma LeadingRunIsNotTrimmed(ts: seq<int>, c: seq<bool>, w: int, b: nat)
    requires |ts| == |c| && b < |c|
    requires forall k :: 0 <= k <= b ==> c[k]
    ensures forall k :: 0 <= k <= b ==> Trimmed(ts, c, w)[k]
  {
  }

  /** A run of the condition lasting at least `w` is trimmed at its last sample,
      and the persistent mask then stays true for every sample less than `w`
      after that one, whether or not the condition still holds there. */
  lemma SustainedRunPersists(ts: seq<int>, c: seq<bool>, w: int, a: nat, b: nat)
    requires |ts| == |c| && StrictlyIncreasing(ts) && w > 0
    requires a <= b < |c|
    requires forall j :: a <= j <= b ==> c[j]
    requires ts[b] - ts[a] >= w
    ensures Trimmed(ts, c, w)[b]
    ensures forall k :: b <= k < |c| && ts[k] < ts[b] + w ==> Persistent(ts, c, w)[k]
  {
    assert HeldThroughout(ts, c, w, b) by {
      forall j | 0 <= j <= b && ts[b] - w < ts[j] ensures c[j] {
        assert ts[a] <= ts[b] - w < ts[j];
      }
    }
    var t := Trimmed(ts, c, w);
    forall k | b <= k < |c| && ts[k] < ts[b] + w ensures HeldSomewhere(ts, t, w, k) {
      assert ts[k] - w < ts[b] && t[b];
    }
  }

  /** The max pass moves a run forward rather than restoring its start: with
      samples one second apart and `w` = 2, the run at rows 1 and 2 becomes the
      persistent run at rows 2 and 3. */
  lemma PersistentRunShiftsForward()
    ensures Persistent([0, 1, 2, 3, 4], [false, true, true, false, false], 2)
         == [false, false, true, true, false]
  {
    var ts := [0, 1, 2, 3, 4];
    var c := [false, true, true, false, false];
    var t := Trimmed(ts, c, 2);
    assert !HeldThroughout(ts, c, 2, 0);
    assert !HeldThroughout(ts, c, 2, 1);
    assert HeldThroughout(ts, c, 2, 2);
    assert !HeldThroughout(ts, c, 2, 3);
    assert !HeldThroughout(ts, c, 2, 4);
    assert t == [false, false, true, false, false];
    var p := Persistent(ts, c, 2);
    assert !HeldSomewhere(ts, t, 2, 0);
    assert !HeldSomewhere(ts, t, 2, 1);
    assert HeldSomewhere(ts, t, 2, 2);
    assert HeldSomewhere(ts, t, 2, 3);
    assert !HeldSomewhere(ts, t, 2, 4);
  }
}
