/** Bout edges: `mask.astype(int).diff()` marks a start with +1 and a stop with
    -1, and the timestamps of those rows become the start and stop lists. */
module Edges {
  import opened Series

  /** Row `i` is a start: the mask steps from false to true there. */
  ghost predicate IsStart(m: seq<bool>, i: int) {
    0 < i < |m| && !m[i - 1] && m[i]
  }

  /** Row `i` is a stop: the mask steps from true to false there. */
  ghost predicate IsStop(m: seq<bool>, i: int) {
    0 < i < |m| && m[i - 1] && !m[i]
  }

  /** The events of `a` and `b` alternate, `a` first: a[0] < b[0] < a[1] < b[1] < ... */
  ghost predicate Interleaved(a: seq<int>, b: seq<int>) {
    && |b| <= |a| <= |b| + 1
    && (forall k :: 0 <= k < |b| ==> a[k] < b[k])
    && (forall k :: 0 <= k < |a| - 1 ==> b[k] < a[k + 1])
  }

  /** The `..._bout_start` column: `mask.astype(int).diff()`. */
  function EdgeColumn(m: seq<bool>): (e: seq<Option<int>>)
    ensures |e| == |m|
  {
    Diff(seq(|m|, i requires 0 <= i < |m| => Some(if m[i] then 1 else 0)))
  }

  /** A +1 in the edge column is exactly a start, a -1 exactly a stop, and the
      first row, whose difference is missing, is neither. */
  lemma EdgeColumnMarksSteps(m: seq<bool>, i: nat)
    requires i < |m|
    ensures EdgeColumn(m)[i] == Some(1) <==> IsStart(m, i)
    ensures EdgeColumn(m)[i] == Some(-1) <==> IsStop(m, i)
    ensures i == 0 ==> EdgeColumn(m)[i].None?
  {
  }

  /** The start and stop timestamps of a mask, read off its edge column.
      Besides their contents, the lists alternate in time: a night that begins
      outside a bout yields a start first, one that begins inside a bout yields
      a stop first, and the lists' lengths differ according to how the night
      begins and ends. */
  method BoutEdges(ts: seq<int>, m: seq<bool>) returns (starts: seq<int>, stops: seq<int>)
    requires |ts| == |m| && StrictlyIncreasing(ts)
    ensures forall t :: t in starts <==> exists i :: IsStart(m, i) && ts[i] == t
    ensures forall t :: t in stops <==> exists i :: IsStop(m, i) && ts[i] == t
    ensures StrictlyIncreasing(starts) && StrictlyIncreasing(stops)
    ensures |starts| == CountEqual(EdgeColumn(m), 1)
    ensures |m| > 0 && !m[0] ==>
      Interleaved(starts, stops) && |starts| == |stops| + (if m[|m| - 1] then 1 else 0)
    ensures |m| > 0 && m[0] ==>
      Interleaved(stops, starts) && |stops| == |starts| + (if m[|m| - 1] then 0 else 1)
    ensures |m| > 0 ==> forall t :: t in starts || t in stops ==> ts[0] < t <= ts[|m| - 1]
  {
    var e := EdgeColumn(m);
    starts, stops := [], [];
    if |m| == 0 {
      return;
    }
    EdgeColumnMarksSteps(m, 0);
    assert e[..1] == [e[0]];
    for i := 1 to |m|
      invariant EdgeListsUpTo(ts, m, i, starts, stops)
    {
      EdgeListsStep(ts, m, i, starts, stops);
      if e[i] == Some(1) {
        starts := starts + [ts[i]];
      } else if e[i] == Some(-1) {
        stops := stops + [ts[i]];
      }
    }
    assert e[..|m|] == e;
  }

  /** What the edge lists hold once rows 0 to n - 1 have been read. */
  ghost predicate EdgeListsUpTo(ts: seq<int>, m: seq<bool>, n: int, starts: seq<int>, stops: seq<int>)
    requires |ts| == |m| && 1 <= n <= |m|
  {
    && (forall t :: t in starts <==> exists k :: 0 <= k < n && IsStart(m, k) && ts[k] == t)
    && (forall t :: t in stops <==> exists k :: 0 <= k < n && IsStop(m, k) && ts[k] == t)
    && StrictlyIncreasing(starts) && StrictlyIncreasing(stops)
    && |starts| == CountEqual(EdgeColumn(m)[..n], 1)
    && (forall t :: t in starts ==> ts[0] < t <= ts[n - 1])
    && (forall t :: t in stops ==> ts[0] < t <= ts[n - 1])
    && (!m[0] ==> Interleaved(starts, stops) && |starts| == |stops| + (if m[n - 1] then 1 else 0))
    && (m[0] ==> Interleaved(stops, starts) && |stops| == |starts| + (if m[n - 1] then 0 else 1))
  }

  /** Reading row `i` of the edge column keeps `EdgeListsUpTo`. */
  lemma EdgeListsStep(ts: seq<int>, m: seq<bool>, i: int, starts: seq<int>, stops: seq<int>)
    requires |ts| == |m| && StrictlyIncreasing(ts) && 1 <= i < |m|
    requires EdgeListsUpTo(ts, m, i, starts, stops)
    ensures var e := EdgeColumn(m);
      EdgeListsUpTo(ts, m, i + 1,
        if e[i] == Some(1) then starts + [ts[i]] else starts,
        if e[i] != Some(1) && e[i] == Some(-1) then stops + [ts[i]] else stops)
  {
    var e := EdgeColumn(m);
    EdgeColumnMarksSteps(m, i);
    assert e[..i + 1] == e[..i] + [e[i]];
    if e[i] == Some(1) {
      StartStep(ts, m, i, starts, stops);
    } else if e[i] == Some(-1) {
      StopStep(ts, m, i, starts, stops);
    } else {
      NoEdgeStep(ts, m, i, starts, stops);
    }
  }

  lemma NoEdgeStep(ts: seq<int>, m: seq<bool>, i: int, starts: seq<int>, stops: seq<int>)
    requires |ts| == |m| && StrictlyIncreasing(ts) && 1 <= i < |m|
    requires EdgeListsUpTo(ts, m, i, starts, stops)
    requires m[i] == m[i - 1]
    ensures EdgeListsUpTo(ts, m, i + 1, starts, stops)
  {
    var e := EdgeColumn(m);
    EdgeColumnMarksSteps(m, i);
    assert e[..i + 1] == e[..i] + [e[i]];
    assert |starts| == CountEqual(e[..i + 1], 1);
    assert ts[i - 1] < ts[i];
    assert forall t :: t in starts <==> exists k :: 0 <= k < i + 1 && IsStart(m, k) && ts[k] == t by {
      assert !IsStart(m, i);
    }
    assert forall t :: t in stops <==> exists k :: 0 <= k < i + 1 && IsStop(m, k) && ts[k] == t by {
      assert !IsStop(m, i);
    }
  }

  lemma StartStep(ts: seq<int>, m: seq<bool>, i: int, starts: seq<int>, stops: seq<int>)
    requires |ts| == |m| && StrictlyIncreasing(ts) && 1 <= i < |m|
    requires EdgeListsUpTo(ts, m, i, starts, stops)
    requires IsStart(m, i)
    ensures EdgeListsUpTo(ts, m, i + 1, starts + [ts[i]], stops)
  {
    var e := EdgeColumn(m);
    EdgeColumnMarksSteps(m, i);
    assert e[..i + 1] == e[..i] + [e[i]];
    assert ts[0] < ts[i] && ts[i - 1] < ts[i];
    if !m[0] {
      AppendToLeader(starts, stops, ts[i]);
    } else {
      AppendToFollower(stops, starts, ts[i]);
    }
    AppendKeepsIncreasing(starts, ts[i]);
  }

  lemma StopStep(ts: seq<int>, m: seq<bool>, i: int, starts: seq<int>, stops: seq<int>)
    requires |ts| == |m| && StrictlyIncreasing(ts) && 1 <= i < |m|
    requires EdgeListsUpTo(ts, m, i, starts, stops)
    requires IsStop(m, i)
    ensures EdgeListsUpTo(ts, m, i + 1, starts, stops + [ts[i]])
  {
    var e := EdgeColumn(m);
    EdgeColumnMarksSteps(m, i);
    assert e[..i + 1] == e[..i] + [e[i]];
    assert ts[0] < ts[i] && ts[i - 1] < ts[i];
    if !m[0] {
      AppendToFollower(starts, stops, ts[i]);
    } else {
      AppendToLeader(stops, starts, ts[i]);
    }
    AppendKeepsIncreasing(stops, ts[i]);
  }

  lemma AppendKeepsIncreasing(s: seq<int>, t: int)
    requires StrictlyIncreasing(s)
    requires forall x :: x in s ==> x < t
    ensures StrictlyIncreasing(s + [t])
  {
    forall i, j | 0 <= i < j < |s| + 1 ensures (s + [t])[i] < (s + [t])[j] {
      if j == |s| {
        assert s[i] in s;
      }
    }
  }

  /** Appending to the leading list once both lists have equal length. */
  lemma AppendToLeader(a: seq<int>, b: seq<int>, t: int)
    requires Interleaved(a, b) && |a| == |b|
    requires forall x :: x in b ==> x < t
    ensures Interleaved(a + [t], b)
  {
    if |b| > 0 {
      assert b[|b| - 1] in b;
    }
  }

  /** Appending to the following list once the leading list is one ahead. */
  lemma AppendToFollower(a: seq<int>, b: seq<int>, t: int)
    requires Interleaved(a, b) && |a| == |b| + 1
    requires forall x :: x in a ==> x < t
    ensures Interleaved(a, b + [t])
  {
    assert a[|a| - 1] in a;
  }
}
