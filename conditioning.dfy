/** Sample conditioning and per-sample classification: the sentinel filter, the
    sampling intervals, the back-filled readings, the first difference of the
    filled saturation, and the desat / sub desat / spike desat flags. */
module Conditioning {
  import opened Series

  /** The reading a sensor reports when it has no value. */
  const Sentinel: int := 500

  /** `NA_filter`: the rows whose raw SpO2 reading is the sentinel. */
  function NaFilter(spo2: seq<int>): (na: seq<bool>)
    ensures |na| == |spo2|
  {
    seq(|spo2|, i requires 0 <= i < |spo2| => spo2[i] == Sentinel)
  }

  /** `replace({500: nan})`: a sentinel reading becomes missing, any other stays. */
  function MaskSentinel(raw: seq<int>): (col: seq<Option<int>>)
    ensures |col| == |raw|
  {
    seq(|raw|, i requires 0 <= i < |raw| => if raw[i] == Sentinel then None else Some(raw[i]))
  }

  /** `ts.diff()`: the time since the previous sample, missing for the first one. */
  function Intervals(ts: seq<int>): (col: seq<Option<int>>)
    ensures |col| == |ts|
  {
    seq(|ts|, i requires 0 <= i < |ts| => if i == 0 then None else Some(ts[i] - ts[i - 1]))
  }

  /** The value `bfill` leaves in row `i`: the first present cell at or after `i`,
      or missing when every later cell is missing. */
  function NextPresent(col: seq<Option<int>>, i: nat): Option<int>
    decreases |col| - i
  {
    if i >= |col| then None
    else if col[i].Some? then col[i]
    else NextPresent(col, i + 1)
  }

  /** `bfill(inplace=True)` on one column: each missing cell takes the next present value. */
  method BackFill(col: array<Option<int>>)
    modifies col
    ensures forall i :: 0 <= i < col.Length ==> col[i] == NextPresent(old(col[..]), i)
  {
    ghost var before := col[..];
    var next: Option<int> := None;
    var i := col.Length;
    while i > 0
      invariant 0 <= i <= col.Length
      invariant forall k :: 0 <= k < i ==> col[k] == before[k]
      invariant forall k :: i <= k < col.Length ==> col[k] == NextPresent(before, k)
      invariant next == NextPresent(before, i)
    {
      i := i - 1;
      if col[i].Some? {
        next := col[i];
      } else {
        col[i] := next;
      }
    }
  }

  /** The back-filled value of a row is the first present cell at or after it;
      it is missing exactly when every cell from the row on is missing. */
  lemma {:induction false} NextPresentIsFirstPresent(col: seq<Option<int>>, i: nat)
    ensures NextPresent(col, i).None? <==> forall j :: i <= j < |col| ==> col[j].None?
    ensures NextPresent(col, i).Some? ==>
      exists j :: i <= j < |col| && col[j] == NextPresent(col, i) && forall k :: i <= k < j ==> col[k].None?
    decreases |col| - i
  {
    if i < |col| && col[i].None? {
      NextPresentIsFirstPresent(col, i + 1);
      if NextPresent(col, i).Some? {
        var j :| i + 1 <= j < |col| && col[j] == NextPresent(col, i + 1) && forall k :: i + 1 <= k < j ==> col[k].None?;
        assert forall k :: i <= k < j ==> col[k].None?;
      }
    }
  }

  /** `fixed_spo2` (and `fixed_pulse`) after the back-fill: a valid reading is kept,
      a sentinel takes the first valid reading after it, and a trailing run of
      sentinels stays missing. */
  lemma FixedReadingIsNextValid(raw: seq<int>, i: nat)
    requires i < |raw|
    ensures raw[i] != Sentinel ==> NextPresent(MaskSentinel(raw), i) == Some(raw[i])
    ensures NextPresent(MaskSentinel(raw), i).None? <==> forall j :: i <= j < |raw| ==> raw[j] == Sentinel
    ensures NextPresent(MaskSentinel(raw), i).Some? ==>
      exists j :: i <= j < |raw| && raw[j] != Sentinel && NextPresent(MaskSentinel(raw), i) == Some(raw[j])
        && forall k :: i <= k < j ==> raw[k] == Sentinel
  {
    var col := MaskSentinel(raw);
    NextPresentIsFirstPresent(col, i);
    assert forall j :: 0 <= j < |raw| ==> (col[j].None? <==> raw[j] == Sentinel);
  }

  /** After the whole-frame back-fill the interval column is the time since the
      previous sample, except that the first row takes the second row's interval;
      a single-sample recording keeps its one interval missing. */
  lemma FilledIntervals(ts: seq<int>, i: nat)
    requires i < |ts|
    ensures i > 0 ==> NextPresent(Intervals(ts), i) == Some(ts[i] - ts[i - 1])
    ensures i == 0 && |ts| > 1 ==> NextPresent(Intervals(ts), 0) == Some(ts[1] - ts[0])
    ensures |ts| == 1 ==> NextPresent(Intervals(ts), 0) == None
  {
    if |ts| == 1 {
      assert NextPresent(Intervals(ts), 1) == None;
    }
  }

  /** A reading is missing after the sentinel is masked exactly on the rows the
      sentinel filter flags; every other reading is kept as it was. */
  lemma SentinelRowsAreMissing(raw: seq<int>)
    ensures forall i :: 0 <= i < |raw| ==>
      (MaskSentinel(raw)[i].None? <==> NaFilter(raw)[i])
      && (!NaFilter(raw)[i] ==> MaskSentinel(raw)[i] == Some(raw[i]))
  {
  }

  /** With strictly increasing timestamps every interval is positive, and the
      intervals add up to the span from the first sample to the last. */
  lemma IntervalsSumToSpan(ts: seq<int>)
    requires |ts| > 0 && StrictlyIncreasing(ts)
    ensures forall i :: 0 < i < |ts| ==> Intervals(ts)[i].value > 0
    ensures SumPresent(Intervals(ts)) == ts[|ts| - 1] - ts[0]
  {
    var present := seq(|ts|, i requires 0 <= i < |ts| => Some(ts[i]));
    assert Intervals(ts) == Diff(present);
    DiffSumsToSpan(present);
  }

  /** The thresholds the classifier compares against. */
  datatype Thresholds = Thresholds(desat: int, subthreshold: int, spike: int)

  /** The flags of one sample. */
  datatype SampleFlags = SampleFlags(desat: bool, subDesat: bool, spikeDesat: bool)

  /** `desat`, `sub desat` and `spike desat` of one sample, from its filled SpO2
      and its SpO2 difference; a comparison with a missing value is false. */
  function Classify(fixedSpo2: Option<int>, diffSpo2: Option<int>, th: Thresholds): (f: SampleFlags)
    ensures !(f.desat && f.subDesat)
    ensures fixedSpo2.None? ==> !f.desat && !f.subDesat
    ensures diffSpo2.None? ==> !f.spikeDesat
    ensures fixedSpo2.Some? ==>
      ((f.desat || f.subDesat) <==> fixedSpo2.value < th.desat || fixedSpo2.value < th.subthreshold)
    ensures th.subthreshold <= th.desat ==> !f.subDesat
  {
    SampleFlags(
      fixedSpo2.Some? && fixedSpo2.value < th.desat,
      fixedSpo2.Some? && fixedSpo2.value < th.subthreshold && fixedSpo2.value >= th.desat,
      diffSpo2.Some? && diffSpo2.value <= th.spike)
  }
}
