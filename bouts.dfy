/** Bout pairing (`bout_assembler`) and the sub desat start annotation
    (`flag_subdesat_starts`). */
module Bouts {
  import opened Series
  import opened Edges

  /** The `started subdesat` entry of a bout: absent until the bout is annotated,
      then the sustained sub desat mask value as 0/1, or "unk". */
  datatype StartedSubdesat = Absent | Started(subdesat: bool) | Unk

  /** One bout record: its start and stop timestamps, its duration in seconds and
      its annotation. */
  datatype Bout = Bout(start: int, stop: int, duration: int, startedSubdesat: StartedSubdesat)

  function Min(a: int, b: int): int {
    if a <= b then a else b
  }

  /** The leading stop is discarded when the first start comes after the first stop. */
  function StopOffset(starts: seq<int>, stops: seq<int>): nat {
    if |starts| > 0 && |stops| > 0 && starts[0] > stops[0] then 1 else 0
  }

  /** How many bouts `bout_assembler` pairs up. */
  function PairedCount(starts: seq<int>, stops: seq<int>): nat {
    if |starts| == 0 || |stops| == 0 then 0
    else if starts[0] > stops[0] then Min(|starts|, |stops| - 1)
    else Min(|starts|, |stops|)
  }

  /** Every bout starts before it stops, and each bout stops before the next starts. */
  ghost predicate WellOrdered(bouts: seq<Bout>) {
    && (forall i :: 0 <= i < |bouts| ==> bouts[i].start < bouts[i].stop)
    && (forall i :: 0 <= i < |bouts| - 1 ==> bouts[i].stop < bouts[i + 1].start)
  }

  /** `bout_assembler`: pairs the i-th start with the i-th stop, or with the
      (i+1)-th stop when the first stop precedes the first start (the night
      began inside a bout whose start was not seen). A trailing start without a
      stop is dropped. When starts and stops alternate in time, the bouts are
      proper intervals, disjoint and in increasing order. */
  method BoutAssembler(starts: seq<int>, stops: seq<int>) returns (bouts: seq<Bout>)
    ensures |starts| == 0 || |stops| == 0 ==> bouts == []
    ensures PairedFrom(starts, stops, bouts)
    ensures Interleaved(starts, stops) || Interleaved(stops, starts) ==> WellOrdered(bouts)
  {
    bouts := [];
    if |starts| == 0 || |stops| == 0 {
      return;
    } else if starts[0] > stops[0] {
      for i := 0 to Min(|starts|, |stops| - 1)
        invariant |bouts| == i
        invariant forall k :: 0 <= k < i ==> bouts[k] == Paired(starts, stops, 1, k)
      {
        bouts := bouts + [Paired(starts, stops, 1, i)];
      }
      assert StopOffset(starts, stops) == 1;
    } else {
      for i := 0 to Min(|starts|, |stops|)
        invariant |bouts| == i
        invariant forall k :: 0 <= k < i ==> bouts[k] == Paired(starts, stops, 0, k)
      {
        bouts := bouts + [Paired(starts, stops, 0, i)];
      }
      assert StopOffset(starts, stops) == 0;
    }
    if Interleaved(starts, stops) || Interleaved(stops, starts) {
      PairsOfAlternatingEdgesAreOrdered(starts, stops, bouts);
    }
  }

  /** The bout record pairing the i-th start with the stop `off` places
      further on: its duration is the within-day span between them, and it
      carries no annotation yet. */
  function Paired(starts: seq<int>, stops: seq<int>, off: nat, i: nat): Bout
    requires i < |starts| && i + off < |stops|
  {
    Bout(starts[i], stops[i + off], DaySeconds(stops[i + off] - starts[i]), Absent)
  }

  /** `bouts` holds exactly the pairs `bout_assembler` forms: as many as
      `PairedCount`, the i-th pairing the i-th start with the stop
      `StopOffset` places further on. */
  ghost predicate PairedFrom(starts: seq<int>, stops: seq<int>, bouts: seq<Bout>) {
    && |bouts| == PairedCount(starts, stops)
    && forall i :: 0 <= i < |bouts| ==>
      i < |starts| && i + StopOffset(starts, stops) < |stops|
      && bouts[i] == Paired(starts, stops, StopOffset(starts, stops), i)
  }

  lemma PairsOfAlternatingEdgesAreOrdered(starts: seq<int>, stops: seq<int>, bouts: seq<Bout>)
    requires Interleaved(starts, stops) || Interleaved(stops, starts)
    requires PairedFrom(starts, stops, bouts)
    ensures WellOrdered(bouts)
  {
    var off := StopOffset(starts, stops);
    if |bouts| > 0 {
      assert off == 1 ==> Interleaved(stops, starts);
      assert off == 0 ==> Interleaved(starts, stops);
    }
  }

  /** When the lists come from one mask, the number of bouts is the number of
      starts, less one when the night ends inside a bout: only a bout still
      open at the end of the night is lost (a bout already open at the start of
      the night has no start to count). */
  lemma PairedCountLosesOnlyOpenBout(starts: seq<int>, stops: seq<int>, beginsInside: bool, endsInside: bool)
    requires !beginsInside ==> Interleaved(starts, stops) && |starts| == |stops| + (if endsInside then 1 else 0)
    requires beginsInside ==> Interleaved(stops, starts) && |stops| == |starts| + (if endsInside then 0 else 1)
    ensures PairedCount(starts, stops) == if endsInside && |starts| > 0 then |starts| - 1 else |starts|
  {
  }

  /** The index of the last row whose timestamp is before `t`
      (`night_df[night_df["ts"] < t].iloc[-1]`), if there is one. */
  function LastBefore(ts: seq<int>, t: int): (k: Option<nat>)
    ensures k.Some? ==> k.value < |ts| && ts[k.value] < t && forall j :: k.value < j < |ts| ==> ts[j] >= t
    ensures k.None? ==> forall j :: 0 <= j < |ts| ==> ts[j] >= t
  {
    if |ts| == 0 then None
    else if ts[|ts| - 1] < t then Some(|ts| - 1)
    else LastBefore(ts[..|ts| - 1], t)
  }

  /** The annotation a bout starting at `start` receives: the mask value at the
      last sample before it, or "unk" when the lookup fails. */
  function StartAnnotation(ts: seq<int>, mask: seq<bool>, start: int): (a: StartedSubdesat)
    requires |ts| == |mask|
    ensures a == Unk <==> forall j :: 0 <= j < |ts| ==> ts[j] >= start
  {
    match LastBefore(ts, start)
    case None => Unk
    case Some(k) => Started(mask[k])
  }

  /** `flag_subdesat_starts`: writes the annotation into every bout of the list,
      in place; starts, stops and durations are left as they were. */
  method FlagSubdesatStarts(bouts: array<Bout>, ts: seq<int>, sustainedSubDesat: seq<bool>)
    requires |ts| == |sustainedSubDesat|
    modifies bouts
    ensures forall i :: 0 <= i < bouts.Length ==>
      bouts[i] == old(bouts[i]).(startedSubdesat := StartAnnotation(ts, sustainedSubDesat, old(bouts[i]).start))
    ensures forall i :: 0 <= i < bouts.Length ==>
      bouts[i].start == old(bouts[i].start) && bouts[i].stop == old(bouts[i].stop)
      && bouts[i].duration == old(bouts[i].duration)
  {
    for i := 0 to bouts.Length
      invariant forall k :: 0 <= k < i ==>
        bouts[k] == old(bouts[k]).(startedSubdesat := StartAnnotation(ts, sustainedSubDesat, old(bouts[k]).start))
      invariant forall k :: i <= k < bouts.Length ==> bouts[k] == old(bouts[k])
    {
      bouts[i] := bouts[i].(startedSubdesat := StartAnnotation(ts, sustainedSubDesat, bouts[i].start));
    }
  }

  /** A bout that starts at a row of the night other than the first is never
      "unk": it reads the mask at the row just before its start. */
  lemma StartAnnotationAtRow(ts: seq<int>, mask: seq<bool>, i: nat)
    requires |ts| == |mask| && StrictlyIncreasing(ts)
    requires 0 < i < |ts|
    ensures StartAnnotation(ts, mask, ts[i]) == Started(mask[i - 1])
  {
    var k := LastBefore(ts, ts[i]);
    assert ts[i - 1] < ts[i];
    assert k.Some? && k.value == i - 1;
  }

  /** The durations of a bout list, in order. */
  function Durations(bouts: seq<Bout>): (d: seq<int>)
    ensures |d| == |bouts|
  {
    seq(|bouts|, i requires 0 <= i < |bouts| => bouts[i].duration)
  }

  /** Ordered, disjoint bouts inside a span shorter than a day have exact
      durations, and together last no longer than the span from the first
      start to the last stop. */
  lemma {:induction false} TotalDurationFitsSpan(bouts: seq<Bout>)
    requires WellOrdered(bouts) && |bouts| > 0
    requires bouts[|bouts| - 1].stop - bouts[0].start < 86400
    requires forall i :: 0 <= i < |bouts| ==> bouts[i].duration == DaySeconds(bouts[i].stop - bouts[i].start)
    ensures Sum(Durations(bouts)) <= bouts[|bouts| - 1].stop - bouts[0].start
  {
    var n := |bouts| - 1;
    assert Durations(bouts)[..n] == Durations(bouts[..n]);
    assert bouts[n].duration == bouts[n].stop - bouts[n].start by {
      assert bouts[0].start <= bouts[n].start by {
        OrderedStarts(bouts, 0, n);
      }
    }
    if n > 0 {
      OrderedStarts(bouts, 0, n - 1);
      TotalDurationFitsSpan(bouts[..n]);
    }
  }

  /** In a well-ordered list, later bouts start later. */
  lemma {:induction false} OrderedStarts(bouts: seq<Bout>, i: nat, j: nat)
    requires WellOrdered(bouts) && i <= j < |bouts|
    ensures bouts[i].start <= bouts[j].start
    decreases j - i
  {
    if i < j {
      OrderedStarts(bouts, i + 1, j);
    }
  }
}
