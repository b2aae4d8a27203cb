/** The per-night summary (`prepare_output_dict`): the recording span, the
    interval sums over each flag, the edge counts, and the count, total and mean
    of each bout list. */
module Summary {
  import opened Series
  import opened Edges
  import opened Bouts

  /** The columns of the night's frame that the summary reads, one cell per
      sample of the night. */
  datatype NightFrame = NightFrame(
    ts: seq<int>,
    naFilter: seq<bool>,
    interval: seq<Option<int>>,
    desat: seq<bool>,
    subDesat: seq<bool>,
    spikeDesat: seq<bool>,
    minDurDesat: seq<bool>,
    minDurSubDesat: seq<bool>,
    sustainedDurDesat: seq<bool>,
    sustainedDurSubDesat: seq<bool>)
  {
    predicate Aligned() {
      && |naFilter| == |ts| && |interval| == |ts|
      && |desat| == |ts| && |subDesat| == |ts| && |spikeDesat| == |ts|
      && |minDurDesat| == |ts| && |minDurSubDesat| == |ts|
      && |sustainedDurDesat| == |ts| && |sustainedDurSubDesat| == |ts|
    }
  }

  /** The "duration recording" text: hours, minutes and seconds of the span's
      within-day part. */
  datatype DurationText = DurationText(hours: int, minutes: int, seconds: int)

  /** Count, total and mean duration of one bout list. */
  datatype BoutStats = BoutStats(count: nat, duration: int, mean: Option<real>)

  datatype NightSummary = NightSummary(
    nightStart: int,
    nightStop: int,
    recordingFiles: nat,
    durationRecording: DurationText,
    durationArtifact: int,
    maximumRecordingGap: Option<int>,
    anyDurationDesat: int,
    minDurationDesat: int,
    countMinDurationDesat: nat,
    sustainedDurationDesat: int,
    countSustainedDurationDesat: nat,
    anyDurationSubDesat: int,
    minDurationSubDesat: int,
    sustainedDurationSubDesat: int,
    countSpikeDesat: nat,
    boundedDesat: BoutStats,
    boundedDesatFromSubdesat: nat,
    boundedSubdesat: BoutStats,
    boundedSubdesatMedian: Option<real>,
    boundedSustainedDesat: BoutStats,
    boundedSustainedDesatFromSubdesat: nat,
    boundedSustainedSubdesat: BoutStats,
    boundedSustainedSubdesatMedian: Option<real>)

  /** Splits the within-day part of a span into hours, minutes and seconds. */
  function DurationRecording(duration: int): (t: DurationText)
    ensures t.hours * 3600 + t.minutes * 60 + t.seconds == DaySeconds(duration)
    ensures 0 <= t.hours < 24 && 0 <= t.minutes < 60 && 0 <= t.seconds < 60
  {
    var s := DaySeconds(duration);
    DurationText(s / 3600, (s % 3600) / 60, s % 60)
  }

  /** `np.mean` of a list of integers; the mean of an empty list is NaN. */
  function Mean(xs: seq<int>): (m: Option<real>)
    ensures m.None? <==> |xs| == 0
    ensures m.Some? ==> m.value * (|xs| as real) == Sum(xs) as real
  {
    if |xs| == 0 then None else Some(Sum(xs) as real / (|xs| as real))
  }

  /** Count, `np.sum` and `np.mean` of the bout durations. */
  function Stats(bouts: seq<Bout>): (s: BoutStats)
    ensures s.count == |bouts|
    ensures bouts == [] ==> s.duration == 0 && s.mean.None?
  {
    BoutStats(|bouts|, Sum(Durations(bouts)), Mean(Durations(bouts)))
  }

  /** `i == 1` for a bout record `i`: a dictionary never equals an integer. */
  predicate RecordEqualsOne(b: Bout) {
    false
  }

  /** `len([... for i in bouts if i == 1])`: the bouts whose whole record equals 1. */
  function FromSubdesatCount(bouts: seq<Bout>): (n: nat)
    ensures n <= |bouts|
  {
    if bouts == [] then 0
    else FromSubdesatCount(bouts[..|bouts| - 1]) + (if RecordEqualsOne(bouts[|bouts| - 1]) then 1 else 0)
  }

  /** The interval column summed over the samples whose flag holds. */
  function FlaggedTime(night: NightFrame, flag: seq<bool>): int
    requires night.Aligned() && |flag| == |night.ts|
  {
    SumPresent(Where(night.interval, flag))
  }

  /** The integer fields of `prepare_output_dict` and the bout means, with the
      two "median" fields of the sub desat lists taken as means. */
  function PrepareOutputDict(
    nightStart: int, nightStop: int, recordingFiles: nat, duration: int, night: NightFrame,
    desatBouts: seq<Bout>, subdesatBouts: seq<Bout>,
    sustainedDesatBouts: seq<Bout>, sustainedSubdesatBouts: seq<Bout>): (r: NightSummary)
    requires night.Aligned()
    ensures r.durationRecording.hours * 3600 + r.durationRecording.minutes * 60
      + r.durationRecording.seconds == DaySeconds(duration)
    ensures r.maximumRecordingGap.None? <==> forall i :: 0 <= i < |night.ts| ==> night.interval[i].None?
    ensures r.maximumRecordingGap.Some? ==> forall i :: 0 <= i < |night.ts| && night.interval[i].Some? ==>
      night.interval[i].value <= r.maximumRecordingGap.value
    ensures r.countSpikeDesat <= |night.ts|
    ensures r.countSpikeDesat == 0 <==> forall i :: 0 <= i < |night.ts| ==> !night.spikeDesat[i]
    ensures r.boundedDesat.count == |desatBouts| && r.boundedSubdesat.count == |subdesatBouts|
    ensures r.boundedSustainedDesat.count == |sustainedDesatBouts|
    ensures r.boundedSustainedSubdesat.count == |sustainedSubdesatBouts|
    ensures r.boundedSubdesatMedian == r.boundedSubdesat.mean
    ensures r.boundedSustainedSubdesatMedian == r.boundedSustainedSubdesat.mean
  {
    var subdesat := Stats(subdesatBouts);
    var sustainedSubdesat := Stats(sustainedSubdesatBouts);
    NightSummary(
      nightStart,
      nightStop,
      recordingFiles,
      DurationRecording(duration),
      FlaggedTime(night, night.naFilter),
      MaxPresent(night.interval),
      FlaggedTime(night, night.desat),
      FlaggedTime(night, night.minDurDesat),
      CountEqual(EdgeColumn(night.minDurDesat), 1),
      FlaggedTime(night, night.sustainedDurDesat),
      CountEqual(EdgeColumn(night.sustainedDurDesat), 1),
      FlaggedTime(night, night.subDesat),
      FlaggedTime(night, night.minDurSubDesat),
      FlaggedTime(night, night.sustainedDurSubDesat),
      CountTrue(night.spikeDesat),
      Stats(desatBouts),
      FromSubdesatCount(desatBouts),
      subdesat,
      subdesat.mean,
      Stats(sustainedDesatBouts),
      FromSubdesatCount(sustainedDesatBouts),
      sustainedSubdesat,
      sustainedSubdesat.mean)
  }

  /** The "from subdesat" counts are always 0, whatever the bouts' annotations. */
  lemma {:induction false} FromSubdesatCountIsZero(bouts: seq<Bout>)
    ensures FromSubdesatCount(bouts) == 0
  {
    if bouts != [] {
      FromSubdesatCountIsZero(bouts[..|bouts| - 1]);
    }
  }

  /** Both "from subdesat" fields of a summary are 0. */
  lemma SummaryFromSubdesatIsZero(
    nightStart: int, nightStop: int, recordingFiles: nat, duration: int, night: NightFrame,
    desatBouts: seq<Bout>, subdesatBouts: seq<Bout>,
    sustainedDesatBouts: seq<Bout>, sustainedSubdesatBouts: seq<Bout>)
    requires night.Aligned()
    ensures var r := PrepareOutputDict(nightStart, nightStop, recordingFiles, duration, night,
      desatBouts, subdesatBouts, sustainedDesatBouts, sustainedSubdesatBouts);
      r.boundedDesatFromSubdesat == 0 && r.boundedSustainedDesatFromSubdesat == 0
  {
    FromSubdesatCountIsZero(desatBouts);
    FromSubdesatCountIsZero(sustainedDesatBouts);
  }

  /** Every flag on the same sample's other side. */
  function Negate(flags: seq<bool>): (r: seq<bool>)
    ensures |r| == |flags| && forall i :: 0 <= i < |flags| ==> r[i] == !flags[i]
  {
    seq(|flags|, i requires 0 <= i < |flags| => !flags[i])
  }

  lemma SumPresentAppend(col: seq<Option<int>>, x: Option<int>)
    ensures SumPresent(col + [x]) == SumPresent(col) + (if x.Some? then x.value else 0)
  {
    assert (col + [x])[..|col|] == col;
  }

  /** The time under a flag and the time outside it add up to the total of the
      interval column. */
  lemma {:induction false} FlaggedTimePartitions(col: seq<Option<int>>, keep: seq<bool>)
    requires |col| == |keep|
    ensures SumPresent(Where(col, keep)) + SumPresent(Where(col, Negate(keep))) == SumPresent(col)
  {
    if col != [] {
      var n := |col| - 1;
      assert Negate(keep)[..n] == Negate(keep[..n]);
      FlaggedTimePartitions(col[..n], keep[..n]);
      var a, b := Where(col[..n], keep[..n]), Where(col[..n], Negate(keep[..n]));
      if keep[n] {
        assert Where(col, keep) == a + [col[n]];
        assert Where(col, Negate(keep)) == b + [];
        SumPresentAppend(a, col[n]);
      } else {
        assert Where(col, keep) == a + [];
        assert Where(col, Negate(keep)) == b + [col[n]];
        SumPresentAppend(b, col[n]);
      }
      assert b + [] == b && a + [] == a;
    }
  }

  /** With non-negative intervals, the time under a flag is at most the total time. */
  lemma FlaggedTimeAtMostTotal(col: seq<Option<int>>, keep: seq<bool>)
    requires |col| == |keep|
    requires forall i :: 0 <= i < |col| && col[i].Some? ==> col[i].value >= 0
    ensures 0 <= SumPresent(Where(col, keep)) <= SumPresent(col)
  {
    FlaggedTimePartitions(col, keep);
    NonNegativeSum(Where(col, keep));
    NonNegativeSum(Where(col, Negate(keep)));
  }

  lemma {:induction false} NonNegativeSum(col: seq<Option<int>>)
    requires forall x :: x in col && x.Some? ==> x.value >= 0
    ensures SumPresent(col) >= 0
  {
    if col != [] {
      assert col[|col| - 1] in col;
      NonNegativeSum(col[..|col| - 1]);
    }
  }

  /** A sum of n values within [lo, hi] lies within [n * lo, n * hi]. */
  lemma {:induction false} SumWithin(xs: seq<int>, lo: int, hi: int)
    requires forall i :: 0 <= i < |xs| ==> lo <= xs[i] <= hi
    ensures |xs| * lo <= Sum(xs) <= |xs| * hi
  {
    if xs != [] {
      var n := |xs| - 1;
      SumWithin(xs[..n], lo, hi);
      assert |xs| * lo == n * lo + lo && |xs| * hi == n * hi + hi;
    }
  }

  /** The mean of values within [lo, hi] lies within [lo, hi]. */
  lemma MeanWithin(xs: seq<int>, lo: int, hi: int)
    requires |xs| > 0
    requires forall i :: 0 <= i < |xs| ==> lo <= xs[i] <= hi
    ensures lo as real <= Mean(xs).value <= hi as real
  {
    SumWithin(xs, lo, hi);
    var n := |xs|;
    assert (n * lo) as real == n as real * lo as real;
    assert (n * hi) as real == n as real * hi as real;
    QuotientWithin(Sum(xs) as real, n as real, lo as real, hi as real);
  }

  lemma QuotientWithin(s: real, n: real, lo: real, hi: real)
    requires n > 0.0 && n * lo <= s <= n * hi
    ensures lo <= s / n <= hi
  {
    assert (s / n - lo) * n == s - n * lo;
    assert (hi - s / n) * n == n * hi - s;
  }

  /** Bout durations are within-day second counts, so each list's mean duration
      is one too. */
  lemma BoutMeanIsWithinADay(bouts: seq<Bout>)
    requires |bouts| > 0
    requires forall i :: 0 <= i < |bouts| ==> bouts[i].duration == DaySeconds(bouts[i].stop - bouts[i].start)
    ensures 0.0 <= Stats(bouts).mean.value < 86400.0
  {
    MeanWithin(Durations(bouts), 0, 86399);
  }
}
