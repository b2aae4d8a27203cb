/** One subject's night, from the raw recording to its summary: conditioning,
    the night filter, classification, the four debounced masks with their bouts,
    the sub desat start annotation, the summary and the night's hour count. */
module Analysis {
  import opened Series
  import opened NightWindow
  import opened Conditioning
  import opened Debounce
  import opened Edges
  import opened Bouts
  import opened DurationBins
  import opened Summary

  /** The analysis settings, in seconds, minutes and hours as named. */
  datatype Settings = Settings(
    nightStart: Option<ClockTime>,
    nightStop: Option<ClockTime>,
    roundUpMinutes: int,
    thresholds: Thresholds,
    minimumInterval: int,
    sustainedInterval: int)

  /** The columns `main` adds to the whole recording before the night filter. */
  datatype Conditioned = Conditioned(
    naFilter: seq<bool>,
    interval: seq<Option<int>>,
    fixedSpo2: seq<Option<int>>,
    fixedPulse: seq<Option<int>>,
    diffSpo2: seq<Option<int>>)

  /** The four bout lists of a night. */
  datatype NightBouts = NightBouts(
    desat: seq<Bout>, subdesat: seq<Bout>, sustainedDesat: seq<Bout>, sustainedSubdesat: seq<Bout>)

  /** A column after `bfill`: every row holds the first present cell at or after it. */
  function Filled(col: seq<Option<int>>): (r: seq<Option<int>>)
    ensures |r| == |col|
  {
    seq(|col|, i requires 0 <= i < |col| => NextPresent(col, i))
  }

  /** Back-fills a copy of a column in an array. */
  method FillColumn(col: seq<Option<int>>) returns (r: seq<Option<int>>)
    ensures r == Filled(col)
  {
    var a := new Option<int>[|col|](i requires 0 <= i < |col| => col[i]);
    assert a[..] == col;
    BackFill(a);
    r := a[..];
  }

  /** The sentinel filter, the intervals, the filled readings and the SpO2
      difference, for the whole recording. */
  method ConditionRecording(ts: seq<int>, spo2: seq<int>, pulse: seq<int>) returns (c: Conditioned)
    requires |spo2| == |ts| && |pulse| == |ts|
    ensures c.naFilter == NaFilter(spo2)
    ensures c.interval == Filled(Intervals(ts))
    ensures c.fixedSpo2 == Filled(MaskSentinel(spo2))
    ensures c.fixedPulse == Filled(MaskSentinel(pulse))
    ensures c.diffSpo2 == Diff(c.fixedSpo2)
  {
    var interval := FillColumn(Intervals(ts));
    var fixedSpo2 := FillColumn(MaskSentinel(spo2));
    var fixedPulse := FillColumn(MaskSentinel(pulse));
    c := Conditioned(NaFilter(spo2), interval, fixedSpo2, fixedPulse, Diff(fixedSpo2));
  }

  /** The `night` column: which samples fall in the night window. */
  function NightMask(ts: seq<int>, s: Settings): (m: seq<bool>)
    ensures |m| == |ts|
  {
    seq(|ts|, i requires 0 <= i < |ts| => NightTimeCheck(ts[i], s.nightStart, s.nightStop))
  }

  /** The flags of every night sample. */
  function ClassifyAll(fixedSpo2: seq<Option<int>>, diffSpo2: seq<Option<int>>, th: Thresholds): (f: seq<SampleFlags>)
    requires |diffSpo2| == |fixedSpo2|
    ensures |f| == |fixedSpo2|
  {
    seq(|fixedSpo2|, i requires 0 <= i < |fixedSpo2| => Classify(fixedSpo2[i], diffSpo2[i], th))
  }

  function DesatColumn(f: seq<SampleFlags>): (c: seq<bool>)
    ensures |c| == |f|
  {
    seq(|f|, i requires 0 <= i < |f| => f[i].desat)
  }

  function SubDesatColumn(f: seq<SampleFlags>): (c: seq<bool>)
    ensures |c| == |f|
  {
    seq(|f|, i requires 0 <= i < |f| => f[i].subDesat)
  }

  function SpikeDesatColumn(f: seq<SampleFlags>): (c: seq<bool>)
    ensures |c| == |f|
  {
    seq(|f|, i requires 0 <= i < |f| => f[i].spikeDesat)
  }

  /** The night's frame as the columns are defined: night rows of the
      conditioned recording, their flags, and each flag's persistent mask. */
  ghost function NightFrameOf(ts: seq<int>, spo2: seq<int>, s: Settings): NightFrame
    requires |spo2| == |ts|
  {
    var night := NightMask(ts, s);
    var fixed := Filled(MaskSentinel(spo2));
    var nts := Where(ts, night);
    var flags := ClassifyAll(Where(fixed, night), Where(Diff(fixed), night), s.thresholds);
    NightFrame(
      nts,
      Where(NaFilter(spo2), night),
      Where(Filled(Intervals(ts)), night),
      DesatColumn(flags),
      SubDesatColumn(flags),
      SpikeDesatColumn(flags),
      Persistent(nts, DesatColumn(flags), s.minimumInterval),
      Persistent(nts, SubDesatColumn(flags), s.minimumInterval),
      Persistent(nts, DesatColumn(flags), s.sustainedInterval),
      Persistent(nts, SubDesatColumn(flags), s.sustainedInterval))
  }

  /** Bouts are lost only when the night ends inside one: the count of starts,
      less one in that case. */
  function BoundedCount(mask: seq<bool>): nat
    requires |mask| > 0
  {
    var n := CountEqual(EdgeColumn(mask), 1);
    if mask[|mask| - 1] && n > 0 then n - 1 else n
  }

  /** `t` is the time of a start of the mask. */
  ghost predicate StartsAt(ts: seq<int>, mask: seq<bool>, t: int)
    requires |ts| == |mask|
  {
    exists k :: IsStart(mask, k) && ts[k] == t
  }

  /** `t` is the time of a stop of the mask. */
  ghost predicate StopsAt(ts: seq<int>, mask: seq<bool>, t: int)
    requires |ts| == |mask|
  {
    exists k :: IsStop(mask, k) && ts[k] == t
  }

  /** What the bouts of a mask are: ordered, disjoint, each running from a
      start of the mask to a stop of it, with its duration, and as many as
      `BoundedCount` says. */
  ghost predicate BoutsOfMask(ts: seq<int>, mask: seq<bool>, bouts: seq<Bout>)
    requires |ts| == |mask| > 0
  {
    && WellOrdered(bouts)
    && |bouts| == BoundedCount(mask)
    && (forall i :: 0 <= i < |bouts| ==> StartsAt(ts, mask, bouts[i].start))
    && (forall i :: 0 <= i < |bouts| ==> StopsAt(ts, mask, bouts[i].stop))
    && (forall i :: 0 <= i < |bouts| ==> bouts[i].duration == DaySeconds(bouts[i].stop - bouts[i].start))
  }

  /** The debounce, edge and pairing steps for one condition and one window. */
  method MaskBouts(ts: seq<int>, c: seq<bool>, w: int) returns (persistent: seq<bool>, bouts: seq<Bout>)
    requires |ts| == |c| > 0 && StrictlyIncreasing(ts)
    ensures persistent == Persistent(ts, c, w)
    ensures BoutsOfMask(ts, persistent, bouts)
    ensures forall i :: 0 <= i < |bouts| ==> bouts[i].startedSubdesat == Absent
  {
    var trimmed;
    trimmed, persistent := DebounceMask(ts, c, w);
    var starts, stops := BoutEdges(ts, persistent);
    bouts := BoutAssembler(starts, stops);
    PairedEdgesAreBoutsOfMask(ts, persistent, starts, stops, bouts);
  }

  /** The bouts `BoutAssembler` pairs from the edge lists of a mask are bouts of
      that mask. */
  lemma PairedEdgesAreBoutsOfMask(ts: seq<int>, m: seq<bool>, starts: seq<int>, stops: seq<int>, bouts: seq<Bout>)
    requires |ts| == |m| > 0
    requires forall t :: t in starts ==> StartsAt(ts, m, t)
    requires forall t :: t in stops ==> StopsAt(ts, m, t)
    requires |starts| == CountEqual(EdgeColumn(m), 1)
    requires !m[0] ==> Interleaved(starts, stops) && |starts| == |stops| + (if m[|m| - 1] then 1 else 0)
    requires m[0] ==> Interleaved(stops, starts) && |stops| == |starts| + (if m[|m| - 1] then 0 else 1)
    requires PairedFrom(starts, stops, bouts)
    requires Interleaved(starts, stops) || Interleaved(stops, starts) ==> WellOrdered(bouts)
    ensures BoutsOfMask(ts, m, bouts)
  {
    PairedCountIsBoundedCount(m, starts, stops);
    PairedBoutsSitOnEdges(ts, m, starts, stops, bouts);
    assert Interleaved(starts, stops) || Interleaved(stops, starts);
  }

  lemma PairedCountIsBoundedCount(m: seq<bool>, starts: seq<int>, stops: seq<int>)
    requires |m| > 0
    requires |starts| == CountEqual(EdgeColumn(m), 1)
    requires !m[0] ==> Interleaved(starts, stops) && |starts| == |stops| + (if m[|m| - 1] then 1 else 0)
    requires m[0] ==> Interleaved(stops, starts) && |stops| == |starts| + (if m[|m| - 1] then 0 else 1)
    ensures PairedCount(starts, stops) == BoundedCount(m)
  {
    PairedCountLosesOnlyOpenBout(starts, stops, m[0], m[|m| - 1]);
  }

  lemma PairedBoutsSitOnEdges(ts: seq<int>, m: seq<bool>, starts: seq<int>, stops: seq<int>, bouts: seq<Bout>)
    requires |ts| == |m| > 0
    requires forall t :: t in starts ==> StartsAt(ts, m, t)
    requires forall t :: t in stops ==> StopsAt(ts, m, t)
    requires PairedFrom(starts, stops, bouts)
    ensures forall i :: 0 <= i < |bouts| ==> StartsAt(ts, m, bouts[i].start) && StopsAt(ts, m, bouts[i].stop)
    ensures forall i :: 0 <= i < |bouts| ==> bouts[i].duration == DaySeconds(bouts[i].stop - bouts[i].start)
  {
    forall i | 0 <= i < |bouts| ensures StartsAt(ts, m, bouts[i].start) && StopsAt(ts, m, bouts[i].stop) {
      assert bouts[i].start == starts[i] && starts[i] in starts;
      assert bouts[i].stop == stops[i + StopOffset(starts, stops)];
      assert stops[i + StopOffset(starts, stops)] in stops;
    }
  }

  /** `flag_subdesat_starts` applied to a bout list through an array. Bouts that
      start at an edge of the night's mask never get "unk". */
  method AnnotateStarts(ts: seq<int>, mask: seq<bool>, sustainedSubDesat: seq<bool>, bouts: seq<Bout>)
    returns (annotated: seq<Bout>)
    requires |ts| == |mask| == |sustainedSubDesat| > 0 && StrictlyIncreasing(ts)
    requires BoutsOfMask(ts, mask, bouts)
    ensures Annotated(ts, sustainedSubDesat, bouts, annotated)
    ensures BoutsOfMask(ts, mask, annotated)
  {
    var a := new Bout[|bouts|](i requires 0 <= i < |bouts| => bouts[i]);
    assert a[..] == bouts;
    FlagSubdesatStarts(a, ts, sustainedSubDesat);
    annotated := a[..];
    forall i | 0 <= i < |bouts| ensures annotated[i].startedSubdesat.Started? {
      assert StartsAt(ts, mask, bouts[i].start);
      var k :| IsStart(mask, k) && ts[k] == bouts[i].start;
      StartAnnotationAtRow(ts, sustainedSubDesat, k);
    }
    AnnotationKeepsBouts(ts, mask, bouts, annotated);
  }

  /** `annotated` is `bouts` with each bout's annotation filled in from the
      sustained sub desat mask, and none of them is "unk". */
  ghost predicate Annotated(ts: seq<int>, sustainedSubDesat: seq<bool>, bouts: seq<Bout>, annotated: seq<Bout>)
    requires |ts| == |sustainedSubDesat|
  {
    && |annotated| == |bouts|
    && (forall i :: 0 <= i < |bouts| ==>
         annotated[i] == bouts[i].(startedSubdesat := StartAnnotation(ts, sustainedSubDesat, bouts[i].start)))
    && (forall i :: 0 <= i < |bouts| ==> annotated[i].startedSubdesat.Started?)
  }

  lemma AnnotationKeepsBouts(ts: seq<int>, mask: seq<bool>, bouts: seq<Bout>, annotated: seq<Bout>)
    requires |ts| == |mask| > 0
    requires BoutsOfMask(ts, mask, bouts) && |annotated| == |bouts|
    requires forall i :: 0 <= i < |bouts| ==>
      annotated[i].start == bouts[i].start && annotated[i].stop == bouts[i].stop
      && annotated[i].duration == bouts[i].duration
    ensures BoutsOfMask(ts, mask, annotated)
  {
  }

  /** The rows of the night, in order, with their conditioned columns and flags. */
  method SelectNight(ts: seq<int>, spo2: seq<int>, pulse: seq<int>, s: Settings)
    returns (nts: seq<int>, naFilter: seq<bool>, interval: seq<Option<int>>, flags: seq<SampleFlags>)
    requires |spo2| == |ts| && |pulse| == |ts| && StrictlyIncreasing(ts)
    requires exists i :: 0 <= i < |ts| && NightTimeCheck(ts[i], s.nightStart, s.nightStop)
    ensures |nts| > 0 && StrictlyIncreasing(nts)
    ensures nts == Where(ts, NightMask(ts, s))
    ensures naFilter == Where(NaFilter(spo2), NightMask(ts, s))
    ensures interval == Where(Filled(Intervals(ts)), NightMask(ts, s))
    ensures var fixed := Filled(MaskSentinel(spo2));
      flags == ClassifyAll(Where(fixed, NightMask(ts, s)), Where(Diff(fixed), NightMask(ts, s)), s.thresholds)
  {
    var c := ConditionRecording(ts, spo2, pulse);
    var nightMask := NightMask(ts, s);
    nts := Where(ts, nightMask);
    WhereKeepsOrder(ts, nightMask);
    var k :| 0 <= k < |ts| && NightTimeCheck(ts[k], s.nightStart, s.nightStop);
    assert nightMask[k];
    naFilter := Where(c.naFilter, nightMask);
    interval := Where(c.interval, nightMask);
    flags := ClassifyAll(Where(c.fixedSpo2, nightMask), Where(c.diffSpo2, nightMask), s.thresholds);
  }

  /** The four bout lists of a night frame: each belongs to its mask, and the
      desat lists are annotated from the sustained sub desat mask. */
  ghost predicate NightBoutsOf(night: NightFrame, bouts: NightBouts)
    requires night.Aligned() && |night.ts| > 0
  {
    && BoutsOfMask(night.ts, night.minDurDesat, bouts.desat)
    && BoutsOfMask(night.ts, night.minDurSubDesat, bouts.subdesat)
    && BoutsOfMask(night.ts, night.sustainedDurDesat, bouts.sustainedDesat)
    && BoutsOfMask(night.ts, night.sustainedDurSubDesat, bouts.sustainedSubdesat)
    && (forall i :: 0 <= i < |bouts.desat| ==>
         bouts.desat[i].startedSubdesat == StartAnnotation(night.ts, night.sustainedDurSubDesat, bouts.desat[i].start)
         && bouts.desat[i].startedSubdesat != Unk)
    && (forall i :: 0 <= i < |bouts.sustainedDesat| ==>
         bouts.sustainedDesat[i].startedSubdesat
           == StartAnnotation(night.ts, night.sustainedDurSubDesat, bouts.sustainedDesat[i].start)
         && bouts.sustainedDesat[i].startedSubdesat != Unk)
  }

  /** The debounced masks of the night and their bouts. */
  method NightMasks(nts: seq<int>, naFilter: seq<bool>, interval: seq<Option<int>>, flags: seq<SampleFlags>, s: Settings)
    returns (night: NightFrame, bouts: NightBouts)
    requires |nts| == |naFilter| == |interval| == |flags| > 0 && StrictlyIncreasing(nts)
    ensures night.Aligned()
    ensures var desat, subDesat := DesatColumn(flags), SubDesatColumn(flags);
      night == NightFrame(nts, naFilter, interval, desat, subDesat, SpikeDesatColumn(flags),
        Persistent(nts, desat, s.minimumInterval), Persistent(nts, subDesat, s.minimumInterval),
        Persistent(nts, desat, s.sustainedInterval), Persistent(nts, subDesat, s.sustainedInterval))
    ensures NightBoutsOf(night, bouts)
  {
    var desat, subDesat := DesatColumn(flags), SubDesatColumn(flags);
    var minDurDesat, desatBouts := MaskBouts(nts, desat, s.minimumInterval);
    var minDurSubDesat, subdesatBouts := MaskBouts(nts, subDesat, s.minimumInterval);
    var sustainedDurDesat, sustainedDesatBouts := MaskBouts(nts, desat, s.sustainedInterval);
    var sustainedDurSubDesat, sustainedSubdesatBouts := MaskBouts(nts, subDesat, s.sustainedInterval);
    var annotatedDesat := AnnotateStarts(nts, minDurDesat, sustainedDurSubDesat, desatBouts);
    var annotatedSustainedDesat := AnnotateStarts(nts, sustainedDurDesat, sustainedDurSubDesat, sustainedDesatBouts);
    night := NightFrame(nts, naFilter, interval, desat, subDesat, SpikeDesatColumn(flags),
      minDurDesat, minDurSubDesat, sustainedDurDesat, sustainedDurSubDesat);
    bouts := NightBouts(annotatedDesat, subdesatBouts, annotatedSustainedDesat, sustainedSubdesatBouts);
  }

  /** `summary` and `hours` are the summary of a non-empty night frame and of
      bout lists belonging to its masks, and the hour count of its span. */
  ghost predicate SummaryOfNight(night: NightFrame, bouts: NightBouts, recordingFiles: nat, s: Settings,
      summary: NightSummary, hours: int)
  {
    && night.Aligned() && |night.ts| > 0
    && NightBoutsOf(night, bouts)
    && var first, last := night.ts[0], night.ts[|night.ts| - 1];
    && summary == PrepareOutputDict(first, last, recordingFiles, last - first, night,
         bouts.desat, bouts.subdesat, bouts.sustainedDesat, bouts.sustainedSubdesat)
    && hours == DurationHours(last - first, s.roundUpMinutes)
  }

  /** `summary` and `hours` are what the program computes for the recording:
      the summary of its night frame (`NightFrameOf`) and of the bout lists of
      that frame's masks, and the hour count of the night's span. */
  ghost predicate SummaryOfRecording(ts: seq<int>, spo2: seq<int>, recordingFiles: nat, s: Settings,
      summary: NightSummary, hours: int)
    requires |spo2| == |ts|
  {
    exists bouts :: SummaryOfNight(NightFrameOf(ts, spo2, s), bouts, recordingFiles, s, summary, hours)
  }

  /** A recording's hour count is the one its night frame's span gives,
      whichever bout lists witness its summary. */
  lemma RecordingFixesHours(ts: seq<int>, spo2: seq<int>, recordingFiles: nat, s: Settings,
      summary: NightSummary, hours: int)
    requires |spo2| == |ts|
    requires SummaryOfRecording(ts, spo2, recordingFiles, s, summary, hours)
    ensures var night := NightFrameOf(ts, spo2, s);
      |night.ts| > 0 && hours == DurationHours(night.ts[|night.ts| - 1] - night.ts[0], s.roundUpMinutes)
  {
    var bouts :| SummaryOfNight(NightFrameOf(ts, spo2, s), bouts, recordingFiles, s, summary, hours);
  }

  /** The results `AnalyseNight` promises are the recording's summary and hour count. */
  lemma AnalysedNightSummarisesRecording(ts: seq<int>, spo2: seq<int>, recordingFiles: nat, s: Settings,
      night: NightFrame, bouts: NightBouts, summary: NightSummary, hours: int)
    requires |spo2| == |ts|
    requires night.Aligned() && |night.ts| > 0
    requires night == NightFrameOf(ts, spo2, s)
    requires NightBoutsOf(night, bouts)
    requires var first, last := night.ts[0], night.ts[|night.ts| - 1];
      && summary == PrepareOutputDict(first, last, recordingFiles, last - first, night,
           bouts.desat, bouts.subdesat, bouts.sustainedDesat, bouts.sustainedSubdesat)
      && hours == DurationHours(last - first, s.roundUpMinutes)
    ensures SummaryOfRecording(ts, spo2, recordingFiles, s, summary, hours)
  {
    assert SummaryOfNight(night, bouts, recordingFiles, s, summary, hours);
  }

  /** One night from the raw recording: its frame (the one `NightFrameOf`
      defines), its four bout lists, its summary (`PrepareOutputDict` of the
      frame and the bouts) and its hour count. */
  method AnalyseNight(ts: seq<int>, spo2: seq<int>, pulse: seq<int>, recordingFiles: nat, s: Settings)
    returns (night: NightFrame, bouts: NightBouts, summary: NightSummary, hours: int)
    requires |spo2| == |ts| && |pulse| == |ts| && StrictlyIncreasing(ts)
    requires exists i :: 0 <= i < |ts| && NightTimeCheck(ts[i], s.nightStart, s.nightStop)
    ensures night.Aligned() && |night.ts| > 0 && StrictlyIncreasing(night.ts)
    ensures night == NightFrameOf(ts, spo2, s)
    ensures NightBoutsOf(night, bouts)
    ensures var first, last := night.ts[0], night.ts[|night.ts| - 1];
      && summary == PrepareOutputDict(first, last, recordingFiles, last - first, night,
           bouts.desat, bouts.subdesat, bouts.sustainedDesat, bouts.sustainedSubdesat)
      && hours == DurationHours(last - first, s.roundUpMinutes)
  {
    var nts, naFilter, interval, flags := SelectNight(ts, spo2, pulse, s);
    night, bouts := NightMasks(nts, naFilter, interval, flags, s);
    SelectedNightIsFrame(ts, spo2, s, nts, naFilter, interval, flags, night);
    summary, hours := Summarise(night, bouts, recordingFiles, s);
  }

  /** The summary and hour count of an analysed night, from its first and last
      timestamps. */
  method Summarise(night: NightFrame, bouts: NightBouts, recordingFiles: nat, s: Settings)
    returns (summary: NightSummary, hours: int)
    requires night.Aligned() && |night.ts| > 0
    ensures var first, last := night.ts[0], night.ts[|night.ts| - 1];
      && summary == PrepareOutputDict(first, last, recordingFiles, last - first, night,
           bouts.desat, bouts.subdesat, bouts.sustainedDesat, bouts.sustainedSubdesat)
      && hours == DurationHours(last - first, s.roundUpMinutes)
  {
    var first, last := night.ts[0], night.ts[|night.ts| - 1];
    summary := PrepareOutputDict(first, last, recordingFiles, last - first, night,
      bouts.desat, bouts.subdesat, bouts.sustainedDesat, bouts.sustainedSubdesat);
    hours := DurationHours(last - first, s.roundUpMinutes);
  }

  lemma SelectedNightIsFrame(ts: seq<int>, spo2: seq<int>, s: Settings,
      nts: seq<int>, naFilter: seq<bool>, interval: seq<Option<int>>, flags: seq<SampleFlags>, night: NightFrame)
    requires |spo2| == |ts|
    requires nts == Where(ts, NightMask(ts, s))
    requires naFilter == Where(NaFilter(spo2), NightMask(ts, s))
    requires interval == Where(Filled(Intervals(ts)), NightMask(ts, s))
    requires var fixed := Filled(MaskSentinel(spo2));
      flags == ClassifyAll(Where(fixed, NightMask(ts, s)), Where(Diff(fixed), NightMask(ts, s)), s.thresholds)
    requires var desat, subDesat := DesatColumn(flags), SubDesatColumn(flags);
      night == NightFrame(nts, naFilter, interval, desat, subDesat, SpikeDesatColumn(flags),
        Persistent(nts, desat, s.minimumInterval), Persistent(nts, subDesat, s.minimumInterval),
        Persistent(nts, desat, s.sustainedInterval), Persistent(nts, subDesat, s.sustainedInterval))
    ensures night == NightFrameOf(ts, spo2, s)
  {
  }
}
