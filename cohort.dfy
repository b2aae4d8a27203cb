/** The night duration bins of `main`: a table keyed by hour threshold, built
    once from the settings, into which each subject's summary is filed under
    the bin its night length selects. */
module Cohort {
  import opened Series
  import opened NightWindow
  import opened DurationBins
  import opened Summary
  import opened Analysis

  class NightDurationBins {
    /** `output_dict["night_duration_bins"]`: threshold -> subject id -> summary. */
    var bins: map<int, map<string, NightSummary>>
    /** The thresholds in the order they were added (the dictionary's key order). */
    var order: seq<int>

    ghost predicate Valid()
      reads this
    {
      && (forall k :: k in bins <==> k in order)
      && 0 in bins
    }

    /** Adds `range(minimumHours, completeHours, binSizeHours)`, then the
        complete-night threshold and the 0 hour threshold if they are missing,
        each with no subjects yet. */
    constructor (minimumHours: int, completeHours: int, binSizeHours: int)
      requires binSizeHours != 0
      ensures Valid()
      ensures forall k :: k in bins <==>
        InPyRange(k, minimumHours, completeHours, binSizeHours) || k == completeHours || k == 0
      ensures forall k :: k in bins ==> bins[k] == map[]
    {
      var table: map<int, map<string, NightSummary>> := map[];
      var keys: seq<int> := [];
      var i := minimumHours;
      while (binSizeHours > 0 && i < completeHours) || (binSizeHours < 0 && i > completeHours)
        invariant keys + PyRange(i, completeHours, binSizeHours) == PyRange(minimumHours, completeHours, binSizeHours)
        invariant forall k :: k in table <==> k in keys
        invariant forall k :: k in table ==> table[k] == map[]
        decreases if binSizeHours > 0 then completeHours - i else i - completeHours
      {
        table := table[i := map[]];
        keys := keys + [i];
        i := i + binSizeHours;
      }
      assert keys == PyRange(minimumHours, completeHours, binSizeHours);
      forall k ensures k in table <==> InPyRange(k, minimumHours, completeHours, binSizeHours) {
        PyRangeMembership(k, minimumHours, completeHours, binSizeHours);
      }
      if completeHours !in table {
        table := table[completeHours := map[]];
        keys := keys + [completeHours];
      }
      if 0 !in table {
        table := table[0 := map[]];
        keys := keys + [0];
      }
      bins := table;
      order := keys;
    }

    /** `identify_bin(duration_hours, list(bins.keys()))`: the greatest
        threshold not above `hours`; one exists for every `hours` >= 0. */
    method Identify(hours: int) returns (bin: Option<int>)
      requires Valid()
      ensures bin.Some? <==> exists k :: k in bins && k <= hours
      ensures bin.Some? ==>
        && bin.value in bins && bin.value <= hours
        && forall k :: k in bins && k <= hours ==> k <= bin.value
      ensures hours >= 0 ==> bin.Some?
    {
      var thresholds := order;
      var keys := new int[|thresholds|](i requires 0 <= i < |thresholds| => thresholds[i]);
      assert keys[..] == order;
      bin := IdentifyBin(hours, keys);
      forall k | k in bins ensures k in keys[..] {
        assert k in multiset(order);
      }
      if bin.Some? {
        assert bin.value in multiset(keys[..]);
        assert bin.value in order && bin.value in bins;
      } else {
        forall k | k in bins ensures k > hours {
          var j :| 0 <= j < keys.Length && keys[j] == k;
        }
      }
    }

    /** One subject of the loop in `main`: analyses the night, picks the bin of
        its hour count and files the summary there under the subject's id. When
        no bin is found the table is left as it was. */
    method AddSubject(subjectId: string, ts: seq<int>, spo2: seq<int>, pulse: seq<int>, recordingFiles: nat, s: Settings)
      returns (summary: NightSummary, hours: int, bin: Option<int>)
      requires Valid()
      requires |spo2| == |ts| && |pulse| == |ts| && StrictlyIncreasing(ts)
      requires exists i :: 0 <= i < |ts| && NightTimeCheck(ts[i], s.nightStart, s.nightStop)
      modifies this
      ensures Valid() && order == old(order)
      ensures bin.Some? ==>
        && bin.value in old(bins) && bin.value <= hours
        && (forall k :: k in old(bins) && k <= hours ==> k <= bin.value)
        && bins == old(bins)[bin.value := old(bins)[bin.value][subjectId := summary]]
      ensures bin.None? ==> hours < 0 && bins == old(bins)
      ensures SummaryOfRecording(ts, spo2, recordingFiles, s, summary, hours)
    {
      var night, bouts;
      night, bouts, summary, hours := AnalyseNight(ts, spo2, pulse, recordingFiles, s);
      AnalysedNightSummarisesRecording(ts, spo2, recordingFiles, s, night, bouts, summary, hours);
      bin := File(subjectId, summary, hours);
    }

    /** Files `summary` under `subjectId` in the bin `hours` selects, if any. */
    method File(subjectId: string, summary: NightSummary, hours: int) returns (bin: Option<int>)
      requires Valid()
      modifies this
      ensures Valid() && order == old(order)
      ensures bin.Some? ==>
        && bin.value in old(bins) && bin.value <= hours
        && (forall k :: k in old(bins) && k <= hours ==> k <= bin.value)
        && bins == old(bins)[bin.value := old(bins)[bin.value][subjectId := summary]]
      ensures bin.None? ==> hours < 0 && bins == old(bins)
    {
      bin := Identify(hours);
      if bin.Some? {
        bins := bins[bin.value := bins[bin.value][subjectId := summary]];
      }
    }
  }
}
