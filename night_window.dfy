/** The clock-time test that decides which samples belong to the night
    (`night_time_check`). Times of day are seconds since midnight. */
module NightWindow {
  import opened Series

  const SecondsPerDay: int := 86400

  /** A `datetime.time` value: seconds since midnight. */
  type ClockTime = t: int | 0 <= t < 86400

  /** 21:00, used when no night start is configured. */
  const DefaultNightStart: ClockTime := 21 * 3600
  /** 07:00, used when no night stop is configured. */
  const DefaultNightStop: ClockTime := 7 * 3600

  /** `ts.time()` for a timestamp in integer seconds. */
  function TimeOfDay(ts: int): ClockTime {
    ts % SecondsPerDay
  }

  /** A configured bound, or its default when none is given. Only a missing
      bound is replaced: a `datetime.time` value, midnight included, is truthy. */
  function BoundOr(bound: Option<ClockTime>, default: ClockTime): ClockTime {
    if bound.Some? then bound.value else default
  }

  /** Whether the clock time of `ts` lies in the night window; a window whose
      start is not before its stop wraps past midnight. */
  function NightTimeCheck(ts: int, nightStart: Option<ClockTime>, nightStop: Option<ClockTime>): (night: bool)
    ensures TimeOfDay(ts) == BoundOr(nightStart, DefaultNightStart) ==> night
    ensures TimeOfDay(ts) == BoundOr(nightStop, DefaultNightStop) ==> night
  {
    var start := BoundOr(nightStart, DefaultNightStart);
    var stop := BoundOr(nightStop, DefaultNightStop);
    var t := TimeOfDay(ts);
    if start < stop then start <= t <= stop
    else t >= start || t <= stop
  }

  /** With distinct bounds the window is the clock arc that runs forward from
      its start to its stop, both ends included, whether or not it crosses
      midnight. */
  lemma NightIsClockArc(ts: int, start: ClockTime, stop: ClockTime)
    requires start != stop
    ensures NightTimeCheck(ts, Some(start), Some(stop))
        <==> (TimeOfDay(ts) - start) % SecondsPerDay <= (stop - start) % SecondsPerDay
  {
    var t := TimeOfDay(ts);
    if start < stop {
      assert (stop - start) % SecondsPerDay == stop - start;
      if t >= start {
        assert (t - start) % SecondsPerDay == t - start;
      } else {
        assert (t - start) % SecondsPerDay == t - start + SecondsPerDay;
      }
    } else {
      assert (stop - start) % SecondsPerDay == stop - start + SecondsPerDay;
      if t >= start {
        assert (t - start) % SecondsPerDay == t - start;
      } else {
        assert (t - start) % SecondsPerDay == t - start + SecondsPerDay;
      }
    }
  }

  /** Equal bounds fall into the wrapping branch, which then accepts every time of day. */
  lemma EqualBoundsCoverTheWholeDay(ts: int, bound: ClockTime)
    ensures NightTimeCheck(ts, Some(bound), Some(bound))
  {
  }

  /** With the defaults (21:00 to 07:00), 23:30 and 03:00 are night and 12:00 is not,
      on any day. */
  lemma DefaultWindowExamples(day: int)
    ensures NightTimeCheck(day * SecondsPerDay + 23 * 3600 + 30 * 60, None, None)
    ensures NightTimeCheck(day * SecondsPerDay + 3 * 3600, None, None)
    ensures !NightTimeCheck(day * SecondsPerDay + 12 * 3600, None, None)
  {
    assert TimeOfDay(day * SecondsPerDay + 23 * 3600 + 30 * 60) == 23 * 3600 + 30 * 60;
    assert TimeOfDay(day * SecondsPerDay + 3 * 3600) == 3 * 3600;
    assert TimeOfDay(day * SecondsPerDay + 12 * 3600) == 12 * 3600;
  }
}
