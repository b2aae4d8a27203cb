/** Night duration binning: the hour thresholds of the bin table, the rounding
    of a night's length to whole hours, and `identify_bin`, which picks the
    greatest threshold not above that hour count. */
module DurationBins {
  import opened Series

  /** Python's `range(start, stop, step)` as a list. */
  function PyRange(start: int, stop: int, step: int): seq<int>
    requires step != 0
    decreases if step > 0 then stop - start else start - stop
  {
    if (step > 0 && start < stop) || (step < 0 && start > stop) then [start] + PyRange(start + step, stop, step)
    else []
  }

  /** Membership in `range(start, stop, step)`, stated without enumerating it. */
  ghost predicate InPyRange(x: int, start: int, stop: int, step: int) {
    || (step > 0 && start <= x < stop && (x - start) % step == 0)
    || (step < 0 && stop < x <= start && (start - x) % (-step) == 0)
  }

  /** Adding the divisor leaves a Euclidean remainder unchanged. */
  lemma ModShift(a: int, s: int)
    requires s > 0
    ensures (a + s) % s == a % s
  {
    var q, r := a / s, a % s;
    var q2, r2 := (a + s) / s, (a + s) % s;
    assert a == q * s + r && a + s == q2 * s + r2;
    var d := q2 - q - 1;
    assert d * s == q2 * s - q * s - s;
    assert d * s == r - r2;
    if d >= 1 {
      MulAtLeast(d, s);
    } else if d <= -1 {
      MulAtLeast(-d, s);
    }
  }

  lemma MulAtLeast(d: int, s: int)
    requires d >= 1 && s > 0
    ensures d * s >= s && (-d) * s <= -s
  {
    assert d * s == (d - 1) * s + s;
  }

  /** The values `range` produces are exactly those of the closed description. */
  lemma PyRangeMembership(x: int, start: int, stop: int, step: int)
    requires step != 0
    ensures x in PyRange(start, stop, step) <==> InPyRange(x, start, stop, step)
  {
    if step > 0 {
      AscendingMembership(x, start, stop, step);
    } else {
      DescendingMembership(x, start, stop, step);
    }
  }

  lemma {:induction false} AscendingMembership(x: int, start: int, stop: int, step: int)
    requires step > 0
    ensures x in PyRange(start, stop, step) <==> start <= x < stop && (x - start) % step == 0
    decreases stop - start
  {
    if start < stop {
      AscendingMembership(x, start + step, stop, step);
      assert PyRange(start, stop, step) == [start] + PyRange(start + step, stop, step);
      ModShift(x - start - step, step);
      assert x - start - step + step == x - start;
    }
  }

  lemma {:induction false} DescendingMembership(x: int, start: int, stop: int, step: int)
    requires step < 0
    ensures x in PyRange(start, stop, step) <==> stop < x <= start && (start - x) % (-step) == 0
    decreases start - stop
  {
    if start > stop {
      DescendingMembership(x, start + step, stop, step);
      assert PyRange(start, stop, step) == [start] + PyRange(start + step, stop, step);
      ModShift(start + step - x, -step);
      assert start + step - x + (-step) == start - x;
    }
  }

  /** A list in non-increasing order (after `sort(reverse=True)`). */
  ghost predicate Descending(s: seq<int>) {
    forall i, j :: 0 <= i < j < |s| ==> s[i] >= s[j]
  }

  /** `list.sort(reverse=True)`, in place (a selection sort). */
  method SortDescending(a: array<int>)
    modifies a
    ensures Descending(a[..])
    ensures multiset(a[..]) == old(multiset(a[..]))
  {
    for i := 0 to a.Length
      invariant forall p, q :: 0 <= p < q < i ==> a[p] >= a[q]
      invariant forall p, q :: 0 <= p < i <= q < a.Length ==> a[p] >= a[q]
      invariant multiset(a[..]) == old(multiset(a[..]))
    {
      var m := IndexOfMax(a, i);
      a[i], a[m] := a[m], a[i];
    }
  }

  /** The position of a largest element of `a[from..]`. */
  method IndexOfMax(a: array<int>, from: nat) returns (m: nat)
    requires from < a.Length
    ensures from <= m < a.Length
    ensures forall k :: from <= k < a.Length ==> a[k] <= a[m]
  {
    m := from;
    for j := from + 1 to a.Length
      invariant from <= m < a.Length
      invariant forall k :: from <= k < j ==> a[k] <= a[m]
    {
      if a[j] > a[m] {
        m := j;
      }
    }
  }

  /** `identify_bin`: sorts the list in place, largest first, and returns the
      first threshold not above `value` -- the greatest such threshold -- or
      None when every threshold is above `value`. */
  method IdentifyBin(value: int, binList: array<int>) returns (bin: Option<int>)
    modifies binList
    ensures multiset(binList[..]) == old(multiset(binList[..]))
    ensures Descending(binList[..])
    ensures bin.Some? <==> exists k :: 0 <= k < binList.Length && binList[k] <= value
    ensures bin.Some? ==>
      && bin.value in binList[..]
      && bin.value <= value
      && forall k :: 0 <= k < binList.Length && binList[k] <= value ==> binList[k] <= bin.value
  {
    SortDescending(binList);
    for k := 0 to binList.Length
      invariant forall p :: 0 <= p < k ==> binList[p] > value
    {
      if value >= binList[k] {
        return Some(binList[k]);
      }
    }
    return None;
  }

  /** `int((duration.seconds + roundUpMinutes * 60) / 60 / 60)`: the night's
      length within one day plus the tolerance, divided into hours and truncated
      toward zero. */
  function DurationHours(duration: int, roundUpMinutes: int): int {
    var n := DaySeconds(duration) + roundUpMinutes * 60;
    if n >= 0 then n / 3600 else -((-n) / 3600)
  }

  /** The hour count is the padded length in hours truncated toward zero: from
      below for a non-negative length, from above for a negative one (a
      negative tolerance), so a slightly negative length also gives 0. */
  lemma DurationHoursBounds(duration: int, roundUpMinutes: int)
    ensures var n := DaySeconds(duration) + roundUpMinutes * 60;
      var h := DurationHours(duration, roundUpMinutes);
      && (n >= 0 ==> h * 3600 <= n < (h + 1) * 3600)
      && (n < 0 ==> (h - 1) * 3600 < n <= h * 3600)
      && (h >= 0 <==> n > -3600)
  {
  }

  /** The length counts only within one day: a night one day longer falls into
      the same bin. */
  lemma DurationHoursRepeatsDaily(duration: int, roundUpMinutes: int)
    ensures DurationHours(duration + 86400, roundUpMinutes) == DurationHours(duration, roundUpMinutes)
  {
    assert DaySeconds(duration + 86400) == DaySeconds(duration);
  }
}
