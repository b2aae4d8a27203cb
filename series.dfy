/** Column-level building blocks shared by the night pipeline: pandas' missing
    value, boolean row selection, first differences and the reductions that skip
    missing values. Timestamps are integer seconds. */
module Series {

  /** One cell of a numeric column; `None` stands for pandas' NaN. */
  datatype Option<+T> = None | Some(value: T)

  ghost predicate StrictlyIncreasing(ts: seq<int>) {
    forall i, j :: 0 <= i < j < |ts| ==> ts[i] < ts[j]
  }

  /** Number of rows whose flag holds (`df[flag]["ts"].count()`). */
  function CountTrue(flags: seq<bool>): (n: nat)
    ensures n <= |flags|
    ensures n == 0 <==> forall i :: 0 <= i < |flags| ==> !flags[i]
  {
    if flags == [] then 0
    else CountTrue(flags[..|flags| - 1]) + (if flags[|flags| - 1] then 1 else 0)
  }

  /** Number of rows of a numeric column equal to `v` (`df[col == v]["ts"].count()`);
      a missing cell never compares equal. */
  function CountEqual(col: seq<Option<int>>, v: int): (n: nat)
    ensures n <= |col|
  {
    if col == [] then 0
    else CountEqual(col[..|col| - 1], v) + (if col[|col| - 1] == Some(v) then 1 else 0)
  }

  /** The count is 0 exactly when no cell equals `v`. */
  lemma {:induction false} CountEqualIsZeroIffAbsent(col: seq<Option<int>>, v: int)
    ensures CountEqual(col, v) == 0 <==> forall i :: 0 <= i < |col| ==> col[i] != Some(v)
  {
    if col != [] {
      var n := |col| - 1;
      CountEqualIsZeroIffAbsent(col[..n], v);
      assert forall i :: 0 <= i < n ==> col[..n][i] == col[i];
    }
  }

  /** Boolean indexing `col[keep]`: the rows whose flag holds, in their order. */
  function Where<T>(col: seq<T>, keep: seq<bool>): (r: seq<T>)
    requires |col| == |keep|
    ensures |r| == CountTrue(keep)
    ensures forall x :: x in r ==> x in col
  {
    if col == [] then []
    else
      var n := |col| - 1;
      Where(col[..n], keep[..n]) + (if keep[n] then [col[n]] else [])
  }

  /** Each flagged row of `col` is kept, at the position given by the number of
      flagged rows before it; with `|Where(col, keep)| == CountTrue(keep)` and
      `FlaggedPositionsGrow`, the selection is exactly the flagged rows in order. */
  lemma {:induction false} WhereKeepsFlagged<T>(col: seq<T>, keep: seq<bool>)
    requires |col| == |keep|
    ensures forall i :: 0 <= i < |col| && keep[i] ==>
      CountTrue(keep[..i]) < |Where(col, keep)| && Where(col, keep)[CountTrue(keep[..i])] == col[i]
  {
    if col != [] {
      var n := |col| - 1;
      WhereKeepsFlagged(col[..n], keep[..n]);
      var prefix := Where(col[..n], keep[..n]);
      var r := Where(col, keep);
      assert r == prefix + (if keep[n] then [col[n]] else []);
      forall i | 0 <= i < |col| && keep[i]
        ensures CountTrue(keep[..i]) < |r| && r[CountTrue(keep[..i])] == col[i]
      {
        if i < n {
          assert keep[..n][..i] == keep[..i];
          assert col[..n][i] == col[i] && keep[..n][i] == keep[i];
        } else {
          assert keep[..i] == keep[..n];
        }
      }
    }
  }

  /** Distinct flagged rows get distinct positions, earlier rows first. */
  lemma {:induction false} FlaggedPositionsGrow(keep: seq<bool>, i: nat, j: nat)
    requires i < j <= |keep| && keep[i]
    ensures CountTrue(keep[..i]) < CountTrue(keep[..j])
    decreases j
  {
    if j == i + 1 {
      assert keep[..j][..i] == keep[..i];
    } else {
      FlaggedPositionsGrow(keep, i, j - 1);
      assert keep[..j][..j - 1] == keep[..j - 1];
    }
  }

  /** `Series.diff()`: the first row, and any row next to a missing value, is missing. */
  function Diff(col: seq<Option<int>>): (d: seq<Option<int>>)
    ensures |d| == |col|
  {
    seq(|col|, i requires 0 <= i < |col| =>
      if i == 0 || col[i].None? || col[i - 1].None? then None
      else Some(col[i].value - col[i - 1].value))
  }

  /** The differences of a column without missing cells add up to its last value
      less its first. */
  lemma {:induction false} DiffSumsToSpan(col: seq<Option<int>>)
    requires |col| > 0 && forall i :: 0 <= i < |col| ==> col[i].Some?
    ensures SumPresent(Diff(col)) == col[|col| - 1].value - col[0].value
  {
    var n := |col| - 1;
    if n > 0 {
      DiffSumsToSpan(col[..n]);
      assert Diff(col)[..n] == Diff(col[..n]);
    }
  }

  /** `Series.sum()` on a numeric column: missing cells are skipped, an empty sum is 0. */
  function SumPresent(col: seq<Option<int>>): int {
    if col == [] then 0
    else SumPresent(col[..|col| - 1]) + (if col[|col| - 1].Some? then col[|col| - 1].value else 0)
  }

  /** `Series.max()`: missing cells are skipped; all missing gives NaN. */
  function MaxPresent(col: seq<Option<int>>): (m: Option<int>)
    ensures m.None? <==> forall i :: 0 <= i < |col| ==> col[i].None?
    ensures m.Some? ==> m in col && forall i :: 0 <= i < |col| && col[i].Some? ==> col[i].value <= m.value
  {
    if col == [] then None
    else
      var rest := MaxPresent(col[..|col| - 1]);
      var last := col[|col| - 1];
      assert forall i :: 0 <= i < |col| - 1 ==> col[..|col| - 1][i] == col[i];
      if last.None? then rest
      else if rest.None? || rest.value < last.value then last
      else rest
  }

  /** `Timedelta.seconds`: the part of a time difference within one day, which
      for a negative difference counts forward from the day before. */
  function DaySeconds(d: int): (s: int)
    ensures 0 <= s < 86400
    ensures 0 <= d < 86400 ==> s == d
  {
    d % 86400
  }

  /** A span and its within-day part differ by a whole number of days. */
  lemma DaySecondsDropsWholeDays(d: int)
    ensures d == d / 86400 * 86400 + DaySeconds(d)
    ensures DaySeconds(d + 86400) == DaySeconds(d)
  {
  }

  /** `np.sum` over a list of integers (0 for an empty list). */
  function Sum(xs: seq<int>): int {
    if xs == [] then 0 else Sum(xs[..|xs| - 1]) + xs[|xs| - 1]
  }

  lemma {:induction false} WhereKeepsOrder(col: seq<int>, keep: seq<bool>)
    requires |col| == |keep|
    requires StrictlyIncreasing(col)
    ensures StrictlyIncreasing(Where(col, keep))
  {
    if col != [] {
      var n := |col| - 1;
      assert StrictlyIncreasing(col[..n]);
      WhereKeepsOrder(col[..n], keep[..n]);
      var prefix := Where(col[..n], keep[..n]);
      assert forall x :: x in prefix ==> x < col[n] by {
        forall x | x in prefix ensures x < col[n] {
          var k :| 0 <= k < n && col[..n][k] == x;
        }
      }
      var r := Where(col, keep);
      assert r == prefix + (if keep[n] then [col[n]] else []);
      forall i, j | 0 <= i < j < |r| ensures r[i] < r[j] {
        if j < |prefix| {
          assert r[i] == prefix[i] && r[j] == prefix[j];
        } else {
          assert r[j] == col[n] && r[i] == prefix[i] && prefix[i] in prefix;
        }
      }
    }
  }
}
