/**
 * The filtering part of `load_and_clean_master` in aggregate_analysis.py:
 * drop the rows missing any of the three count columns, then drop the
 * rows whose `POB_TOT` z-score is not below 3.
 *
 * Mean and standard deviation are taken once over the whole remaining table
 * (population standard deviation, as scipy's `zscore` computes it), not per
 * region.  The test |x - mean| / std < 3 is stated without a square root as
 * (x - mean)^2 < 9 * variance.  When the variance is zero every z-score is
 * NaN, the comparison is false, and no row survives.
 */
module Cleaning {
  import opened Wrappers
  import opened Numeric
  import opened Series
  import opened Sequences

  /** A row as read from the summary file: counts may be missing. */
  datatype MasterRow = MasterRow(region: string, year: int, total: Option<int>, male: Option<int>, female: Option<int>)

  predicate Complete(r: MasterRow)
  {
    r.total.Some? && r.male.Some? && r.female.Some?
  }

  function ToYearRow(r: MasterRow): YearRow
    requires Complete(r)
  {
    YearRow(r.region, r.year, r.total.value, r.male.value, r.female.value)
  }

  /** The complete input row that converts to `y`. */
  function AsMaster(y: YearRow): MasterRow
  {
    MasterRow(y.region, y.year, Some(y.total), Some(y.male), Some(y.female))
  }

  /** `y` is the conversion of some complete input row. */
  predicate FromComplete(rows: seq<MasterRow>, y: YearRow)
  {
    exists i :: 0 <= i < |rows| && Complete(rows[i]) && ToYearRow(rows[i]) == y
  }

  /** `dropna(subset=["POB_TOT", "HOMBRES_18+", "MUJERES_18+"])`. */
  function DropIncomplete(rows: seq<MasterRow>): (r: seq<YearRow>)
    ensures |r| <= |rows|
    ensures forall y :: y in r <==> FromComplete(rows, y)
  {
    if rows == [] then []
    else
      var rest := DropIncomplete(rows[1..]);
      assert forall y :: FromComplete(rows, y) <==> (Complete(rows[0]) && ToYearRow(rows[0]) == y) || FromComplete(rows[1..], y) by {
        forall y | FromComplete(rows, y) && !(Complete(rows[0]) && ToYearRow(rows[0]) == y)
          ensures FromComplete(rows[1..], y)
        {
          var i :| 0 <= i < |rows| && Complete(rows[i]) && ToYearRow(rows[i]) == y;
          assert rows[1..][i - 1] == rows[i];
        }
        forall y | FromComplete(rows[1..], y) ensures FromComplete(rows, y) {
          var k :| 0 <= k < |rows[1..]| && Complete(rows[1..][k]) && ToYearRow(rows[1..][k]) == y;
          assert rows[k + 1] == rows[1..][k];
        }
      }
      if Complete(rows[0]) then [ToYearRow(rows[0])] + rest else rest
  }

  function SumTotals(rows: seq<YearRow>): int
  {
    if rows == [] then 0 else rows[0].total + SumTotals(rows[1..])
  }

  function Mean(rows: seq<YearRow>): real
    requires rows != []
  {
    SumTotals(rows) as real / |rows| as real
  }

  function SumSquaredDeviations(rows: seq<YearRow>, mean: real): (r: real)
    ensures r >= 0.0
  {
    if rows == [] then 0.0
    else
      SquareNonNegative(rows[0].total as real - mean);
      Sq(rows[0].total as real - mean) + SumSquaredDeviations(rows[1..], mean)
  }

  /** Population variance (ddof = 0) of the totals. */
  function Variance(rows: seq<YearRow>): (r: real)
    requires rows != []
    ensures r >= 0.0
  {
    SumSquaredDeviations(rows, Mean(rows)) / |rows| as real
  }

  /** `z < 3` for a total `x`; false when the variance is zero (NaN z-score). */
  predicate Inlier(x: int, mean: real, variance: real)
  {
    variance > 0.0 && Sq(x as real - mean) < 9.0 * variance
  }

  function KeepInliers(rows: seq<YearRow>, mean: real, variance: real): (r: seq<YearRow>)
    ensures |r| <= |rows|
  {
    if rows == [] then []
    else if Inlier(rows[0].total, mean, variance) then [rows[0]] + KeepInliers(rows[1..], mean, variance)
    else KeepInliers(rows[1..], mean, variance)
  }

  /** The cleaned table, with the statistics of the whole complete table. */
  function LoadAndClean(rows: seq<MasterRow>): seq<YearRow>
  {
    var complete := DropIncomplete(rows);
    if complete == [] then [] else KeepInliers(complete, Mean(complete), Variance(complete))
  }

  // ---------------------------------------------------------------------------
  // What cleaning promises
  // ---------------------------------------------------------------------------

  lemma {:induction false} KeepInliersMembers(rows: seq<YearRow>, mean: real, variance: real)
    ensures forall y :: y in KeepInliers(rows, mean, variance) <==> y in rows && Inlier(y.total, mean, variance)
  {
    if rows != [] {
      KeepInliersMembers(rows[1..], mean, variance);
      assert rows == [rows[0]] + rows[1..];
    }
  }

  /**
   * A row is in the cleaned table iff it comes from a complete input row and
   * its total is within three standard deviations of the mean of ALL complete
   * rows (one global mean and deviation, not one per region).  The cleaned
   * table is never longer than the input.
   */
  lemma CleanedRows(rows: seq<MasterRow>)
    ensures |LoadAndClean(rows)| <= |rows|
    ensures var complete := DropIncomplete(rows);
            forall y :: y in LoadAndClean(rows) <==>
              FromComplete(rows, y) && complete != [] && Inlier(y.total, Mean(complete), Variance(complete))
  {
    var complete := DropIncomplete(rows);
    if complete != [] {
      KeepInliersMembers(complete, Mean(complete), Variance(complete));
    }
  }

  /** `dropna` keeps the order: the rows of `a` stay before those of `b`. */
  lemma {:induction false} DropIncompleteAppend(a: seq<MasterRow>, b: seq<MasterRow>)
    ensures DropIncomplete(a + b) == DropIncomplete(a) + DropIncomplete(b)
  {
    if a == [] {
      assert a + b == b;
    } else {
      assert (a + b)[1..] == a[1..] + b;
      DropIncompleteAppend(a[1..], b);
      if Complete(a[0]) {
        ConcatAssociative([ToYearRow(a[0])], DropIncomplete(a[1..]), DropIncomplete(b));
      }
    }
  }

  /** `dropna` keeps every copy of a complete row, duplicates included. */
  lemma {:induction false} DropIncompleteCounts(rows: seq<MasterRow>, y: YearRow)
    ensures multiset(DropIncomplete(rows))[y] == multiset(rows)[AsMaster(y)]
  {
    if rows != [] {
      DropIncompleteCounts(rows[1..], y);
      HeadTail(rows);
      assert multiset(rows)[AsMaster(y)] == multiset([rows[0]])[AsMaster(y)] + multiset(rows[1..])[AsMaster(y)];
      assert Complete(rows[0]) ==> (ToYearRow(rows[0]) == y <==> rows[0] == AsMaster(y));
    }
  }

  /** The z-score mask keeps every copy of an inlier and no copy of another row. */
  lemma {:induction false} KeepInliersCounts(rows: seq<YearRow>, mean: real, variance: real, y: YearRow)
    ensures multiset(KeepInliers(rows, mean, variance))[y] == if Inlier(y.total, mean, variance) then multiset(rows)[y] else 0
  {
    if rows != [] {
      KeepInliersCounts(rows[1..], mean, variance, y);
      HeadTail(rows);
    }
  }

  /** The z-score mask keeps the surviving rows in their order. */
  lemma {:induction false} KeepInliersIsSubsequence(rows: seq<YearRow>, mean: real, variance: real)
    ensures IsSubsequence(KeepInliers(rows, mean, variance), rows)
  {
    if rows != [] {
      KeepInliersIsSubsequence(rows[1..], mean, variance);
    }
  }

  /**
   * The cleaned table holds every copy of a complete input row whose total
   * is an inlier, and nothing else.
   */
  lemma CleanedCounts(rows: seq<MasterRow>, y: YearRow)
    ensures var complete := DropIncomplete(rows);
            multiset(LoadAndClean(rows))[y]
              == if complete != [] && Inlier(y.total, Mean(complete), Variance(complete)) then multiset(rows)[AsMaster(y)] else 0
  {
    var complete := DropIncomplete(rows);
    DropIncompleteCounts(rows, y);
    if complete != [] {
      KeepInliersCounts(complete, Mean(complete), Variance(complete), y);
    }
  }

  /** The cleaned rows keep the order of the complete rows they come from. */
  lemma CleanedOrder(rows: seq<MasterRow>)
    ensures IsSubsequence(LoadAndClean(rows), DropIncomplete(rows))
  {
    var complete := DropIncomplete(rows);
    if complete != [] {
      KeepInliersIsSubsequence(complete, Mean(complete), Variance(complete));
    }
  }

  lemma {:induction false} SumSquaredDeviationsOfConstant(rows: seq<YearRow>, c: int)
    requires forall i :: 0 <= i < |rows| ==> rows[i].total == c
    ensures SumTotals(rows) as real == Prod(c as real, |rows| as real)
    ensures SumSquaredDeviations(rows, c as real) == 0.0
  {
    if rows != [] {
      SumSquaredDeviationsOfConstant(rows[1..], c);
      assert c as real * (|rows[1..]| as real + 1.0) == c as real + c as real * |rows[1..]| as real;
    }
  }

  /**
   * When every complete row has the same total (in particular when there is
   * only one), the standard deviation is zero, every z-score is NaN and the
   * cleaned table is empty.
   */
  lemma ConstantTotalsEmptyTable(rows: seq<MasterRow>, c: int)
    requires forall i :: 0 <= i < |rows| && Complete(rows[i]) ==> rows[i].total.value == c
    ensures LoadAndClean(rows) == []
  {
    var complete := DropIncomplete(rows);
    if complete != [] {
      forall i | 0 <= i < |complete| ensures complete[i].total == c {
        assert complete[i] in complete;
      }
      SumSquaredDeviationsOfConstant(complete, c);
      MulDivCancel(c as real, |complete| as real);
      assert Mean(complete) == c as real;
      assert Variance(complete) == 0.0;
      NoInliersWithoutSpread(complete, Mean(complete));
    }
  }

  lemma {:induction false} NoInliersWithoutSpread(rows: seq<YearRow>, mean: real)
    ensures KeepInliers(rows, mean, 0.0) == []
  {
    if rows != [] {
      NoInliersWithoutSpread(rows[1..], mean);
    }
  }
}
