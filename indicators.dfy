/**
 * Growth rate and the demographic indices of abstract.py
 * (`calcular_tasa_crecimiento`, `calcular_indices_demograficos`).
 *
 * The summary rows are sorted by (region, year); each row then gets the
 * growth of its adult total against the previous row of its region, its
 * total relative to Jalisco's in the same year, and its femininity index,
 * all rounded to one decimal.  A ratio pandas would evaluate to inf or NaN
 * is `None` here.
 */
module Indicators {
  import opened Wrappers
  import opened Sequences
  import opened Numeric
  import opened Summary

  /** The region every other region's density is measured against. */
  const Baseline: string := "Jalisco"

  /**
   * `MissingBaseline`: `pob_total_jalisco[year]` has no entry for a year some
   * other region has.  `NoGrowthColumn`: no row has an earlier row of its
   * region, so every growth is `None`, the column holds only `None` objects
   * and rounding it to one decimal raises.
   */
  datatype IndicatorError = MissingBaseline(year: int) | NoGrowthColumn

  datatype IndicatorRow = IndicatorRow(
    row: SummaryRow, growth: Option<real>, density: Option<real>, femininity: Option<real>)

  /**
   * `calcular_tasa_crecimiento`: percentage change from `initial` to `final`,
   * 0.0 when `initial` is zero.  Otherwise applying the rate to `initial`
   * gives back `final`.
   */
  function GrowthRate(final: int, initial: int): (r: real)
    ensures initial == 0 ==> r == 0.0
    ensures initial != 0 ==> Prod(initial as real, 1.0 + r / 100.0) == final as real
  {
    if initial == 0 then 0.0
    else
      var r := (final - initial) as real / initial as real * 100.0;
      assert initial as real * (r / 100.0) == (final - initial) as real;
      assert initial as real * (1.0 + r / 100.0) == initial as real + initial as real * (r / 100.0);
      r
  }

  /** For a positive start the rate is positive, zero or negative exactly as the value grows, stays or falls. */
  lemma GrowthRateSign(final: int, initial: int)
    requires initial > 0
    ensures GrowthRate(final, initial) > 0.0 <==> final > initial
    ensures GrowthRate(final, initial) == 0.0 <==> final == initial
    ensures GrowthRate(final, initial) < 0.0 <==> final < initial
  {
    var r := GrowthRate(final, initial);
    RateSign(initial as real, final as real, r / 100.0);
  }

  lemma RateSign(initial: real, final: real, q: real)
    requires initial > 0.0 && Prod(initial, 1.0 + q) == final
    ensures q > 0.0 <==> final > initial
    ensures q == 0.0 <==> final == initial
    ensures q < 0.0 <==> final < initial
  {
    assert final - initial == initial * q;
    if q > 0.0 { assert initial * q > 0.0; }
    if q < 0.0 { assert initial * (-q) > 0.0; }
  }

  // ---------------------------------------------------------------------------
  // Sorting by (region, year)
  // ---------------------------------------------------------------------------

  predicate KeyLe(a: SummaryRow, b: SummaryRow)
  {
    StrLt(a.region, b.region) || (a.region == b.region && a.year <= b.year)
  }

  predicate SortedByKey(s: seq<SummaryRow>)
  {
    forall i, j :: 0 <= i < j < |s| ==> KeyLe(s[i], s[j])
  }

  lemma KeyLeTotal(a: SummaryRow, b: SummaryRow)
    ensures KeyLe(a, b) || KeyLe(b, a)
  {
    StrLeTotal(a.region, b.region);
  }

  function Insert(x: SummaryRow, s: seq<SummaryRow>): (r: seq<SummaryRow>)
    requires SortedByKey(s)
    ensures SortedByKey(r)
    ensures multiset(r) == multiset(s) + multiset{x}
    ensures |r| == |s| + 1
  {
    if s == [] then [x]
    else if !KeyLe(s[0], x) then
      assert forall j :: 0 <= j < |s| ==> KeyLe(s[0], s[j]) by {
        assert forall j :: 1 <= j < |s| ==> KeyLe(s[0], s[j]);
        if s[0].region != [] { StrLeReflexive(s[0].region); }
      }
      KeyLeTotal(x, s[0]);
      KeyLeChain(x, s);
      [x] + s
    else
      var rest := Insert(x, s[1..]);
      assert s == [s[0]] + s[1..];
      HeadBeforeInserted(x, s, rest);
      [s[0]] + rest
  }

  /** The head of a sorted sequence stays first when a later row is inserted into its tail. */
  lemma HeadBeforeInserted(x: SummaryRow, s: seq<SummaryRow>, rest: seq<SummaryRow>)
    requires SortedByKey(s) && s != [] && KeyLe(s[0], x)
    requires SortedByKey(rest) && multiset(rest) == multiset(s[1..]) + multiset{x}
    ensures SortedByKey([s[0]] + rest)
  {
    forall j | 0 <= j < |rest| ensures KeyLe(s[0], rest[j]) {
      assert rest[j] in multiset(rest);
      if rest[j] != x {
        assert rest[j] in multiset(s[1..]);
        var k :| 0 <= k < |s[1..]| && s[1..][k] == rest[j];
        assert s[k + 1] == rest[j];
      }
    }
  }

  /** Prepending a row no later than the head of a sorted sequence keeps it sorted. */
  lemma KeyLeChain(x: SummaryRow, s: seq<SummaryRow>)
    requires SortedByKey(s) && s != [] && KeyLe(x, s[0])
    ensures SortedByKey([x] + s)
  {
    forall j | 0 <= j < |s| ensures KeyLe(x, s[j]) {
      KeyLeTransitive(x, s[0], s[j]);
    }
  }

  lemma KeyLeTransitive(a: SummaryRow, b: SummaryRow, c: SummaryRow)
    requires KeyLe(a, b) && (b == c || KeyLe(b, c))
    ensures KeyLe(a, c)
  {
    if b != c {
      if StrLt(a.region, b.region) && StrLt(b.region, c.region) {
        StrLeTransitive(a.region, b.region, c.region);
        if a.region == c.region { StrLeAntisymmetric(a.region, b.region); }
      }
    }
  }

  /**
   * `df.sort_values(["REGIÓN", "AÑO"])`: a permutation of the rows, ordered by
   * region then year.  A sort on several columns is stable in pandas, so rows
   * with the same (region, year) keep their input order (`SortStable`).
   */
  function SortByRegionYear(s: seq<SummaryRow>): (r: seq<SummaryRow>)
    ensures SortedByKey(r)
    ensures multiset(r) == multiset(s)
    ensures |r| == |s|
  {
    if s == [] then []
    else
      assert s == s[..|s| - 1] + [s[|s| - 1]];
      Insert(s[|s| - 1], SortByRegionYear(s[..|s| - 1]))
  }

  /** The rows of `s` whose key is (`region`, `year`), in their order in `s`. */
  function WithKey(s: seq<SummaryRow>, region: string, year: int): seq<SummaryRow>
  {
    if s == [] then []
    else (if s[0].region == region && s[0].year == year then [s[0]] else []) + WithKey(s[1..], region, year)
  }

  lemma {:induction false} WithKeyAppend(a: seq<SummaryRow>, b: seq<SummaryRow>, region: string, year: int)
    ensures WithKey(a + b, region, year) == WithKey(a, region, year) + WithKey(b, region, year)
  {
    if a == [] {
      assert a + b == b;
    } else {
      assert (a + b)[1..] == a[1..] + b;
      WithKeyAppend(a[1..], b, region, year);
    }
  }

  /** A sorted sequence starting after `x`'s key has no row with that key. */
  lemma {:induction false} NoneWithKeyAfter(x: SummaryRow, s: seq<SummaryRow>)
    requires SortedByKey(s) && s != [] && !KeyLe(s[0], x)
    ensures WithKey(s, x.region, x.year) == []
  {
    if |s| > 1 {
      assert !KeyLe(s[1..][0], x) by {
        if KeyLe(s[1], x) {
          assert KeyLe(s[0], s[1]);
          KeyLeTransitive(s[0], s[1], x);
        }
      }
      NoneWithKeyAfter(x, s[1..]);
    }
  }

  lemma WithKeyCons(h: SummaryRow, t: seq<SummaryRow>, region: string, year: int)
    ensures WithKey([h] + t, region, year)
         == (if h.region == region && h.year == year then [h] else []) + WithKey(t, region, year)
  {
    assert ([h] + t)[1..] == t;
  }

  /** Inserting `x` puts it after every row already there with its key. */
  lemma {:induction false} InsertWithKey(x: SummaryRow, s: seq<SummaryRow>, region: string, year: int)
    requires SortedByKey(s)
    ensures WithKey(Insert(x, s), region, year)
         == WithKey(s, region, year) + (if x.region == region && x.year == year then [x] else [])
  {
    if s == [] {
      WithKeyCons(x, [], region, year);
    } else if !KeyLe(s[0], x) {
      InsertBeforeHead(x, s, region, year);
    } else {
      InsertWithKey(x, s[1..], region, year);
      InsertPastHead(x, s, region, year);
    }
  }

  /** The step of `InsertWithKey` where `x` goes first. */
  lemma InsertBeforeHead(x: SummaryRow, s: seq<SummaryRow>, region: string, year: int)
    requires SortedByKey(s) && s != [] && !KeyLe(s[0], x)
    ensures WithKey(Insert(x, s), region, year)
         == WithKey(s, region, year) + (if x.region == region && x.year == year then [x] else [])
  {
    assert Insert(x, s) == [x] + s;
    if x.region == region && x.year == year {
      NoneWithKeyAfter(x, s);
    }
    WithKeyCons(x, s, region, year);
  }

  /** The step of `InsertWithKey` where `x` goes past the head. */
  lemma InsertPastHead(x: SummaryRow, s: seq<SummaryRow>, region: string, year: int)
    requires SortedByKey(s) && s != [] && KeyLe(s[0], x)
    requires WithKey(Insert(x, s[1..]), region, year)
          == WithKey(s[1..], region, year) + (if x.region == region && x.year == year then [x] else [])
    ensures WithKey(Insert(x, s), region, year)
         == WithKey(s, region, year) + (if x.region == region && x.year == year then [x] else [])
  {
    var tag := if x.region == region && x.year == year then [x] else [];
    var rest := Insert(x, s[1..]);
    var head := if s[0].region == region && s[0].year == year then [s[0]] else [];
    var mid := WithKey(s[1..], region, year);
    calc {
      WithKey(Insert(x, s), region, year);
      { assert Insert(x, s) == [s[0]] + rest; }
      WithKey([s[0]] + rest, region, year);
      { WithKeyCons(s[0], rest, region, year); }
      head + (mid + tag);
      { ConcatAssociative(head, mid, tag); }
      (head + mid) + tag;
      { HeadTail(s); WithKeyCons(s[0], s[1..], region, year); }
      WithKey(s, region, year) + tag;
    }
  }

  /** Stability: sorting keeps the rows of each (region, year) in input order. */
  lemma {:induction false} SortStable(s: seq<SummaryRow>, region: string, year: int)
    ensures WithKey(SortByRegionYear(s), region, year) == WithKey(s, region, year)
  {
    if s != [] {
      var init := s[..|s| - 1];
      var last := s[|s| - 1];
      var tag := if last.region == region && last.year == year then [last] else [];
      calc {
        WithKey(SortByRegionYear(s), region, year);
        WithKey(Insert(last, SortByRegionYear(init)), region, year);
        { InsertWithKey(last, SortByRegionYear(init), region, year); }
        WithKey(SortByRegionYear(init), region, year) + tag;
        { SortStable(init, region, year); }
        WithKey(init, region, year) + tag;
        { WithKeyCons(last, [], region, year); assert [last] + [] == [last]; }
        WithKey(init, region, year) + WithKey([last], region, year);
        { WithKeyAppend(init, [last], region, year); InitLast(s); }
        WithKey(s, region, year);
      }
    }
  }

  /**
   * Two Jalisco rows for 2015 keep their order, so the 2015 baseline is the
   * first one's total and the second one grows from it.
   */
  lemma TiedRowsKeepOrder(a: SummaryRow, b: SummaryRow)
    requires a == SummaryRow(Baseline, 2015, 10, 5, 5, None, None)
    requires b == SummaryRow(Baseline, 2015, 20, 10, 10, None, None)
    ensures SortByRegionYear([a, b]) == [a, b]
    ensures BaselineTotal([a, b], 2015) == Some(10)
    ensures Growth([a, b], 1) == Some(100.0)
  {
    assert [a, b][..1] == [a];
    assert SortByRegionYear([a]) == [a];
    assert KeyLe(a, b);
    assert GrowthRate(20, 10) == 100.0;
    RoundIntExact(1000);
  }

  // ---------------------------------------------------------------------------
  // The three indicators, as reference definitions over the sorted rows
  // ---------------------------------------------------------------------------

  /**
   * `groupby("REGIÓN")["POB_TOT"].shift(1)`: the total of the last row before
   * position `k` that belongs to `region`, if any.
   */
  function LastTotalBefore(s: seq<SummaryRow>, region: string, k: int): (r: Option<int>)
    requires 0 <= k <= |s|
    ensures r.None? <==> forall j :: 0 <= j < k ==> s[j].region != region
    ensures r.Some? ==> exists j :: 0 <= j < k && s[j].region == region && s[j].total == r.value
                          && forall m :: j < m < k ==> s[m].region != region
  {
    if k == 0 then None
    else if s[k - 1].region == region then Some(s[k - 1].total)
    else LastTotalBefore(s, region, k - 1)
  }

  /** Growth against the previous row of the same region; `None` for a region's first row. */
  function Growth(s: seq<SummaryRow>, i: int): Option<real>
    requires 0 <= i < |s|
  {
    match LastTotalBefore(s, s[i].region, i)
    case None => None
    case Some(previous) => Some(RoundTenth(GrowthRate(s[i].total, previous)))
  }

  predicate HasBaseline(rows: seq<SummaryRow>, year: int)
  {
    exists k :: 0 <= k < |rows| && rows[k].region == Baseline && rows[k].year == year
  }

  /** Row `k` is the first Jalisco row of `year` in `s`. */
  predicate FirstBaselineAt(s: seq<SummaryRow>, year: int, k: int)
  {
    && 0 <= k < |s| && s[k].region == Baseline && s[k].year == year
    && forall j :: 0 <= j < k ==> !(s[j].region == Baseline && s[j].year == year)
  }

  /**
   * `df[df["REGIÓN"] == "Jalisco"].groupby("AÑO")["POB_TOT"].first()` at `year`:
   * the total of the first Jalisco row of that year, in row order.
   */
  function BaselineTotal(s: seq<SummaryRow>, year: int): (r: Option<int>)
    ensures r.Some? <==> HasBaseline(s, year)
    ensures r.Some? ==> exists k :: FirstBaselineAt(s, year, k) && s[k].total == r.value
  {
    if s == [] then None
    else if s[0].region == Baseline && s[0].year == year then
      assert FirstBaselineAt(s, year, 0);
      Some(s[0].total)
    else
      var rest := BaselineTotal(s[1..], year);
      BaselineInTail(s, year);
      if rest.Some? then
        ghost var k :| FirstBaselineAt(s[1..], year, k) && s[1..][k].total == rest.value;
        FirstBaselineShift(s, year, k);
        rest
      else rest
  }

  /** Past a first row that is not Jalisco's in `year`, the baseline is in the tail. */
  lemma BaselineInTail(s: seq<SummaryRow>, year: int)
    requires s != [] && !(s[0].region == Baseline && s[0].year == year)
    ensures HasBaseline(s, year) <==> HasBaseline(s[1..], year)
  {
    if HasBaseline(s, year) {
      var k :| 0 <= k < |s| && s[k].region == Baseline && s[k].year == year;
      assert k > 0 && s[1..][k - 1] == s[k];
    }
    if HasBaseline(s[1..], year) {
      var k :| 0 <= k < |s[1..]| && s[1..][k].region == Baseline && s[1..][k].year == year;
      assert s[k + 1] == s[1..][k];
    }
  }

  lemma FirstBaselineShift(s: seq<SummaryRow>, year: int, k: int)
    requires s != [] && !(s[0].region == Baseline && s[0].year == year)
    requires FirstBaselineAt(s[1..], year, k)
    ensures FirstBaselineAt(s, year, k + 1) && s[k + 1] == s[1..][k]
  {
    forall j | 1 <= j < k + 1 ensures !(s[j].region == Baseline && s[j].year == year) {
      assert s[j] == s[1..][j - 1];
    }
  }

  /** `POB_TOT / POB_TOT(Jalisco, same year) * 100`, `None` where that total is zero. */
  function RelativeDensity(total: int, baseline: int): Option<real>
  {
    if baseline == 0 then None else Some(RoundTenth(total as real / baseline as real * 100.0))
  }

  /** `MUJERES_18+ / HOMBRES_18+ * 100`, `None` where there are no men. */
  function Femininity(row: SummaryRow): Option<real>
  {
    if row.male == 0 then None else Some(RoundTenth(row.female as real / row.male as real * 100.0))
  }

  /** What the output row at position `i` of the sorted rows `s` holds. */
  ghost predicate Computed(s: seq<SummaryRow>, i: int, out: IndicatorRow)
    requires 0 <= i < |s|
  {
    && out.row == s[i]
    && out.growth == Growth(s, i)
    && (s[i].region == Baseline ==> out.density == Some(100.0))
    && (s[i].region != Baseline ==>
          BaselineTotal(s, s[i].year).Some? && out.density == RelativeDensity(s[i].total, BaselineTotal(s, s[i].year).value))
    && out.femininity == Femininity(s[i])
  }

  /**
   * `calcular_indices_demograficos`: sort a copy by (region, year), then walk
   * it once computing the three new columns.  The rows are in sorted order,
   * a permutation of the input, with their own fields unchanged; the helper
   * previous-total column is not part of the output.
   */
  method ComputeIndices(summary: seq<SummaryRow>) returns (r: Result<seq<IndicatorRow>, IndicatorError>)
    ensures r.Success? <==> BaselinesCover(summary) && RegionRepeats(summary)
    ensures !BaselinesCover(summary) ==>
              r.Failure? && exists i :: 0 <= i < |summary| && summary[i].region != Baseline
                             && !HasBaseline(summary, summary[i].year) && r.error == MissingBaseline(summary[i].year)
    ensures BaselinesCover(summary) && !RegionRepeats(summary) ==> r == Failure(NoGrowthColumn)
    ensures r.Success? ==>
              var s := SortByRegionYear(summary);
              |r.value| == |summary| && forall i :: 0 <= i < |s| ==> Computed(s, i, r.value[i])
  {
    var s := SortByRegionYear(summary);
    SameBaselines(summary, s);
    var out: seq<IndicatorRow> := [];
    var anyGrowth := false;
    for i := 0 to |s|
      invariant |out| == i
      invariant forall j :: 0 <= j < i ==> Computed(s, j, out[j])
      invariant anyGrowth <==> exists j :: 0 <= j < i && Growth(s, j).Some?
    {
      var next := RowIndicators(s, i);
      if next.Failure? {
        r := Failure(next.error);
        NoBaselineWitness(summary, s, i);
        return;
      }
      anyGrowth := anyGrowth || next.value.growth.Some?;
      out := out + [next.value];
    }
    forall i | 0 <= i < |summary| && summary[i].region != Baseline ensures HasBaseline(summary, summary[i].year) {
      assert summary[i] in multiset(s);
      var j :| 0 <= j < |s| && s[j] == summary[i];
      assert Computed(s, j, out[j]);
    }
    GrowthDefinedIffRepeats(s);
    RepeatsPermutation(summary, s);
    RepeatsPermutation(s, summary);
    if !anyGrowth {
      r := Failure(NoGrowthColumn);
      return;
    }
    r := Success(out);
  }

  /** Every non-Jalisco row's year has a Jalisco row, so `pob_total_jalisco[year]` exists. */
  predicate BaselinesCover(rows: seq<SummaryRow>)
  {
    forall i :: 0 <= i < |rows| && rows[i].region != Baseline ==> HasBaseline(rows, rows[i].year)
  }

  /** Some region has at least two rows. */
  predicate RegionRepeats(rows: seq<SummaryRow>)
  {
    exists i, j :: 0 <= i < j < |rows| && rows[i].region == rows[j].region
  }

  /** Some row has a growth exactly when some region has two rows. */
  lemma GrowthDefinedIffRepeats(s: seq<SummaryRow>)
    ensures (exists i :: 0 <= i < |s| && Growth(s, i).Some?) <==> RegionRepeats(s)
  {
    if exists i :: 0 <= i < |s| && Growth(s, i).Some? {
      var i :| 0 <= i < |s| && Growth(s, i).Some?;
      var j :| 0 <= j < i && s[j].region == s[i].region && s[j].total == LastTotalBefore(s, s[i].region, i).value
                && forall m :: j < m < i ==> s[m].region != s[i].region;
      assert s[j].region == s[i].region;
    }
    if RegionRepeats(s) {
      var i, j :| 0 <= i < j < |s| && s[i].region == s[j].region;
      assert LastTotalBefore(s, s[j].region, j).Some?;
      assert Growth(s, j).Some?;
    }
  }

  /** Reordering the rows does not change whether a region repeats. */
  lemma RepeatsPermutation(a: seq<SummaryRow>, b: seq<SummaryRow>)
    requires multiset(a) == multiset(b)
    ensures RegionRepeats(a) ==> RegionRepeats(b)
  {
    if RegionRepeats(a) {
      var i, j :| 0 <= i < j < |a| && a[i].region == a[j].region;
      assert a[i] in multiset(b) && a[j] in multiset(b);
      var p :| 0 <= p < |b| && b[p] == a[i];
      if a[i] != a[j] {
        var q :| 0 <= q < |b| && b[q] == a[j];
        if p < q { assert b[p].region == b[q].region; } else { assert b[q].region == b[p].region; }
      } else if !RegionRepeats(b) {
        TwoCopies(a, i, j);
        forall q | 0 <= q < |b| && q != p ensures b[q] != b[p] {
          if q < p { assert b[q].region != b[p].region; } else { assert b[p].region != b[q].region; }
        }
        OneCopy(b, p);
        assert false;
      }
    }
  }

  lemma TwoCopies<T>(a: seq<T>, i: int, j: int)
    requires 0 <= i < j < |a| && a[i] == a[j]
    ensures multiset(a)[a[i]] >= 2
  {
    assert a == a[..j] + [a[j]] + a[j + 1..];
    assert a[..j][i] == a[i];
    assert a[i] in multiset(a[..j]);
  }

  lemma OneCopy<T>(b: seq<T>, p: int)
    requires 0 <= p < |b| && forall q :: 0 <= q < |b| && q != p ==> b[q] != b[p]
    ensures multiset(b)[b[p]] == 1
  {
    assert b == b[..p] + [b[p]] + b[p + 1..];
    assert b[p] !in b[..p];
    assert b[p] !in b[p + 1..];
  }

  /** The three new columns of row `i` of the sorted rows. */
  method RowIndicators(s: seq<SummaryRow>, i: int) returns (r: Result<IndicatorRow, IndicatorError>)
    requires SortedByKey(s) && 0 <= i < |s|
    ensures r.Success? <==> s[i].region == Baseline || HasBaseline(s, s[i].year)
    ensures r.Success? ==> Computed(s, i, r.value)
    ensures r.Failure? ==> r.error == MissingBaseline(s[i].year)
  {
    var row := s[i];
    var growth: Option<real> := None;
    PreviousIsAdjacent(s, i);
    if i > 0 && s[i - 1].region == row.region {
      growth := Some(RoundTenth(GrowthRate(row.total, s[i - 1].total)));
    }
    var density: Option<real>;
    if row.region == Baseline {
      RoundIntExact(1000);
      density := Some(RoundTenth(100.0));
    } else {
      var baseline := BaselineTotal(s, row.year);
      if baseline.None? {
        return Failure(MissingBaseline(row.year));
      }
      density := RelativeDensity(row.total, baseline.value);
    }
    r := Success(IndicatorRow(row, growth, density, Femininity(row)));
  }

  lemma NoBaselineWitness(summary: seq<SummaryRow>, s: seq<SummaryRow>, i: int)
    requires multiset(s) == multiset(summary) && 0 <= i < |s|
    requires forall y :: HasBaseline(summary, y) <==> HasBaseline(s, y)
    requires s[i].region != Baseline && !HasBaseline(s, s[i].year)
    ensures exists k :: 0 <= k < |summary| && summary[k].region != Baseline
              && !HasBaseline(summary, summary[k].year) && summary[k].year == s[i].year
    ensures !forall k :: 0 <= k < |summary| && summary[k].region != Baseline ==> HasBaseline(summary, summary[k].year)
  {
    assert s[i] in multiset(summary);
    var k :| 0 <= k < |summary| && summary[k] == s[i];
  }

  /** Sorting keeps the same set of (Jalisco, year) rows. */
  lemma SameBaselines(a: seq<SummaryRow>, b: seq<SummaryRow>)
    requires multiset(a) == multiset(b)
    ensures forall y :: HasBaseline(a, y) <==> HasBaseline(b, y)
  {
    forall y ensures HasBaseline(a, y) ==> HasBaseline(b, y) {
      if HasBaseline(a, y) {
        var k :| 0 <= k < |a| && a[k].region == Baseline && a[k].year == y;
        assert a[k] in multiset(b);
      }
    }
    forall y ensures HasBaseline(b, y) ==> HasBaseline(a, y) {
      if HasBaseline(b, y) {
        var k :| 0 <= k < |b| && b[k].region == Baseline && b[k].year == y;
        assert b[k] in multiset(a);
      }
    }
  }

  /**
   * In rows sorted by (region, year) a region's rows are contiguous, so the
   * previous row of the same region is the row just before, if that one has
   * the same region, and there is none otherwise.
   */
  lemma PreviousIsAdjacent(s: seq<SummaryRow>, i: int)
    requires SortedByKey(s) && 0 <= i < |s|
    ensures LastTotalBefore(s, s[i].region, i)
         == if i > 0 && s[i - 1].region == s[i].region then Some(s[i - 1].total) else None
  {
    if i > 0 && s[i - 1].region != s[i].region {
      forall j | 0 <= j < i ensures s[j].region != s[i].region {
        if j < i - 1 && s[j].region == s[i].region {
          assert KeyLe(s[j], s[i - 1]) && KeyLe(s[i - 1], s[i]);
          StrLeAntisymmetric(s[i].region, s[i - 1].region);
        }
      }
    }
  }

  // ---------------------------------------------------------------------------
  // What the indicators promise
  // ---------------------------------------------------------------------------

  /**
   * A row has no growth rate exactly when no earlier row of the sorted table
   * has its region; a region's first row (its earliest year) never gets one.
   */
  lemma GrowthUndefinedExactlyAtFirstRow(s: seq<SummaryRow>, i: int)
    requires SortedByKey(s) && 0 <= i < |s|
    ensures Growth(s, i).None? <==> forall j :: 0 <= j < |s| && s[j].region == s[i].region ==> s[i].year <= s[j].year && i <= j
  {
    if Growth(s, i).None? {
      forall j | 0 <= j < |s| && s[j].region == s[i].region ensures s[i].year <= s[j].year && i <= j {
        if j != i { assert KeyLe(s[i], s[j]); }
      }
    }
  }

  /**
   * The rate is taken against the previous observed year, not year - 1: a
   * region observed in 2015 and 2025 only gets, for 2025, the growth over
   * the whole decade.
   */
  lemma GrowthAcrossGap(region: string)
    ensures var s := [SummaryRow(region, 2015, 1000, 500, 500, None, None),
                      SummaryRow(region, 2025, 1200, 600, 600, None, None)];
            Growth(s, 0) == None && Growth(s, 1) == Some(20.0)
  {
    assert GrowthRate(1200, 1000) == 20.0;
    RoundIntExact(200);
  }

  /** A zero previous total gives a growth of exactly 0.0. */
  lemma GrowthFromZero(s: seq<SummaryRow>, i: int)
    requires 0 <= i < |s| && LastTotalBefore(s, s[i].region, i) == Some(0)
    ensures Growth(s, i) == Some(0.0)
  {
    assert GrowthRate(s[i].total, 0) == 0.0;
    RoundIntExact(0);
    assert RoundTenth(0.0) == 0.0;
  }

  /** Worked example: 600 men and 400 women give a femininity index of 66.7. */
  lemma FemininityExample(region: string, year: int)
    ensures Femininity(SummaryRow(region, year, 1000, 600, 400, None, None)) == Some(66.7)
  {
    var x := 400.0 / 600.0 * 100.0;
    assert x * 10.0 + 0.5 == 4003.0 / 6.0;
    assert RoundInt(x * 10.0) == 667;
  }
}
