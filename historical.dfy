/**
 * `build_historical` of aggregate_analysis.py: for every region (in
 * `groupby` order) reindex its rows onto the years 2015..2025, linearly
 * interpolate the three count columns over the year axis using only that
 * region's own observations, and round them to integers.
 *
 * pandas' `interpolate(method="linear")` only fills forward: a gap between
 * two observations gets the straight line between them, a gap after the
 * last observation repeats the last value, and a gap before the first one
 * stays empty (and the integer cast then fails).  Callers therefore must
 * supply, for every region, an observation in 2015 and at most one row per
 * year (`reindex` refuses duplicate years).
 */
module Historical {
  import opened Wrappers
  import opened Numeric
  import opened Series

  const FirstYear: int := 2015
  const LastYear: int := 2025
  /** Rows per region: the years FirstYear..LastYear. */
  const Span: int := 11

  predicate InWindow(y: int)
  {
    FirstYear <= y <= LastYear
  }

  predicate Observed(rows: seq<YearRow>, region: string, y: int)
  {
    exists i :: 0 <= i < |rows| && rows[i].region == region && rows[i].year == y
  }

  /** At most one row per (region, year). */
  predicate UniqueYears(rows: seq<YearRow>)
  {
    forall i, j :: 0 <= i < j < |rows| && rows[i].region == rows[j].region ==> rows[i].year != rows[j].year
  }

  /** What `build_historical` needs of its input to produce integer columns. */
  predicate Ready(rows: seq<YearRow>)
  {
    && UniqueYears(rows)
    && forall i :: 0 <= i < |rows| ==> Observed(rows, rows[i].region, FirstYear)
  }

  /** One region's observed values of one metric, by year, inside the window. */
  function Observations(rows: seq<YearRow>, region: string, m: Metric): (obs: map<int, int>)
    ensures forall y :: y in obs <==> InWindow(y) && Observed(rows, region, y)
  {
    if rows == [] then map[]
    else
      var rest := Observations(rows[1..], region, m);
      assert forall y :: Observed(rows, region, y) <==> (rows[0].region == region && rows[0].year == y) || Observed(rows[1..], region, y) by {
        forall y | Observed(rows, region, y) && !(rows[0].region == region && rows[0].year == y)
          ensures Observed(rows[1..], region, y)
        {
          var i :| 0 <= i < |rows| && rows[i].region == region && rows[i].year == y;
          assert rows[1..][i - 1] == rows[i];
        }
        forall y | Observed(rows[1..], region, y) ensures Observed(rows, region, y) {
          var i :| 0 <= i < |rows[1..]| && rows[1..][i].region == region && rows[1..][i].year == y;
          assert rows[i + 1] == rows[1..][i];
        }
      }
      if rows[0].region == region && InWindow(rows[0].year) then rest[rows[0].year := Value(rows[0], m)] else rest
  }

  /** The nearest observed year at or before `y`. */
  function LastObservedAtOrBefore(obs: map<int, int>, y: int): (a: int)
    requires FirstYear in obs && FirstYear <= y
    ensures FirstYear <= a <= y && a in obs
    ensures forall k :: a < k <= y ==> k !in obs
    decreases y
  {
    if y in obs then y else LastObservedAtOrBefore(obs, y - 1)
  }

  /** The nearest observed year in `k..LastYear`, if any. */
  function NextObservedFrom(obs: map<int, int>, k: int): (b: Option<int>)
    ensures b.None? ==> forall j :: k <= j <= LastYear ==> j !in obs
    ensures b.Some? ==> k <= b.value <= LastYear && b.value in obs && forall j :: k <= j < b.value ==> j !in obs
    decreases LastYear + 1 - k
  {
    if k > LastYear then None
    else if k in obs then Some(k)
    else NextObservedFrom(obs, k + 1)
  }

  /** `interpolate(method="linear")` at year `y`, before rounding. */
  function Interpolate(obs: map<int, int>, y: int): (v: real)
    requires FirstYear in obs && InWindow(y)
    ensures y in obs ==> v == obs[y] as real
  {
    var a := LastObservedAtOrBefore(obs, y);
    if a == y then obs[y] as real
    else
      match NextObservedFrom(obs, y + 1)
      case None => obs[a] as real
      case Some(b) => Lerp(obs[a], obs[b], (y - a) as real / (b - a) as real)
  }

  /** The point a fraction `t` of the way from `from` to `to`. */
  function Lerp(from: int, to: int, t: real): real
  {
    from as real + Prod((to - from) as real, t)
  }

  /** The interpolated value rounded to an integer (`round().astype(int)`). */
  function Filled(obs: map<int, int>, y: int): int
    requires FirstYear in obs && InWindow(y)
  {
    RoundInt(Interpolate(obs, y))
  }

  /** One reindexed row: the region's year `y` with its three filled counts. */
  function FrameRow(rows: seq<YearRow>, region: string, y: int): (r: YearRow)
    requires Observed(rows, region, FirstYear) && InWindow(y)
    ensures r.region == region && r.year == y
  {
    YearRow(region, y,
      Filled(Observations(rows, region, Total), y),
      Filled(Observations(rows, region, Male), y),
      Filled(Observations(rows, region, Female), y))
  }

  /** Reference definition of one region's 11 rows. */
  function Frame(rows: seq<YearRow>, region: string): (f: seq<YearRow>)
    requires Observed(rows, region, FirstYear)
    ensures |f| == Span
    ensures forall j :: 0 <= j < Span ==> f[j].region == region && f[j].year == FirstYear + j
  {
    var f := seq(Span, j requires 0 <= j < Span => FrameRow(rows, region, FirstYear + j));
    assert forall j :: 0 <= j < Span ==> f[j] == FrameRow(rows, region, FirstYear + j);
    f
  }

  /** Row `j` of a region's frame is its reindexed row for year 2015 + j. */
  lemma FrameAt(rows: seq<YearRow>, region: string, j: int)
    requires Observed(rows, region, FirstYear) && 0 <= j < Span
    ensures Frame(rows, region)[j] == FrameRow(rows, region, FirstYear + j)
  {
  }

  /** Metric `m` of row `j` of a region's frame is the filled value for year 2015 + j. */
  lemma FrameValue(rows: seq<YearRow>, region: string, j: int, m: Metric)
    requires Observed(rows, region, FirstYear) && 0 <= j < Span
    ensures FirstYear in Observations(rows, region, m)
    ensures Value(Frame(rows, region)[j], m) == Filled(Observations(rows, region, m), FirstYear + j)
  {
    FrameAt(rows, region, j);
    match m
    case Total =>
    case Male =>
    case Female =>
  }

  predicate AllStartAtFirstYear(rows: seq<YearRow>, regions: seq<string>)
  {
    forall k :: 0 <= k < |regions| ==> Observed(rows, regions[k], FirstYear)
  }

  /** The frames of `regions`, concatenated in order. */
  function HistoricalOf(rows: seq<YearRow>, regions: seq<string>): (h: seq<YearRow>)
    requires AllStartAtFirstYear(rows, regions)
    ensures |h| == Span * |regions|
  {
    if regions == [] then [] else Frame(rows, regions[0]) + HistoricalOf(rows, regions[1..])
  }

  lemma ReadyRegions(rows: seq<YearRow>)
    requires Ready(rows)
    ensures AllStartAtFirstYear(rows, Regions(rows))
  {
    var regions := Regions(rows);
    forall k | 0 <= k < |regions| ensures Observed(rows, regions[k], FirstYear) {
      assert regions[k] in regions;
      var i :| 0 <= i < |rows| && rows[i].region == regions[k];
    }
  }

  /** Reference definition of the whole historical table. */
  function Historical(rows: seq<YearRow>): seq<YearRow>
    requires Ready(rows)
  {
    ReadyRegions(rows);
    HistoricalOf(rows, Regions(rows))
  }

  /**
   * `build_historical`: loop over the regions, build each region's reindexed
   * and interpolated frame, and append it to the output.
   */
  method BuildHistorical(master: seq<YearRow>) returns (hist: seq<YearRow>)
    requires Ready(master)
    ensures hist == Historical(master)
  {
    var regions := Regions(master);
    ReadyRegions(master);
    hist := [];
    for k := 0 to |regions|
      invariant hist == HistoricalOf(master, regions[..k])
    {
      var region := regions[k];
      assert Observed(master, region, FirstYear);
      var full := Frame(master, region);
      HistoricalOfAppend(master, regions[..k], [region]);
      assert regions[..k + 1] == regions[..k] + [region];
      assert HistoricalOf(master, [region]) == Frame(master, region);
      hist := hist + full;
    }
    assert regions[..|regions|] == regions;
  }

  lemma {:induction false} HistoricalOfAppend(rows: seq<YearRow>, a: seq<string>, b: seq<string>)
    requires AllStartAtFirstYear(rows, a) && AllStartAtFirstYear(rows, b)
    ensures AllStartAtFirstYear(rows, a + b)
    ensures HistoricalOf(rows, a + b) == HistoricalOf(rows, a) + HistoricalOf(rows, b)
  {
    assert forall k :: 0 <= k < |a + b| ==> (a + b)[k] == if k < |a| then a[k] else b[k - |a|];
    if a != [] {
      assert (a + b)[1..] == a[1..] + b;
      assert (a + b)[0] == a[0];
      HistoricalOfAppend(rows, a[1..], b);
      assert HistoricalOf(rows, a + b) == Frame(rows, a[0]) + HistoricalOf(rows, a[1..] + b);
    } else {
      assert a + b == b;
    }
  }

  // ---------------------------------------------------------------------------
  // What the historical table promises
  // ---------------------------------------------------------------------------

  lemma HistoricalOfCons(rows: seq<YearRow>, regions: seq<string>)
    requires AllStartAtFirstYear(rows, regions) && regions != []
    ensures AllStartAtFirstYear(rows, regions[1..])
    ensures HistoricalOf(rows, regions) == Frame(rows, regions[0]) + HistoricalOf(rows, regions[1..])
  {
    assert forall k :: 0 <= k < |regions[1..]| ==> regions[1..][k] == regions[k + 1];
  }

  lemma IndexPastHead(head: seq<YearRow>, tail: seq<YearRow>, i: int)
    requires |head| <= i < |head| + |tail|
    ensures (head + tail)[i] == tail[i - |head|]
  {
  }

  /** Row `Span * k + j` of the table is row `j` of the `k`-th region's frame. */
  lemma {:induction false} HistoricalOfAt(rows: seq<YearRow>, regions: seq<string>, k: int, j: int)
    requires AllStartAtFirstYear(rows, regions)
    requires 0 <= k < |regions| && 0 <= j < Span
    ensures 0 <= Span * k + j < |HistoricalOf(rows, regions)|
    ensures HistoricalOf(rows, regions)[Span * k + j] == Frame(rows, regions[k])[j]
  {
    HistoricalOfCons(rows, regions);
    if k > 0 {
      HistoricalOfAt(rows, regions[1..], k - 1, j);
      IndexPastHead(Frame(rows, regions[0]), HistoricalOf(rows, regions[1..]), Span * k + j);
      assert regions[1..][k - 1] == regions[k];
      assert Span * k + j - Span == Span * (k - 1) + j;
    }
  }

  /**
   * Every region gets exactly 11 consecutive rows, for the years 2015..2025 in
   * ascending order, all tagged with that region; the regions come in
   * ascending name order.
   */
  lemma ElevenRowsPerRegion(master: seq<YearRow>)
    requires Ready(master)
    ensures var h := Historical(master);
            var regions := Regions(master);
            && |h| == Span * |regions|
            && (forall i :: 0 <= i < |h| ==> h[i].region == regions[i / Span] && h[i].year == FirstYear + i % Span)
            && (forall k, i :: 0 <= k < |regions| && 0 <= i < |h| ==> (h[i].region == regions[k] <==> Span * k <= i < Span * k + Span))
  {
    var h := Historical(master);
    var regions := Regions(master);
    ReadyRegions(master);
    forall i | 0 <= i < |h| ensures h[i].region == regions[i / Span] && h[i].year == FirstYear + i % Span {
      HistoricalRowAt(master, regions, i);
    }
    forall k, i | 0 <= k < |regions| && 0 <= i < |h|
      ensures h[i].region == regions[k] <==> Span * k <= i < Span * k + Span
    {
      RegionBlock(regions, k, i);
    }
  }

  /** Row i of the concatenated frames is region i / 11's row for year 2015 + i % 11. */
  lemma HistoricalRowAt(rows: seq<YearRow>, regions: seq<string>, i: int)
    requires AllStartAtFirstYear(rows, regions) && 0 <= i < Span * |regions|
    ensures 0 <= i / Span < |regions|
    ensures HistoricalOf(rows, regions)[i].region == regions[i / Span]
    ensures HistoricalOf(rows, regions)[i].year == FirstYear + i % Span
  {
    HistoricalOfAt(rows, regions, i / Span, i % Span);
  }

  /** In blocks of 11 rows per sorted region, row i belongs to region k exactly inside block k. */
  lemma RegionBlock(regions: seq<string>, k: int, i: int)
    requires StrictlySorted(regions) && 0 <= k < |regions| && 0 <= i < Span * |regions|
    ensures 0 <= i / Span < |regions|
    ensures regions[i / Span] == regions[k] <==> Span * k <= i < Span * k + Span
  {
    if i / Span != k {
      SortedDistinct(regions, i / Span, k);
    }
  }

  /** The value of a row observed inside the window is the one its year maps to. */
  lemma {:induction false} ObservationValue(rows: seq<YearRow>, i: int, m: Metric)
    requires UniqueYears(rows) && 0 <= i < |rows| && InWindow(rows[i].year)
    ensures Observations(rows, rows[i].region, m)[rows[i].year] == Value(rows[i], m)
  {
    if i > 0 {
      assert UniqueYears(rows[1..]) by {
        forall a, b | 0 <= a < b < |rows[1..]| && rows[1..][a].region == rows[1..][b].region
          ensures rows[1..][a].year != rows[1..][b].year
        {
          assert rows[1..][a] == rows[a + 1] && rows[1..][b] == rows[b + 1];
        }
      }
      assert rows[1..][i - 1] == rows[i];
      ObservationValue(rows[1..], i - 1, m);
      assert !(rows[0].region == rows[i].region && rows[0].year == rows[i].year);
    }
  }

  /** An observed year keeps its observed value in the historical table. */
  lemma ObservedYearsKeepValues(master: seq<YearRow>, i: int, m: Metric)
    requires Ready(master) && 0 <= i < |master| && InWindow(master[i].year)
    ensures Value(Frame(master, master[i].region)[master[i].year - FirstYear], m) == Value(master[i], m)
  {
    var region := master[i].region;
    assert Observed(master, region, FirstYear);
    FrameValue(master, region, master[i].year - FirstYear, m);
    ObservationValue(master, i, m);
    RoundIntExact(Value(master[i], m));
  }

  /** After the last observation, the last observed value is repeated. */
  lemma TrailingGapRepeatsLast(obs: map<int, int>, y: int)
    requires FirstYear in obs && InWindow(y)
    requires NextObservedFrom(obs, y + 1).None?
    ensures Interpolate(obs, y) == obs[LastObservedAtOrBefore(obs, y)] as real
  {
  }

  /** An interpolated value lies between the two observations around it. */
  lemma GapBetweenNeighbours(obs: map<int, int>, y: int)
    requires FirstYear in obs && InWindow(y)
    requires NextObservedFrom(obs, y + 1).Some?
    ensures var lo := obs[LastObservedAtOrBefore(obs, y)];
            var hi := obs[NextObservedFrom(obs, y + 1).value];
            var v := Interpolate(obs, y);
            && (lo <= hi ==> lo as real <= v <= hi as real)
            && (hi <= lo ==> hi as real <= v <= lo as real)
  {
    var a := LastObservedAtOrBefore(obs, y);
    if a != y {
      var b := NextObservedFrom(obs, y + 1).value;
      var t := (y - a) as real / (b - a) as real;
      FractionInUnit(y - a, b - a);
      assert Interpolate(obs, y) == Lerp(obs[a], obs[b], t);
      LerpBetween(obs[a], obs[b], t);
    }
  }

  lemma LerpBetween(from: int, to: int, t: real)
    requires 0.0 <= t <= 1.0
    ensures from <= to ==> from as real <= Lerp(from, to, t) <= to as real
    ensures to <= from ==> to as real <= Lerp(from, to, t) <= from as real
  {
    ScaledBetween((to - from) as real, t);
  }

  lemma FractionInUnit(p: int, q: int)
    requires 0 <= p <= q && q > 0
    ensures 0.0 <= p as real / q as real <= 1.0
  {
  }

  lemma ScaledBetween(d: real, t: real)
    requires 0.0 <= t <= 1.0
    ensures d >= 0.0 ==> 0.0 <= Prod(d, t) <= d
    ensures d <= 0.0 ==> d <= Prod(d, t) <= 0.0
  {
  }

  /** 1000 people in 2015 and 1200 in 2025 give exactly 1100 in 2020. */
  lemma MidpointExample()
    ensures Filled(map[2015 := 1000, 2025 := 1200], 2020) == 1100
  {
    var obs := map[2015 := 1000, 2025 := 1200];
    assert LastObservedAtOrBefore(obs, 2020) == 2015;
    assert NextObservedFrom(obs, 2021) == Some(2025);
    assert Interpolate(obs, 2020) == 1100.0;
    RoundIntExact(1100);
  }

  /** A region observed in every year 2015..2025 is returned unchanged. */
  lemma FullyObservedUnchanged(obs: map<int, int>, y: int)
    requires forall k :: InWindow(k) ==> k in obs
    requires InWindow(y)
    ensures FirstYear in obs && Filled(obs, y) == obs[y]
  {
    RoundIntExact(obs[y]);
  }

  /** The built table is itself ready: one row per (region, year), 2015 always present. */
  lemma HistoricalReady(master: seq<YearRow>)
    requires Ready(master)
    ensures Ready(Historical(master))
  {
    var h := Historical(master);
    var regions := Regions(master);
    ElevenRowsPerRegion(master);
    forall i | 0 <= i < |h| ensures Observed(h, h[i].region, FirstYear) {
      var k := i / Span;
      assert h[Span * k].region == regions[k] && h[Span * k].year == FirstYear;
    }
    forall i, j | 0 <= i < j < |h| && h[i].region == h[j].region ensures h[i].year != h[j].year {
      assert h[i].region == regions[j / Span] ==> Span * (j / Span) <= i;
    }
  }

  /** The built table has the same regions, in the same order. */
  lemma HistoricalRegions(master: seq<YearRow>)
    requires Ready(master)
    ensures Regions(Historical(master)) == Regions(master)
  {
    var h := Historical(master);
    var regions := Regions(master);
    ElevenRowsPerRegion(master);
    forall x ensures x in Regions(h) <==> x in regions {
      if x in regions {
        var k :| 0 <= k < |regions| && regions[k] == x;
        assert h[Span * k].region == x;
      }
      if HasRegion(h, x) {
        var i :| 0 <= i < |h| && h[i].region == x;
        assert x == regions[i / Span];
      }
    }
    StrictlySortedUnique(Regions(h), regions);
  }

  /**
   * Interpolation is idempotent: building the historical table from an
   * already built one gives the same table.
   */
  lemma HistoricalIdempotent(master: seq<YearRow>)
    requires Ready(master)
    ensures Ready(Historical(master))
    ensures Historical(Historical(master)) == Historical(master)
  {
    var h := Historical(master);
    var regions := Regions(master);
    ReadyRegions(master);
    HistoricalReady(master);
    HistoricalRegions(master);
    forall k | 0 <= k < |regions| ensures Observed(h, regions[k], FirstYear) && Frame(h, regions[k]) == Frame(master, regions[k]) {
      FrameRebuilt(master, k);
    }
    HistoricalOfSameFrames(h, master, regions);
  }

  lemma FrameRebuilt(master: seq<YearRow>, k: int)
    requires Ready(master)
    requires 0 <= k < |Regions(master)|
    requires Ready(Historical(master))
    ensures AllStartAtFirstYear(master, Regions(master))
    ensures Observed(Historical(master), Regions(master)[k], FirstYear)
    ensures Frame(Historical(master), Regions(master)[k]) == Frame(master, Regions(master)[k])
  {
    var h := Historical(master);
    var regions := Regions(master);
    var region := regions[k];
    ReadyRegions(master);
    HistoricalOfAt(master, regions, k, 0);
    assert h[Span * k].region == region && h[Span * k].year == FirstYear;
    var rebuilt := Frame(h, region);
    var old_ := Frame(master, region);
    forall j | 0 <= j < Span ensures rebuilt[j] == old_[j] {
      FrameRowRebuilt(master, k, j, Total);
      FrameRowRebuilt(master, k, j, Male);
      FrameRowRebuilt(master, k, j, Female);
      FrameAt(h, region, j);
    }
  }

  lemma FrameRowRebuilt(master: seq<YearRow>, k: int, j: int, m: Metric)
    requires Ready(master)
    requires 0 <= k < |Regions(master)| && 0 <= j < Span
    requires Ready(Historical(master))
    ensures AllStartAtFirstYear(master, Regions(master))
    ensures Observed(Historical(master), Regions(master)[k], FirstYear)
    ensures FirstYear in Observations(Historical(master), Regions(master)[k], m)
    ensures Filled(Observations(Historical(master), Regions(master)[k], m), FirstYear + j)
         == Value(Frame(master, Regions(master)[k])[j], m)
  {
    var h := Historical(master);
    var regions := Regions(master);
    var region := regions[k];
    ReadyRegions(master);
    forall y | InWindow(y) ensures Observed(h, region, y) {
      HistoricalOfAt(master, regions, k, y - FirstYear);
      var i := Span * k + (y - FirstYear);
      assert h[i].region == region && h[i].year == y;
    }
    var i := Span * k + j;
    HistoricalOfAt(master, regions, k, j);
    ObservationValue(h, i, m);
    FullyObservedUnchanged(Observations(h, region, m), FirstYear + j);
  }

  lemma {:induction false} HistoricalOfSameFrames(a: seq<YearRow>, b: seq<YearRow>, regions: seq<string>)
    requires AllStartAtFirstYear(a, regions) && AllStartAtFirstYear(b, regions)
    requires forall k :: 0 <= k < |regions| ==> Frame(a, regions[k]) == Frame(b, regions[k])
    ensures HistoricalOf(a, regions) == HistoricalOf(b, regions)
  {
    if regions != [] {
      HistoricalOfSameFrames(a, b, regions[1..]);
    }
  }
}
