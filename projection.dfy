/**
 * `project_to_2035` of aggregate_analysis.py: for every region (in `groupby`
 * order) and each of the three count columns, fit an ordinary least-squares
 * line of the value on the year over that region's historical rows, evaluate
 * it at 2026..2035 and round; the in-sample R² and mean squared error of each
 * fit are reported alongside.
 *
 * The fit is the closed form slope = Sxy / Sxx, intercept = mean(y) -
 * slope * mean(x).  When all years coincide (Sxx = 0) the slope is 0, the
 * minimum-norm least-squares solution.
 */
module Projection {
  import opened Wrappers
  import opened Numeric
  import opened Series
  import Historical

  const FirstFutureYear: int := 2026
  /** Projected rows per region: the years 2026..2035. */
  const Horizon: int := 10

  /** A training point (year, value), both read as reals by the regression. */
  type Point = (real, real)

  /** `grp[["AÑO"]]` and `grp[m]`: the points of one region, in row order. */
  function Points(rows: seq<YearRow>, region: string, m: Metric): (p: seq<Point>)
    ensures |p| <= |rows|
    ensures |p| > 0 <==> HasRegion(rows, region)
  {
    if rows == [] then []
    else
      var rest := Points(rows[1..], region, m);
      assert HasRegion(rows, region) <==> rows[0].region == region || HasRegion(rows[1..], region) by {
        if HasRegion(rows, region) && rows[0].region != region {
          var i :| 0 <= i < |rows| && rows[i].region == region;
          assert rows[1..][i - 1] == rows[i];
        }
        if HasRegion(rows[1..], region) {
          var i :| 0 <= i < |rows[1..]| && rows[1..][i].region == region;
          assert rows[i + 1] == rows[1..][i];
        }
      }
      if rows[0].region == region then [(rows[0].year as real, Value(rows[0], m) as real)] + rest else rest
  }

  // ---------------------------------------------------------------------------
  // Sums and the least-squares line
  // ---------------------------------------------------------------------------

  function SumX(p: seq<Point>): real
  {
    if p == [] then 0.0 else p[0].0 + SumX(p[1..])
  }

  function SumY(p: seq<Point>): real
  {
    if p == [] then 0.0 else p[0].1 + SumY(p[1..])
  }

  function MeanX(p: seq<Point>): real
    requires p != []
  {
    SumX(p) / |p| as real
  }

  function MeanY(p: seq<Point>): real
    requires p != []
  {
    SumY(p) / |p| as real
  }

  /** Sum of squared deviations of the years from `mx`. */
  function Sxx(p: seq<Point>, mx: real): real
  {
    if p == [] then 0.0 else Sq(p[0].0 - mx) + Sxx(p[1..], mx)
  }

  /** Sum of cross-deviations of years and values. */
  function Sxy(p: seq<Point>, mx: real, my: real): real
  {
    if p == [] then 0.0 else Prod(p[0].0 - mx, p[0].1 - my) + Sxy(p[1..], mx, my)
  }

  /** Sum of squared deviations of the values from `my`. */
  function SStot(p: seq<Point>, my: real): real
  {
    if p == [] then 0.0 else Sq(p[0].1 - my) + SStot(p[1..], my)
  }

  datatype Line = Line(slope: real, intercept: real)

  function Predict(l: Line, x: real): real
  {
    l.intercept + l.slope * x
  }

  /** The least-squares slope Sxy / Sxx, or 0 when all years coincide. */
  function Slope(p: seq<Point>): real
    requires p != []
  {
    var mx := MeanX(p);
    var sxx := Sxx(p, mx);
    if sxx == 0.0 then 0.0 else Sxy(p, mx, MeanY(p)) / sxx
  }

  /** `LinearRegression().fit(X, y)` for one feature. */
  function Fit(p: seq<Point>): Line
    requires p != []
  {
    Line(Slope(p), MeanY(p) - Slope(p) * MeanX(p))
  }

  function Residual(l: Line, pt: Point): real
  {
    pt.1 - Predict(l, pt.0)
  }

  function ResidualSum(p: seq<Point>, l: Line): real
  {
    if p == [] then 0.0 else Residual(l, p[0]) + ResidualSum(p[1..], l)
  }

  /** Sum of squared residuals. */
  function SSres(p: seq<Point>, l: Line): real
  {
    if p == [] then 0.0 else Sq(Residual(l, p[0])) + SSres(p[1..], l)
  }

  /** A sum of squared deviations is never negative. */
  lemma {:induction false} SxxNonNegative(p: seq<Point>, mx: real)
    ensures Sxx(p, mx) >= 0.0
  {
    if p != [] {
      SxxNonNegative(p[1..], mx);
      SquareNonNegative(p[0].0 - mx);
    }
  }

  lemma {:induction false} SStotNonNegative(p: seq<Point>, my: real)
    ensures SStot(p, my) >= 0.0
  {
    if p != [] {
      SStotNonNegative(p[1..], my);
      SquareNonNegative(p[0].1 - my);
    }
  }

  lemma {:induction false} SSresNonNegative(p: seq<Point>, l: Line)
    ensures SSres(p, l) >= 0.0
  {
    if p != [] {
      SSresNonNegative(p[1..], l);
      SquareNonNegative(Residual(l, p[0]));
    }
  }

  /** `mean_squared_error(y, model.predict(X))`: never negative. */
  function Mse(p: seq<Point>, l: Line): (r: real)
    requires p != []
    ensures r >= 0.0
  {
    SSresNonNegative(p, l);
    SSres(p, l) / |p| as real
  }

  /** `r2_score(y, model.predict(X))`; `None` for a constant series, whose convention is left out. */
  function R2(p: seq<Point>, l: Line): (r: Option<real>)
    requires p != []
    ensures r.None? <==> SStot(p, MeanY(p)) == 0.0
    ensures r.Some? ==> r.value <= 1.0
  {
    SSresNonNegative(p, l);
    SStotNonNegative(p, MeanY(p));
    var tot := SStot(p, MeanY(p));
    if tot == 0.0 then None else Some(1.0 - SSres(p, l) / tot)
  }

  /** The fit quality `project_to_2035` reports for one (region, metric). */
  datatype Diagnostic = Diagnostic(region: string, metric: Metric, line: Line, r2: Option<real>, mse: real)

  function Diagnose(rows: seq<YearRow>, region: string, m: Metric): Diagnostic
    requires HasRegion(rows, region)
  {
    var p := Points(rows, region, m);
    var l := Fit(p);
    Diagnostic(region, m, l, R2(p, l), Mse(p, l))
  }

  /** The rounded prediction of one metric of one region at `year`. */
  function Projected(rows: seq<YearRow>, region: string, m: Metric, year: int): int
    requires HasRegion(rows, region)
  {
    RoundInt(Predict(Fit(Points(rows, region, m)), year as real))
  }

  /** Reference definition of one region's 10 projected rows. */
  function ProjectedFrame(rows: seq<YearRow>, region: string): (f: seq<YearRow>)
    requires HasRegion(rows, region)
    ensures |f| == Horizon
    ensures forall j :: 0 <= j < Horizon ==> f[j] == ProjectedRow(rows, region, FirstFutureYear + j)
  {
    seq(Horizon, j requires 0 <= j < Horizon => ProjectedRow(rows, region, FirstFutureYear + j))
  }

  function ProjectedRow(rows: seq<YearRow>, region: string, year: int): YearRow
    requires HasRegion(rows, region)
  {
    YearRow(region, year, Projected(rows, region, Total, year), Projected(rows, region, Male, year), Projected(rows, region, Female, year))
  }

  predicate AllPresent(rows: seq<YearRow>, regions: seq<string>)
  {
    forall k :: 0 <= k < |regions| ==> HasRegion(rows, regions[k])
  }

  function ProjectionOf(rows: seq<YearRow>, regions: seq<string>): (r: seq<YearRow>)
    requires AllPresent(rows, regions)
    ensures |r| == Horizon * |regions|
  {
    if regions == [] then [] else ProjectedFrame(rows, regions[0]) + ProjectionOf(rows, regions[1..])
  }

  function DiagnosticsOf(rows: seq<YearRow>, regions: seq<string>): (r: seq<Diagnostic>)
    requires AllPresent(rows, regions)
    ensures |r| == 3 * |regions|
  {
    if regions == [] then []
    else
      [Diagnose(rows, regions[0], Total), Diagnose(rows, regions[0], Male), Diagnose(rows, regions[0], Female)]
      + DiagnosticsOf(rows, regions[1..])
  }

  lemma RegionsPresent(rows: seq<YearRow>)
    ensures AllPresent(rows, Regions(rows))
  {
    var regions := Regions(rows);
    forall k | 0 <= k < |regions| ensures HasRegion(rows, regions[k]) {
      assert regions[k] in regions;
    }
  }

  /** Reference definition of the projected table. */
  function Projection(rows: seq<YearRow>): seq<YearRow>
  {
    RegionsPresent(rows);
    ProjectionOf(rows, Regions(rows))
  }

  /** Reference definition of the reported fit diagnostics. */
  function Diagnostics(rows: seq<YearRow>): seq<Diagnostic>
  {
    RegionsPresent(rows);
    DiagnosticsOf(rows, Regions(rows))
  }

  lemma {:induction false} AllPresentAppend(rows: seq<YearRow>, a: seq<string>, b: seq<string>)
    requires AllPresent(rows, a) && AllPresent(rows, b)
    ensures AllPresent(rows, a + b)
  {
    forall k | 0 <= k < |a + b| ensures HasRegion(rows, (a + b)[k]) {
      if k < |a| { assert (a + b)[k] == a[k]; } else { assert (a + b)[k] == b[k - |a|]; }
    }
  }

  lemma {:induction false} ProjectionOfAppend(rows: seq<YearRow>, a: seq<string>, b: seq<string>)
    requires AllPresent(rows, a) && AllPresent(rows, b)
    ensures AllPresent(rows, a + b)
    ensures ProjectionOf(rows, a + b) == ProjectionOf(rows, a) + ProjectionOf(rows, b)
  {
    AllPresentAppend(rows, a, b);
    if a != [] {
      assert (a + b)[1..] == a[1..] + b;
      assert (a + b)[0] == a[0];
      ProjectionOfAppend(rows, a[1..], b);
      assert ProjectionOf(rows, a + b) == ProjectedFrame(rows, a[0]) + ProjectionOf(rows, a[1..] + b);
    } else {
      assert a + b == b;
    }
  }

  lemma {:induction false} DiagnosticsOfAppend(rows: seq<YearRow>, a: seq<string>, b: seq<string>)
    requires AllPresent(rows, a) && AllPresent(rows, b)
    ensures AllPresent(rows, a + b)
    ensures DiagnosticsOf(rows, a + b) == DiagnosticsOf(rows, a) + DiagnosticsOf(rows, b)
  {
    AllPresentAppend(rows, a, b);
    if a != [] {
      assert (a + b)[1..] == a[1..] + b;
      assert (a + b)[0] == a[0];
      DiagnosticsOfAppend(rows, a[1..], b);
    } else {
      assert a + b == b;
    }
  }

  /**
   * `project_to_2035`: for each region, fit the three metrics and build the
   * region's ten future rows, then append them.
   */
  method ProjectTo2035(hist: seq<YearRow>) returns (projected: seq<YearRow>, diagnostics: seq<Diagnostic>)
    ensures projected == Projection(hist)
    ensures diagnostics == Diagnostics(hist)
  {
    var regions := Regions(hist);
    RegionsPresent(hist);
    projected, diagnostics := [], [];
    for k := 0 to |regions|
      invariant AllPresent(hist, regions[..k])
      invariant projected == ProjectionOf(hist, regions[..k])
      invariant diagnostics == DiagnosticsOf(hist, regions[..k])
    {
      var rows, fits := ProjectRegion(hist, regions[k]);
      PrefixStep(hist, regions, k);
      projected := projected + rows;
      diagnostics := diagnostics + fits;
    }
    assert regions[..|regions|] == regions;
  }

  /** Extending the prefix of regions by one appends that region's rows and fits. */
  lemma PrefixStep(rows: seq<YearRow>, regions: seq<string>, k: int)
    requires AllPresent(rows, regions) && 0 <= k < |regions|
    ensures AllPresent(rows, regions[..k]) && AllPresent(rows, [regions[k]]) && AllPresent(rows, regions[..k + 1])
    ensures ProjectionOf(rows, regions[..k + 1]) == ProjectionOf(rows, regions[..k]) + ProjectionOf(rows, [regions[k]])
    ensures DiagnosticsOf(rows, regions[..k + 1]) == DiagnosticsOf(rows, regions[..k]) + DiagnosticsOf(rows, [regions[k]])
  {
    assert regions[..k + 1] == regions[..k] + [regions[k]];
    assert AllPresent(rows, regions[..k]) by {
      forall j | 0 <= j < k ensures HasRegion(rows, regions[..k][j]) {
        assert regions[..k][j] == regions[j];
      }
    }
    ProjectionOfAppend(rows, regions[..k], [regions[k]]);
    DiagnosticsOfAppend(rows, regions[..k], [regions[k]]);
  }

  /**
   * The body of the region loop: fit the three metrics one after the other,
   * recording each fit's diagnostics, then evaluate the lines at 2026..2035.
   */
  method ProjectRegion(hist: seq<YearRow>, region: string) returns (rows: seq<YearRow>, fits: seq<Diagnostic>)
    requires HasRegion(hist, region)
    ensures rows == ProjectedFrame(hist, region) == ProjectionOf(hist, [region])
    ensures fits == DiagnosticsOf(hist, [region])
  {
    var lines: seq<Line> := [];
    fits := [];
    for mi := 0 to 3
      invariant |lines| == mi && |fits| == mi
      invariant forall q :: 0 <= q < mi ==> lines[q] == Fit(Points(hist, region, Metrics[q]))
      invariant forall q :: 0 <= q < mi ==> fits[q] == Diagnose(hist, region, Metrics[q])
    {
      var p := Points(hist, region, Metrics[mi]);
      var model := Fit(p);
      lines := lines + [model];
      fits := fits + [Diagnostic(region, Metrics[mi], model, R2(p, model), Mse(p, model))];
    }
    rows := seq(Horizon, j requires 0 <= j < Horizon =>
      YearRow(region, FirstFutureYear + j,
        RoundInt(Predict(lines[0], (FirstFutureYear + j) as real)),
        RoundInt(Predict(lines[1], (FirstFutureYear + j) as real)),
        RoundInt(Predict(lines[2], (FirstFutureYear + j) as real))));
    assert rows == ProjectedFrame(hist, region);
  }

  // ---------------------------------------------------------------------------
  // What the least-squares fit promises
  // ---------------------------------------------------------------------------

  lemma {:induction false} ResidualSumIs(p: seq<Point>, l: Line)
    ensures ResidualSum(p, l) == SumY(p) - Prod(|p| as real, l.intercept) - Prod(l.slope, SumX(p))
  {
    if p != [] {
      ResidualSumIs(p[1..], l);
      ResidualSumStep(p[0], SumX(p[1..]), |p[1..]| as real, l);
    }
  }

  lemma ResidualSumStep(pt: Point, sx: real, n: real, l: Line)
    ensures Residual(l, pt) - Prod(n, l.intercept) - Prod(l.slope, sx)
            == -Prod(n + 1.0, l.intercept) - Prod(l.slope, pt.0 + sx) + pt.1
  {
  }

  lemma MeansTimesCount(p: seq<Point>)
    requires p != []
    ensures Prod(|p| as real, MeanX(p)) == SumX(p)
    ensures Prod(|p| as real, MeanY(p)) == SumY(p)
  {
  }

  /** The fitted intercept puts the line through the mean point. */
  lemma FitIntercept(p: seq<Point>)
    requires p != []
    ensures Fit(p).intercept == MeanY(p) - Prod(Fit(p).slope, MeanX(p))
  {
  }

  /** Any line through the mean point leaves residuals that sum to zero. */
  lemma ResidualsCancelThroughMeans(p: seq<Point>, l: Line)
    requires p != []
    requires l.intercept == MeanY(p) - Prod(l.slope, MeanX(p))
    ensures ResidualSum(p, l) == 0.0
  {
    ResidualSumIs(p, l);
    MeansTimesCount(p);
    InterceptCancel(|p| as real, SumY(p), SumX(p), l.slope, l.intercept, MeanY(p), MeanX(p));
  }

  /** The residuals of the fitted line on its training points sum to zero. */
  lemma FitResidualsSumToZero(p: seq<Point>)
    requires p != []
    ensures ResidualSum(p, Fit(p)) == 0.0
  {
    FitIntercept(p);
    ResidualsCancelThroughMeans(p, Fit(p));
  }

  lemma InterceptCancel(n: real, sy: real, sx: real, s: real, i: real, my: real, mx: real)
    requires Prod(n, my) == sy && Prod(n, mx) == sx && i == my - Prod(s, mx)
    ensures sy - Prod(n, i) - Prod(s, sx) == 0.0
  {
    assert n * i == n * my - s * (n * mx);
  }

  /** The fitted line passes through (mean year, mean value). */
  lemma FitThroughMeans(p: seq<Point>)
    requires p != []
    ensures Predict(Fit(p), MeanX(p)) == MeanY(p)
  {
    FitIntercept(p);
    ThroughPoint(Fit(p), MeanX(p), MeanY(p));
  }

  lemma ThroughPoint(l: Line, x: real, y: real)
    requires l.intercept == y - Prod(l.slope, x)
    ensures Predict(l, x) == y
  {
  }

  /** Every point has value `c`. */
  predicate FlatPoints(p: seq<Point>, c: real)
  {
    forall i :: 0 <= i < |p| ==> p[i].1 == c
  }

  lemma {:induction false} SumsOfConstant(p: seq<Point>, mx: real, c: real)
    requires FlatPoints(p, c)
    ensures SumY(p) == |p| as real * c
    ensures Sxy(p, mx, c) == 0.0
  {
    if p != [] {
      assert FlatPoints(p[1..], c) by {
        forall i | 0 <= i < |p[1..]| ensures p[1..][i].1 == c {
          assert p[1..][i] == p[i + 1];
        }
      }
      assert p[0].1 == c;
      SumsOfConstant(p[1..], mx, c);
      assert |p| as real * c == c + |p[1..]| as real * c;
    }
  }

  /**
   * A constant history gives slope 0 and intercept equal to the constant,
   * so every projected value is that constant.
   */
  lemma ConstantHistoryProjectsConstant(p: seq<Point>, c: int)
    requires p != []
    requires FlatPoints(p, c as real)
    ensures Fit(p) == Line(0.0, c as real)
    ensures forall x :: RoundInt(Predict(Fit(p), x)) == c
  {
    SumsOfConstant(p, MeanX(p), c as real);
    MulDivCancel(c as real, |p| as real);
    assert MeanY(p) == c as real;
    forall x ensures RoundInt(Predict(Fit(p), x)) == c {
      RoundIntExact(c);
    }
  }

  /** Every point has value `a + b * year`. */
  predicate OnLinePoints(p: seq<Point>, a: real, b: real)
  {
    forall i :: 0 <= i < |p| ==> p[i].1 == Predict(Line(b, a), p[i].0)
  }

  lemma {:induction false} SumYOfLinear(p: seq<Point>, a: real, b: real)
    requires OnLinePoints(p, a, b)
    ensures SumY(p) == Prod(|p| as real, a) + Prod(b, SumX(p))
  {
    if p != [] {
      var rest := p[1..];
      OnLinePointsTail(p, a, b);
      SumYOfLinear(rest, a, b);
      LinearSumStep(p[0].0, p[0].1, SumX(rest), SumY(rest), |rest| as real, a, b);
    }
  }

  lemma LinearSumStep(x: real, y: real, sx: real, sy: real, n: real, a: real, b: real)
    requires y == Predict(Line(b, a), x) && sy == Prod(n, a) + Prod(b, sx)
    ensures y + sy == Prod(n + 1.0, a) + Prod(b, x + sx)
  {
  }

  lemma {:induction false} SxyOfLinear(p: seq<Point>, mx: real, a: real, b: real)
    requires OnLinePoints(p, a, b)
    ensures Sxy(p, mx, Predict(Line(b, a), mx)) == Prod(b, Sxx(p, mx))
  {
    if p != [] {
      var rest := p[1..];
      var c := Predict(Line(b, a), mx);
      OnLinePointsTail(p, a, b);
      SxyOfLinear(rest, mx, a, b);
      LinearDeviation(p[0].0, p[0].1, mx, a, b);
      FactorStep(b, p[0].0 - mx, p[0].1 - c, Sxy(rest, mx, c), Sxx(rest, mx));
    }
  }

  lemma OnLinePointsTail(p: seq<Point>, a: real, b: real)
    requires p != [] && OnLinePoints(p, a, b)
    ensures p[0].1 == Predict(Line(b, a), p[0].0)
    ensures OnLinePoints(p[1..], a, b)
  {
    forall i | 0 <= i < |p[1..]| ensures p[1..][i].1 == Predict(Line(b, a), p[1..][i].0) {
      assert p[1..][i] == p[i + 1];
    }
  }

  lemma LinearDeviation(x: real, y: real, mx: real, a: real, b: real)
    requires y == Predict(Line(b, a), x)
    ensures y - Predict(Line(b, a), mx) == Prod(b, x - mx)
  {
  }

  lemma FactorStep(b: real, d: real, e: real, sxyRest: real, sxxRest: real)
    requires e == Prod(b, d) && sxyRest == Prod(b, sxxRest)
    ensures Prod(d, e) + sxyRest == Prod(b, Sq(d) + sxxRest)
  {
    assert d * (b * d) == b * (d * d);
  }

  lemma MeanOfLinear(p: seq<Point>, a: real, b: real)
    requires p != []
    requires OnLinePoints(p, a, b)
    ensures MeanY(p) == Predict(Line(b, a), MeanX(p))
  {
    SumYOfLinear(p, a, b);
    MeansTimesCount(p);
    CountCancel(|p| as real, MeanY(p), MeanX(p), SumY(p), SumX(p), a, b);
  }

  lemma CountCancel(n: real, my: real, mx: real, sy: real, sx: real, a: real, b: real)
    requires n > 0.0 && Prod(n, my) == sy && Prod(n, mx) == sx && sy == Prod(n, a) + Prod(b, sx)
    ensures my == Predict(Line(b, a), mx)
  {
    var c := a + b * mx;
    assert n * my == n * c;
    assert my == (n * my) / n;
  }

  /**
   * A history lying exactly on a line (with at least two distinct years) is
   * fitted by that very line.
   */
  lemma LinearHistoryFit(p: seq<Point>, a: real, b: real)
    requires p != []
    requires OnLinePoints(p, a, b)
    requires Sxx(p, MeanX(p)) > 0.0
    ensures Fit(p) == Line(b, a)
  {
    var mx := MeanX(p);
    var sxx := Sxx(p, mx);
    MeanOfLinear(p, a, b);
    SxyOfLinear(p, mx, a, b);
    MulDivCancel(b, sxx);
    FitSlope(p);
    FitIntercept(p);
  }

  /** The rounded prediction of the line a + b * x is within half a unit of it. */
  lemma RoundedOnLine(l: Line, a: real, b: real, x: real)
    requires l == Line(b, a)
    ensures -0.5 < RoundInt(Predict(l, x)) as real - Predict(Line(b, a), x) <= 0.5
  {
  }

  lemma {:induction false} SxxAtLeastTerm(p: seq<Point>, mx: real, i: int)
    requires 0 <= i < |p|
    ensures Sxx(p, mx) >= Sq(p[i].0 - mx)
  {
    SquareNonNegative(p[0].0 - mx);
    SxxNonNegative(p[1..], mx);
    if i > 0 {
      SxxAtLeastTerm(p[1..], mx, i - 1);
      assert p[1..][i - 1] == p[i];
    }
  }

  /** Two distinct years make the spread of the years positive. */
  lemma SxxPositive(p: seq<Point>, mx: real, i: int, j: int)
    requires 0 <= i < |p| && 0 <= j < |p| && p[i].0 != p[j].0
    ensures Sxx(p, mx) > 0.0
  {
    SxxAtLeastTerm(p, mx, i);
    SxxAtLeastTerm(p, mx, j);
    var di := p[i].0 - mx;
    var dj := p[j].0 - mx;
    if di != 0.0 {
      SquarePositive(di);
    } else {
      assert dj != 0.0;
      SquarePositive(dj);
    }
  }

  /**
   * Sum over the points of the difference between a point's squared deviation
   * from `my` and its squared residual from the line of slope `s` through
   * (mx, my): 2 s dx dy - s^2 dx^2.
   */
  function Cross(p: seq<Point>, mx: real, my: real, s: real): real
  {
    if p == [] then 0.0 else CrossTerm(p[0], mx, my, s) + Cross(p[1..], mx, my, s)
  }

  /** One point's cross term. */
  function CrossTerm(pt: Point, mx: real, my: real, s: real): real
  {
    2.0 * Prod(s, Prod(pt.0 - mx, pt.1 - my)) - Prod(Sq(s), Sq(pt.0 - mx))
  }

  /** Total sum of squares = residual sum of squares + cross terms, for any line through (mx, my). */
  lemma {:induction false} SquaresDecompose(p: seq<Point>, mx: real, my: real, l: Line)
    requires l.intercept == my - Prod(l.slope, mx)
    ensures SStot(p, my) == SSres(p, l) + Cross(p, mx, my, l.slope)
  {
    if p != [] {
      SquaresDecompose(p[1..], mx, my, l);
      PointDecompose(p[0], mx, my, l);
    }
  }

  /** One point's share of the decomposition. */
  lemma PointDecompose(pt: Point, mx: real, my: real, l: Line)
    requires l.intercept == my - Prod(l.slope, mx)
    ensures Sq(pt.1 - my) == Sq(Residual(l, pt)) + CrossTerm(pt, mx, my, l.slope)
  {
    var s := l.slope;
    var d, v := pt.0 - mx, pt.1 - my;
    var e := Residual(l, pt);
    assert e == v - s * d;
    assert v * v == e * e + (2.0 * s * (d * v) - s * s * (d * d));
  }

  /** The cross terms add up to 2 s Sxy - s^2 Sxx. */
  lemma {:induction false} CrossIs(p: seq<Point>, mx: real, my: real, s: real)
    ensures ClosedCross(Cross(p, mx, my, s), s, Sxy(p, mx, my), Sxx(p, mx))
  {
    if p != [] {
      var rest := p[1..];
      CrossIs(rest, mx, my, s);
      var d := p[0].0 - mx;
      var v := p[0].1 - my;
      ScaledSumStep(s, Prod(d, v), Sq(d), Sxy(rest, mx, my), Sxx(rest, mx), Cross(rest, mx, my, s),
        Cross(p, mx, my, s), Sxy(p, mx, my), Sxx(p, mx));
    } else {
      ScaledZero(s, Cross(p, mx, my, s), Sxy(p, mx, my), Sxx(p, mx));
    }
  }

  /** `c` is 2 s Sxy - s^2 Sxx. */
  predicate ClosedCross(c: real, s: real, sxy: real, sxx: real)
  {
    c == 2.0 * Prod(s, sxy) - Prod(Sq(s), sxx)
  }

  lemma ScaledZero(s: real, c: real, sxy: real, sxx: real)
    requires c == 0.0 && sxy == 0.0 && sxx == 0.0
    ensures ClosedCross(c, s, sxy, sxx)
  {
  }

  lemma ScaledSumStep(s: real, a: real, b: real, sa: real, sb: real, c: real, total: real, sxy: real, sxx: real)
    requires ClosedCross(c, s, sa, sb)
    requires total == 2.0 * Prod(s, a) - Prod(Sq(s), b) + c && sxy == a + sa && sxx == b + sb
    ensures ClosedCross(total, s, sxy, sxx)
  {
    assert s * sxy == s * a + s * sa;
    assert (s * s) * sxx == (s * s) * b + (s * s) * sb;
  }

  /** With the least-squares slope the cross term vanishes: the residual sum of squares never exceeds the total. */
  lemma FitResidualsBelowTotal(p: seq<Point>)
    requires p != []
    ensures SSres(p, Fit(p)) <= SStot(p, MeanY(p))
  {
    FitIsLeastSquares(p);
    LeastSquaresBelowTotal(p, MeanX(p), MeanY(p), Fit(p));
  }

  /** `l` passes through (mx, my) and its slope solves the normal equation slope * Sxx = Sxy. */
  predicate LeastSquaresLine(p: seq<Point>, mx: real, my: real, l: Line)
  {
    SolvesNormal(l.slope, Sxx(p, mx), Sxy(p, mx, my)) && l.intercept == my - Prod(l.slope, mx)
  }

  /** `s` solves the normal equation s * sxx = sxy. */
  predicate SolvesNormal(s: real, sxx: real, sxy: real)
  {
    Prod(s, sxx) == sxy
  }

  lemma FitIsLeastSquares(p: seq<Point>)
    requires p != []
    ensures LeastSquaresLine(p, MeanX(p), MeanY(p), Fit(p))
  {
    NormalEquation(p);
    FitIntercept(p);
  }

  lemma FitSlope(p: seq<Point>)
    requires p != []
    ensures Fit(p).slope == if Sxx(p, MeanX(p)) == 0.0 then 0.0 else Sxy(p, MeanX(p), MeanY(p)) / Sxx(p, MeanX(p))
  {
  }

  /** The fitted slope solves the normal equation slope * Sxx = Sxy, also when all years coincide. */
  lemma NormalEquation(p: seq<Point>)
    requires p != []
    ensures Prod(Fit(p).slope, Sxx(p, MeanX(p))) == Sxy(p, MeanX(p), MeanY(p))
  {
    FitSlope(p);
    var sxx, sxy := Sxx(p, MeanX(p)), Sxy(p, MeanX(p), MeanY(p));
    if sxx == 0.0 {
      ZeroSpreadNoCovariance(p, MeanX(p), MeanY(p));
    } else {
      DivMulCancel(sxy, sxx);
    }
  }

  lemma DivMulCancel(a: real, b: real)
    requires b != 0.0
    ensures Prod(a / b, b) == a
  {
  }

  /** When all years sit at `mx`, the cross-deviations vanish too. */
  lemma {:induction false} ZeroSpreadNoCovariance(p: seq<Point>, mx: real, my: real)
    requires Sxx(p, mx) == 0.0
    ensures Sxy(p, mx, my) == 0.0
  {
    if p != [] {
      var d := p[0].0 - mx;
      SquareNonNegative(d);
      SxxNonNegative(p[1..], mx);
      SquareZero(d);
      ZeroSpreadNoCovariance(p[1..], mx, my);
    }
  }

  /** Any line through (mx, my) whose slope solves the normal equation leaves no more than the total sum of squares. */
  lemma LeastSquaresBelowTotal(p: seq<Point>, mx: real, my: real, l: Line)
    requires LeastSquaresLine(p, mx, my, l)
    ensures SSres(p, l) <= SStot(p, my)
  {
    DecompositionFacts(p, mx, my, l);
    DecomposedBound(SStot(p, my), SSres(p, l), Cross(p, mx, my, l.slope), l.slope, Sxy(p, mx, my), Sxx(p, mx));
  }

  /** The sum-of-squares identity tot = res + cross with cross = 2 s Sxy - s^2 Sxx, and Sxx >= 0. */
  predicate Decomposition(tot: real, res: real, cross: real, s: real, sxy: real, sxx: real)
  {
    tot == res + cross && ClosedCross(cross, s, sxy, sxx) && sxx >= 0.0
  }

  lemma DecompositionFacts(p: seq<Point>, mx: real, my: real, l: Line)
    requires l.intercept == my - Prod(l.slope, mx)
    ensures Decomposition(SStot(p, my), SSres(p, l), Cross(p, mx, my, l.slope), l.slope, Sxy(p, mx, my), Sxx(p, mx))
  {
    SquaresDecompose(p, mx, my, l);
    SxxNonNegative(p, mx);
    CrossIs(p, mx, my, l.slope);
  }

  lemma DecomposedBound(tot: real, res: real, cross: real, s: real, sxy: real, sxx: real)
    requires Decomposition(tot, res, cross, s, sxy, sxx) && SolvesNormal(s, sxx, sxy)
    ensures res <= tot
  {
    SquareNonNegative(s);
    assert cross == Prod(Sq(s), sxx) by {
      assert s * (s * sxx) == (s * s) * sxx;
    }
    ProductNonNegative(Sq(s), sxx);
  }

  /** The in-sample R² of the least-squares line lies in [0, 1]. */
  lemma R2InUnitInterval(p: seq<Point>)
    requires p != [] && R2(p, Fit(p)).Some?
    ensures 0.0 <= R2(p, Fit(p)).value <= 1.0
  {
    FitResidualsBelowTotal(p);
    SSresNonNegative(p, Fit(p));
    SStotNonNegative(p, MeanY(p));
    RatioInUnit(SSres(p, Fit(p)), SStot(p, MeanY(p)));
  }

  lemma RatioInUnit(res: real, tot: real)
    requires 0.0 <= res <= tot && tot > 0.0
    ensures 0.0 <= 1.0 - res / tot <= 1.0
  {
    assert res / tot * tot == res;
  }

  // ---------------------------------------------------------------------------
  // The projected table, and projections of a built historical table
  // ---------------------------------------------------------------------------

  /** Row `Horizon * k + j` of the table is row `j` of the `k`-th region's frame. */
  lemma {:induction false} ProjectionOfAt(rows: seq<YearRow>, regions: seq<string>, k: int, j: int)
    requires AllPresent(rows, regions)
    requires 0 <= k < |regions| && 0 <= j < Horizon
    ensures ProjectionOf(rows, regions)[Horizon * k + j] == ProjectedFrame(rows, regions[k])[j]
  {
    if k > 0 {
      ProjectionOfAt(rows, regions[1..], k - 1, j);
    }
  }

  /**
   * Every region gets exactly 10 consecutive rows for 2026..2035 in ascending
   * order; each metric is the rounded value of that region's own fitted line.
   */
  lemma TenRowsPerRegion(hist: seq<YearRow>)
    ensures var f := Projection(hist);
            var regions := Regions(hist);
            && AllPresent(hist, regions)
            && |f| == Horizon * |regions|
            && (forall i :: 0 <= i < |f| ==>
                  && f[i].region == regions[i / Horizon] && f[i].year == FirstFutureYear + i % Horizon
                  && f[i].total == Projected(hist, regions[i / Horizon], Total, f[i].year)
                  && f[i].male == Projected(hist, regions[i / Horizon], Male, f[i].year)
                  && f[i].female == Projected(hist, regions[i / Horizon], Female, f[i].year))
            && (forall k, i :: 0 <= k < |regions| && 0 <= i < |f| ==> (f[i].region == regions[k] <==> Horizon * k <= i < Horizon * k + Horizon))
  {
    var f := Projection(hist);
    var regions := Regions(hist);
    RegionsPresent(hist);
    forall i | 0 <= i < |f|
      ensures f[i].region == regions[i / Horizon] && f[i].year == FirstFutureYear + i % Horizon
      ensures f[i].total == Projected(hist, regions[i / Horizon], Total, f[i].year)
      ensures f[i].male == Projected(hist, regions[i / Horizon], Male, f[i].year)
      ensures f[i].female == Projected(hist, regions[i / Horizon], Female, f[i].year)
    {
      ProjectionRowAt(hist, regions, i);
    }
    forall k, i | 0 <= k < |regions| && 0 <= i < |f|
      ensures f[i].region == regions[k] <==> Horizon * k <= i < Horizon * k + Horizon
    {
      RegionBlock(regions, k, i);
    }
  }

  /** Row i of the projection is region i / 10's rounded prediction for year 2026 + i % 10. */
  lemma ProjectionRowAt(rows: seq<YearRow>, regions: seq<string>, i: int)
    requires AllPresent(rows, regions) && 0 <= i < Horizon * |regions|
    ensures 0 <= i / Horizon < |regions|
    ensures var r := ProjectionOf(rows, regions)[i];
            && r.region == regions[i / Horizon] && r.year == FirstFutureYear + i % Horizon
            && r.total == Projected(rows, regions[i / Horizon], Total, r.year)
            && r.male == Projected(rows, regions[i / Horizon], Male, r.year)
            && r.female == Projected(rows, regions[i / Horizon], Female, r.year)
  {
    ProjectionOfAt(rows, regions, i / Horizon, i % Horizon);
  }

  /** In blocks of 10 rows per sorted region, row i belongs to region k exactly inside block k. */
  lemma RegionBlock(regions: seq<string>, k: int, i: int)
    requires StrictlySorted(regions) && 0 <= k < |regions| && 0 <= i < Horizon * |regions|
    ensures 0 <= i / Horizon < |regions|
    ensures regions[i / Horizon] == regions[k] <==> Horizon * k <= i < Horizon * k + Horizon
  {
    if i / Horizon != k {
      SortedDistinct(regions, i / Horizon, k);
    }
  }

  lemma {:induction false} PointsAppend(a: seq<YearRow>, b: seq<YearRow>, region: string, m: Metric)
    ensures Points(a + b, region, m) == Points(a, region, m) + Points(b, region, m)
  {
    if a == [] {
      assert a + b == b;
    } else {
      assert (a + b)[1..] == a[1..] + b;
      PointsAppend(a[1..], b, region, m);
    }
  }

  /** The training points of a region of the historical table: one per year 2015..2025. */
  function FramePoints(master: seq<YearRow>, region: string, m: Metric): (p: seq<Point>)
    requires Historical.Observed(master, region, Historical.FirstYear)
    ensures |p| == Historical.Span
  {
    var f := Historical.Frame(master, region);
    seq(Historical.Span, j requires 0 <= j < Historical.Span => ((Historical.FirstYear + j) as real, Value(f[j], m) as real))
  }

  lemma {:induction false} PointsOfRows(rows: seq<YearRow>, region: string, m: Metric)
    requires forall i :: 0 <= i < |rows| ==> rows[i].region == region
    ensures Points(rows, region, m) == seq(|rows|, j requires 0 <= j < |rows| => (rows[j].year as real, Value(rows[j], m) as real))
  {
    if rows != [] {
      PointsOfRows(rows[1..], region, m);
    }
  }

  lemma {:induction false} PointsOfOtherRows(rows: seq<YearRow>, region: string, m: Metric)
    requires forall i :: 0 <= i < |rows| ==> rows[i].region != region
    ensures Points(rows, region, m) == []
  {
    if rows != [] {
      PointsOfOtherRows(rows[1..], region, m);
    }
  }

  lemma PointsOfFrame(master: seq<YearRow>, region: string, m: Metric)
    requires Historical.Observed(master, region, Historical.FirstYear)
    ensures Points(Historical.Frame(master, region), region, m) == FramePoints(master, region, m)
  {
    var f := Historical.Frame(master, region);
    PointsOfRows(f, region, m);
  }

  lemma {:induction false} PointsOfHistoricalOf(master: seq<YearRow>, regions: seq<string>, k: int, m: Metric)
    requires Historical.AllStartAtFirstYear(master, regions) && StrictlySorted(regions)
    requires 0 <= k < |regions|
    ensures Points(Historical.HistoricalOf(master, regions), regions[k], m) == FramePoints(master, regions[k], m)
  {
    var region := regions[k];
    var head := Historical.Frame(master, regions[0]);
    var rest := regions[1..];
    assert Historical.AllStartAtFirstYear(master, rest);
    SortedTail(regions);
    var tail := Historical.HistoricalOf(master, rest);
    assert Historical.HistoricalOf(master, regions) == head + tail;
    PointsAppend(head, tail, region, m);
    if k == 0 {
      PointsOfFrame(master, region, m);
      FirstRegionNotInRest(master, regions);
      PointsOfOtherRows(tail, region, m);
    } else {
      assert StrLt(regions[0], regions[k]);
      PointsOfOtherRows(head, region, m);
      PointsOfHistoricalOf(master, rest, k - 1, m);
    }
  }

  /** The first of the sorted regions has no row among the frames of the others. */
  lemma FirstRegionNotInRest(master: seq<YearRow>, regions: seq<string>)
    requires Historical.AllStartAtFirstYear(master, regions) && StrictlySorted(regions) && regions != []
    ensures Historical.AllStartAtFirstYear(master, regions[1..])
    ensures forall i :: 0 <= i < |Historical.HistoricalOf(master, regions[1..])| ==>
              Historical.HistoricalOf(master, regions[1..])[i].region != regions[0]
  {
    var rest := regions[1..];
    assert Historical.AllStartAtFirstYear(master, rest);
    var tail := Historical.HistoricalOf(master, rest);
    forall i | 0 <= i < |tail|
      ensures tail[i].region != regions[0]
    {
      Historical.HistoricalRowAt(master, rest, i);
      assert StrLt(regions[0], regions[1 + i / Historical.Span]);
    }
  }

  /**
   * Each region of a built historical table is fitted on exactly its 11
   * yearly rows; their years are distinct, so the year spread is positive.
   */
  lemma HistoricalTrainingSet(master: seq<YearRow>, k: int, m: Metric)
    requires Historical.Ready(master) && 0 <= k < |Regions(master)|
    ensures Historical.AllStartAtFirstYear(master, Regions(master))
    ensures Points(Historical.Historical(master), Regions(master)[k], m) == FramePoints(master, Regions(master)[k], m)
    ensures HasRegion(Historical.Historical(master), Regions(master)[k])
    ensures Sxx(FramePoints(master, Regions(master)[k], m), MeanX(FramePoints(master, Regions(master)[k], m))) > 0.0
  {
    var regions := Regions(master);
    Historical.ReadyRegions(master);
    PointsOfHistoricalOf(master, regions, k, m);
    var p := FramePoints(master, regions[k], m);
    SxxPositive(p, MeanX(p), 0, 1);
  }

  /** Every row of `region` has metric value `a + b * year`. */
  predicate OnLine(rows: seq<YearRow>, region: string, m: Metric, a: real, b: real)
  {
    forall i :: 0 <= i < |rows| && rows[i].region == region ==> Value(rows[i], m) as real == Predict(Line(b, a), rows[i].year as real)
  }

  lemma {:induction false} PointsOnLine(rows: seq<YearRow>, region: string, m: Metric, a: real, b: real)
    requires OnLine(rows, region, m, a, b)
    ensures OnLinePoints(Points(rows, region, m), a, b)
  {
    if rows != [] {
      assert OnLine(rows[1..], region, m, a, b) by {
        forall i | 0 <= i < |rows[1..]| && rows[1..][i].region == region
          ensures Value(rows[1..][i], m) as real == Predict(Line(b, a), rows[1..][i].year as real)
        {
          assert rows[1..][i] == rows[i + 1];
        }
      }
      PointsOnLine(rows[1..], region, m, a, b);
      var p, rest := Points(rows, region, m), Points(rows[1..], region, m);
      if rows[0].region == region {
        assert p[0].1 == Predict(Line(b, a), p[0].0);
        forall i | 0 < i < |p| ensures p[i].1 == Predict(Line(b, a), p[i].0) {
          assert p[i] == rest[i - 1];
        }
      }
    }
  }

  /** Every row of `region` has metric value `c`. */
  predicate Flat(rows: seq<YearRow>, region: string, m: Metric, c: int)
  {
    forall i :: 0 <= i < |rows| && rows[i].region == region ==> Value(rows[i], m) == c
  }

  lemma {:induction false} PointsFlat(rows: seq<YearRow>, region: string, m: Metric, c: int)
    requires Flat(rows, region, m, c)
    ensures FlatPoints(Points(rows, region, m), c as real)
  {
    if rows != [] {
      assert Flat(rows[1..], region, m, c) by {
        forall i | 0 <= i < |rows[1..]| && rows[1..][i].region == region
          ensures Value(rows[1..][i], m) == c
        {
          assert rows[1..][i] == rows[i + 1];
        }
      }
      PointsFlat(rows[1..], region, m, c);
      var p, rest := Points(rows, region, m), Points(rows[1..], region, m);
      if rows[0].region == region {
        assert Value(rows[0], m) == c;
        forall i | 0 < i < |p| ensures p[i].1 == c as real {
          assert p[i] == rest[i - 1];
        }
      }
    }
  }

  /**
   * A region whose rows in the historical table all carry the same value
   * projects that value for every future year.
   */
  lemma ConstantRegionProjectsConstant(master: seq<YearRow>, k: int, m: Metric, c: int)
    requires Historical.Ready(master) && 0 <= k < |Regions(master)|
    requires Flat(Historical.Historical(master), Regions(master)[k], m, c)
    ensures HasRegion(Historical.Historical(master), Regions(master)[k])
    ensures Fit(Points(Historical.Historical(master), Regions(master)[k], m)).slope == 0.0
    ensures forall year :: Projected(Historical.Historical(master), Regions(master)[k], m, year) == c
  {
    var h := Historical.Historical(master);
    var region := Regions(master)[k];
    HistoricalTrainingSet(master, k, m);
    PointsFlat(h, region, m, c);
    ConstantHistoryProjectsConstant(Points(h, region, m), c);
  }

  /** Rows of a region lying on a line, with at least two distinct years, are projected on that line. */
  lemma LinearRowsExtend(rows: seq<YearRow>, region: string, m: Metric, a: real, b: real)
    requires HasRegion(rows, region) && OnLine(rows, region, m, a, b)
    requires Sxx(Points(rows, region, m), MeanX(Points(rows, region, m))) > 0.0
    ensures Fit(Points(rows, region, m)) == Line(b, a)
    ensures forall year :: -0.5 < Projected(rows, region, m, year) as real - Predict(Line(b, a), year as real) <= 0.5
  {
    var p := Points(rows, region, m);
    PointsOnLine(rows, region, m, a, b);
    LinearHistoryFit(p, a, b);
    forall year ensures -0.5 < Projected(rows, region, m, year) as real - Predict(Line(b, a), year as real) <= 0.5 {
      RoundedOnLine(Fit(p), a, b, year as real);
    }
  }

  /**
   * A region whose rows in the historical table lie exactly on the line
   * a + b * year is fitted by that line (its 11 distinct years pin it down),
   * so every projection is the line's value up to rounding.
   */
  lemma LinearRegionExtendsExactly(master: seq<YearRow>, k: int, m: Metric, a: real, b: real)
    requires Historical.Ready(master) && 0 <= k < |Regions(master)|
    requires OnLine(Historical.Historical(master), Regions(master)[k], m, a, b)
    ensures HasRegion(Historical.Historical(master), Regions(master)[k])
    ensures Fit(Points(Historical.Historical(master), Regions(master)[k], m)) == Line(b, a)
    ensures forall year :: -0.5 < Projected(Historical.Historical(master), Regions(master)[k], m, year) as real - Predict(Line(b, a), year as real) <= 0.5
  {
    HistoricalTrainingSet(master, k, m);
    LinearRowsExtend(Historical.Historical(master), Regions(master)[k], m, a, b);
  }
}
