/**
 * The yearly region summaries of abstract.py (`generar_resumen_2015`,
 * `generar_resumen_2020`, `generar_resumen_2025`).
 *
 * Each applies one filter per configured region to a prepared table (given
 * here as a parameter instead of being read from disk), sums the male and
 * female adult columns over the kept rows and derives the percentage shares.
 * The three sources differ only in their region definitions, their column
 * names, the denominator of the shares and, for 2020, a first restriction to
 * `entidad == 14`; `SourceLayout` carries those differences.
 */
module Summary {
  import opened Wrappers
  import opened Numeric
  import opened Filters

  /** One entry of a region configuration dictionary: its name and its filters. */
  datatype RegionDef = RegionDef(name: string, filters: FilterSpec)

  /**
   * Per-source columns: the male and female adult counts, and the column
   * summed for the share denominator (`p_18ymas` in 2020); when absent, the
   * denominator is the male plus female sum.
   */
  datatype SourceLayout = SourceLayout(year: int, maleColumn: string, femaleColumn: string, totalColumn: Option<string>)

  /** One output row; a share is `None` where pandas would divide by zero. */
  datatype SummaryRow = SummaryRow(
    region: string, year: int, total: int, male: int, female: int,
    pctMale: Option<real>, pctFemale: Option<real>)

  const ZmgDistricts: seq<int> := [7, 8, 9, 11, 12, 13, 14, 15, 16]
  const GdlDistricts: seq<int> := [8, 9, 11, 14]

  const Config2015: seq<RegionDef> := [
    RegionDef("Jalisco", [Condition("entidad", Equals(14))]),
    RegionDef("ZMG", [Condition("distrito_cod", OneOf(ZmgDistricts))]),
    RegionDef("GDL", [Condition("distrito_cod", OneOf(GdlDistricts))])
  ]

  const Config2020: seq<RegionDef> := [
    RegionDef("Jalisco", [Condition("distrito_cod", NoFilter)]),
    RegionDef("ZMG", [Condition("distrito_cod", OneOf(ZmgDistricts))]),
    RegionDef("GDL", [Condition("distrito_cod", OneOf(GdlDistricts))])
  ]

  const Config2025: seq<RegionDef> := [
    RegionDef("Jalisco", [Condition("clave_entidad", Equals(14))]),
    RegionDef("ZMG", [Condition("clave_distrito", OneOf(ZmgDistricts))]),
    RegionDef("GDL", [Condition("clave_distrito", OneOf(GdlDistricts))])
  ]

  const Layout2015 := SourceLayout(2015, "hombres_18+", "mujeres_18+", None)
  const Layout2020 := SourceLayout(2020, "hombres_18+", "mujeres_18+", Some("p_18ymas"))
  const Layout2025 := SourceLayout(2025, "padron_hombres", "padron_mujeres", None)

  /** The 2020 source is first restricted to the state of Jalisco. */
  const StateOnly: FilterSpec := [Condition("entidad", Equals(14))]

  /** The columns a summary reads, in the order the source reads them. */
  function SummedColumns(layout: SourceLayout): seq<string>
  {
    (if layout.totalColumn.Some? then [layout.totalColumn.value] else []) + [layout.maleColumn, layout.femaleColumn]
  }

  /** The first of `names` the table lacks: the column whose read raises the KeyError. */
  function FirstMissing(columns: set<string>, names: seq<string>): (r: Option<string>)
    ensures r.None? <==> forall i :: 0 <= i < |names| ==> names[i] in columns
    ensures r.Some? ==> exists i :: 0 <= i < |names| && names[i] == r.value && r.value !in columns
                          && forall j :: 0 <= j < i ==> names[j] in columns
  {
    if names == [] then None
    else if names[0] !in columns then Some(names[0])
    else
      var rest := FirstMissing(columns, names[1..]);
      if rest.Some? then
        ghost var i :| 0 <= i < |names[1..]| && names[1..][i] == rest.value && rest.value !in columns
                       && forall j :: 0 <= j < i ==> names[1..][j] in columns;
        assert names[i + 1] == names[1..][i];
        assert forall j :: 1 <= j < i + 1 ==> names[j] == names[1..][j - 1];
        rest
      else rest
  }

  function Cell(row: Row, col: string): int
  {
    if col in row then row[col] else 0
  }

  /** `sub[col].sum()`. */
  function ColumnSum(rows: seq<Row>, col: string): int
  {
    if rows == [] then 0 else Cell(rows[0], col) + ColumnSum(rows[1..], col)
  }

  /** The unrounded percentage `part / whole * 100`. */
  function RawShare(part: int, whole: int): real
    requires whole != 0
  {
    part as real / whole as real * 100.0
  }

  /** The rounded share, or `None` for a zero denominator (pandas gives NaN or inf there). */
  function Share(part: int, whole: int): (r: Option<real>)
    ensures r.None? <==> whole == 0
    ensures r.Some? ==> RawShare(part, whole) - 0.05 < r.value <= RawShare(part, whole) + 0.05
  {
    if whole == 0 then None else Some(RoundTenth(RawShare(part, whole)))
  }

  /** Reference definition of the row one region contributes, or the KeyError the source raises. */
  function RegionSummary(t: Table, def: RegionDef, layout: SourceLayout): Result<SummaryRow, SchemaError>
  {
    match FirstUnknownColumn(t.columns, def.filters)
    case Some(c) => Failure(MissingColumn(c))
    case None =>
      match FirstMissing(t.columns, SummedColumns(layout))
      case Some(c) => Failure(MissingColumn(c))
      case None =>
        var rows := KeepMatching(t.rows, def.filters);
        var male := ColumnSum(rows, layout.maleColumn);
        var female := ColumnSum(rows, layout.femaleColumn);
        var total := if layout.totalColumn.None? then male + female else ColumnSum(rows, layout.totalColumn.value);
        Success(SummaryRow(def.name, layout.year, total, male, female, Share(male, total), Share(female, total)))
  }

  /**
   * The loop shared by the three `generar_resumen_*` functions: one row per
   * configured region, in configuration order, tagged with the source year;
   * or the first KeyError met.
   */
  method Summarize(t: Table, config: seq<RegionDef>, layout: SourceLayout) returns (r: Result<seq<SummaryRow>, SchemaError>)
    requires t.Valid()
    ensures r.Success? <==> forall i :: 0 <= i < |config| ==> RegionSummary(t, config[i], layout).Success?
    ensures r.Success? ==> |r.value| == |config|
    ensures r.Success? ==> forall i :: 0 <= i < |config| ==>
              RegionSummary(t, config[i], layout) == Success(r.value[i])
              && r.value[i].region == config[i].name && r.value[i].year == layout.year
    ensures r.Failure? ==> exists i :: 0 <= i < |config| && RegionSummary(t, config[i], layout) == Failure(r.error)
                             && forall j :: 0 <= j < i ==> RegionSummary(t, config[j], layout).Success?
  {
    var rows: seq<SummaryRow> := [];
    for i := 0 to |config|
      invariant |rows| == i
      invariant forall j :: 0 <= j < i ==> RegionSummary(t, config[j], layout) == Success(rows[j])
    {
      var filtered := ApplyFilters(t, config[i].filters);
      if filtered.Failure? {
        r := Failure(filtered.error);
        return;
      }
      var sub := filtered.value;
      var missing := FirstMissing(sub.columns, SummedColumns(layout));
      if missing.Some? {
        r := Failure(MissingColumn(missing.value));
        return;
      }
      var male := ColumnSum(sub.rows, layout.maleColumn);
      var female := ColumnSum(sub.rows, layout.femaleColumn);
      var total := male + female;
      if layout.totalColumn.Some? {
        total := ColumnSum(sub.rows, layout.totalColumn.value);
      }
      rows := rows + [SummaryRow(config[i].name, layout.year, total, male, female, Share(male, total), Share(female, total))];
    }
    r := Success(rows);
  }

  /** `generar_resumen_2015` over the prepared 2015 table. */
  method GenerateSummary2015(t: Table) returns (r: Result<seq<SummaryRow>, SchemaError>)
    requires t.Valid()
    ensures r.Success? <==> forall i :: 0 <= i < 3 ==> RegionSummary(t, Config2015[i], Layout2015).Success?
    ensures r.Success? ==> |r.value| == 3 && forall i :: 0 <= i < 3 ==>
              RegionSummary(t, Config2015[i], Layout2015) == Success(r.value[i])
              && r.value[i].region == ["Jalisco", "ZMG", "GDL"][i] && r.value[i].year == 2015
    ensures r.Failure? ==> exists i :: 0 <= i < 3 && RegionSummary(t, Config2015[i], Layout2015) == Failure(r.error)
                             && forall j :: 0 <= j < i ==> RegionSummary(t, Config2015[j], Layout2015).Success?
  {
    r := Summarize(t, Config2015, Layout2015);
  }

  /** `generar_resumen_2020`: rows are first restricted to `entidad == 14`. */
  method GenerateSummary2020(t: Table) returns (r: Result<seq<SummaryRow>, SchemaError>)
    requires t.Valid()
    ensures "entidad" !in t.columns ==> r == Failure(MissingColumn("entidad"))
    ensures "entidad" in t.columns ==>
              var state := Table(t.columns, KeepMatching(t.rows, StateOnly));
              && (r.Success? <==> forall i :: 0 <= i < 3 ==> RegionSummary(state, Config2020[i], Layout2020).Success?)
              && (r.Success? ==> |r.value| == 3 && forall i :: 0 <= i < 3 ==>
                    RegionSummary(state, Config2020[i], Layout2020) == Success(r.value[i])
                    && r.value[i].region == ["Jalisco", "ZMG", "GDL"][i] && r.value[i].year == 2020)
              && (r.Failure? ==> exists i :: 0 <= i < 3 && RegionSummary(state, Config2020[i], Layout2020) == Failure(r.error)
                                   && forall j :: 0 <= j < i ==> RegionSummary(state, Config2020[j], Layout2020).Success?)
  {
    var state := ApplyFilters(t, StateOnly);
    if state.Failure? {
      r := Failure(state.error);
      return;
    }
    r := Summarize(state.value, Config2020, Layout2020);
  }

  /** `generar_resumen_2025` over the prepared 2025 table. */
  method GenerateSummary2025(t: Table) returns (r: Result<seq<SummaryRow>, SchemaError>)
    requires t.Valid()
    ensures r.Success? <==> forall i :: 0 <= i < 3 ==> RegionSummary(t, Config2025[i], Layout2025).Success?
    ensures r.Success? ==> |r.value| == 3 && forall i :: 0 <= i < 3 ==>
              RegionSummary(t, Config2025[i], Layout2025) == Success(r.value[i])
              && r.value[i].region == ["Jalisco", "ZMG", "GDL"][i] && r.value[i].year == 2025
    ensures r.Failure? ==> exists i :: 0 <= i < 3 && RegionSummary(t, Config2025[i], Layout2025) == Failure(r.error)
                             && forall j :: 0 <= j < i ==> RegionSummary(t, Config2025[j], Layout2025).Success?
  {
    r := Summarize(t, Config2025, Layout2025);
  }

  // ---------------------------------------------------------------------------
  // What the summaries promise
  // ---------------------------------------------------------------------------

  predicate NonNegativeColumn(rows: seq<Row>, col: string)
  {
    forall i :: 0 <= i < |rows| ==> Cell(rows[i], col) >= 0
  }

  lemma {:induction false} ColumnSumNonNegative(rows: seq<Row>, col: string)
    requires NonNegativeColumn(rows, col)
    ensures ColumnSum(rows, col) >= 0
  {
    if rows != [] {
      ColumnSumNonNegative(rows[1..], col);
    }
  }

  /** The male and female shares of their own sum lie in [0, 100] and add up to 100. */
  lemma SharesOfSum(male: int, female: int)
    requires male >= 0 && female >= 0 && male + female > 0
    ensures 0.0 <= RawShare(male, male + female) <= 100.0
    ensures 0.0 <= RawShare(female, male + female) <= 100.0
    ensures RawShare(male, male + female) + RawShare(female, male + female) == 100.0
  {
    var w := (male + female) as real;
    assert male as real / w + female as real / w == 1.0;
    assert male as real / w <= 1.0;
    assert female as real / w <= 1.0;
  }

  /**
   * For the 2015 and 2025 layouts the total is the male plus female sum over
   * the region's rows; with non-negative counts the rounded shares lie in
   * [0, 100] and add up to 100 within the rounding of each, and with no adults
   * at all both shares are missing.
   */
  lemma {:induction false} AdultSumSummary(t: Table, def: RegionDef, layout: SourceLayout)
    requires layout.totalColumn.None?
    requires RegionSummary(t, def, layout).Success?
    requires NonNegativeColumn(t.rows, layout.maleColumn) && NonNegativeColumn(t.rows, layout.femaleColumn)
    ensures var row := RegionSummary(t, def, layout).value;
            && row.total == row.male + row.female
            && row.male >= 0 && row.female >= 0
            && (row.total == 0 <==> row.pctMale.None? && row.pctFemale.None?)
            && (row.total > 0 ==>
                  && 0.0 <= row.pctMale.value <= 100.0
                  && 0.0 <= row.pctFemale.value <= 100.0
                  && 99.9 <= row.pctMale.value + row.pctFemale.value <= 100.1)
  {
    var rows := KeepMatching(t.rows, def.filters);
    KeepMatchingMembers(t.rows, def.filters);
    forall i | 0 <= i < |rows| ensures Cell(rows[i], layout.maleColumn) >= 0 && Cell(rows[i], layout.femaleColumn) >= 0 {
      assert rows[i] in t.rows;
    }
    ColumnSumNonNegative(rows, layout.maleColumn);
    ColumnSumNonNegative(rows, layout.femaleColumn);
    var row := RegionSummary(t, def, layout).value;
    if row.total > 0 {
      SharesOfSum(row.male, row.female);
      RoundTenthPercent(RawShare(row.male, row.total));
      RoundTenthPercent(RawShare(row.female, row.total));
    }
  }

  /**
   * In 2020 the denominator is the `p_18ymas` sum, not the male plus female
   * sum, so the shares need not add up to 100: a state table with 50 men and
   * 50 women out of 200 adults gives Jalisco shares of 25.0 and 25.0.
   */
  lemma StateTotalSharesNeedNotSum()
    ensures var t := Table({"hombres_18+", "mujeres_18+", "p_18ymas"},
                           [map["hombres_18+" := 50, "mujeres_18+" := 50, "p_18ymas" := 200]]);
            var r := RegionSummary(t, Config2020[0], Layout2020);
            && r == Success(SummaryRow("Jalisco", 2020, 200, 50, 50, Some(25.0), Some(25.0)))
            && r.value.pctMale.value + r.value.pctFemale.value != 100.0
  {
    var row := map["hombres_18+" := 50, "mujeres_18+" := 50, "p_18ymas" := 200];
    var t := Table({"hombres_18+", "mujeres_18+", "p_18ymas"}, [row]);
    var def := Config2020[0];
    assert FirstUnknownColumn(t.columns, def.filters) == None;
    assert SummedColumns(Layout2020) == ["p_18ymas", "hombres_18+", "mujeres_18+"];
    assert FirstMissing(t.columns, SummedColumns(Layout2020)) == None;
    NoFilterKeepsAll(t.rows, def.filters);
    assert ColumnSum([row], "p_18ymas") == 200;
    assert ColumnSum([row], "hombres_18+") == 50;
    assert ColumnSum([row], "mujeres_18+") == 50;
    assert RawShare(50, 200) == 25.0;
    RoundIntExact(250);
  }

  /** A region whose rows all also pass a wider filter has a column sum no larger than the wider one. */
  lemma {:induction false} NestedRegionSum(rows: seq<Row>, narrow: FilterSpec, wide: FilterSpec, col: string)
    requires NonNegativeColumn(rows, col)
    requires forall i :: 0 <= i < |rows| && SatisfiesAll(rows[i], narrow) ==> SatisfiesAll(rows[i], wide)
    ensures ColumnSum(KeepMatching(rows, narrow), col) <= ColumnSum(KeepMatching(rows, wide), col)
  {
    if rows != [] {
      NestedRegionSum(rows[1..], narrow, wide, col);
      KeepMatchingMembers(rows[1..], wide);
      var kw := KeepMatching(rows[1..], wide);
      forall i | 0 <= i < |kw| ensures Cell(kw[i], col) >= 0 {
        assert kw[i] in rows[1..];
      }
      ColumnSumNonNegative(kw, col);
    }
  }

  /**
   * GDL's districts are among ZMG's, so in 2015 and 2025 (where both regions
   * filter the same district column) GDL's adult counts never exceed ZMG's.
   */
  lemma GdlWithinZmg(rows: seq<Row>, col: string, districtColumn: string)
    requires NonNegativeColumn(rows, col)
    ensures ColumnSum(KeepMatching(rows, [Condition(districtColumn, OneOf(GdlDistricts))]), col)
         <= ColumnSum(KeepMatching(rows, [Condition(districtColumn, OneOf(ZmgDistricts))]), col)
  {
    var narrow := [Condition(districtColumn, OneOf(GdlDistricts))];
    var wide := [Condition(districtColumn, OneOf(ZmgDistricts))];
    forall i | 0 <= i < |rows| && SatisfiesAll(rows[i], narrow) ensures SatisfiesAll(rows[i], wide) {
      assert Satisfies(rows[i], narrow[0]);
      assert Satisfies(rows[i], wide[0]);
    }
    NestedRegionSum(rows, narrow, wide, col);
  }

  /** Worked example: 600 men and 400 women give shares of 60.0 and 40.0. */
  lemma ShareExample()
    ensures Share(600, 1000) == Some(60.0) && Share(400, 1000) == Some(40.0)
  {
    assert RawShare(600, 1000) == 60.0;
    assert RawShare(400, 1000) == 40.0;
    RoundIntExact(600);
    RoundIntExact(400);
  }
}
