/**
 * The declarative row filter of abstract.py (`aplicar_filtros`).
 *
 * A table is a schema (its column names) and a sequence of rows; a row maps
 * every column of the schema to an integer cell.  A filter specification is
 * an ordered list of conditions, one per column, as the Python dictionary's
 * items are: no filter, membership in a list, or equality with a scalar.
 */
module Filters {
  import opened Wrappers
  import opened Sequences

  type Row = map<string, int>

  datatype Table = Table(columns: set<string>, rows: seq<Row>)
  {
    /** Every row carries exactly the schema's columns. */
    predicate Valid()
    {
      forall i :: 0 <= i < |rows| ==> rows[i].Keys == columns
    }
  }

  /** `None`, a list, or any other scalar in the filter dictionary. */
  datatype FilterValue = NoFilter | OneOf(values: seq<int>) | Equals(value: int)

  datatype Condition = Condition(column: string, value: FilterValue)

  type FilterSpec = seq<Condition>

  /** Selecting on a column the table does not have (pandas raises KeyError). */
  datatype SchemaError = MissingColumn(column: string)

  predicate Satisfies(row: Row, c: Condition)
  {
    match c.value
    case NoFilter => true
    case OneOf(vs) => c.column in row && row[c.column] in vs
    case Equals(v) => c.column in row && row[c.column] == v
  }

  predicate SatisfiesAll(row: Row, spec: FilterSpec)
  {
    forall i :: 0 <= i < |spec| ==> Satisfies(row, spec[i])
  }

  /** One boolean-mask selection `sub[mask]`: the rows satisfying `c`, in order. */
  function Select(rows: seq<Row>, c: Condition): (r: seq<Row>)
    ensures |r| <= |rows|
  {
    if rows == [] then []
    else if Satisfies(rows[0], c) then [rows[0]] + Select(rows[1..], c)
    else Select(rows[1..], c)
  }

  /** Reference definition: the rows satisfying every condition at once, in input order. */
  function KeepMatching(rows: seq<Row>, spec: FilterSpec): seq<Row>
  {
    if rows == [] then []
    else if SatisfiesAll(rows[0], spec) then [rows[0]] + KeepMatching(rows[1..], spec)
    else KeepMatching(rows[1..], spec)
  }

  /** A condition that needs its column, but the schema lacks it. */
  predicate Unknown(columns: set<string>, c: Condition)
  {
    !c.value.NoFilter? && c.column !in columns
  }

  /** The first condition, in dictionary order, whose column is unknown. */
  function FirstUnknownColumn(columns: set<string>, spec: FilterSpec): (r: Option<string>)
    ensures r.None? <==> forall i :: 0 <= i < |spec| ==> !Unknown(columns, spec[i])
    ensures r.Some? ==> exists i :: 0 <= i < |spec| && Unknown(columns, spec[i]) && spec[i].column == r.value
                          && forall j :: 0 <= j < i ==> !Unknown(columns, spec[j])
  {
    if spec == [] then None
    else if Unknown(columns, spec[0]) then Some(spec[0].column)
    else
      var rest := FirstUnknownColumn(columns, spec[1..]);
      assert forall i :: 1 <= i < |spec| ==> spec[i] == spec[1..][i - 1];
      if rest.Some? then
        ghost var k :| 0 <= k < |spec[1..]| && Unknown(columns, spec[1..][k]) && spec[1..][k].column == rest.value
                        && forall j :: 0 <= j < k ==> !Unknown(columns, spec[1..][j]);
        assert Unknown(columns, spec[k + 1]) && forall j :: 0 <= j < k + 1 ==> !Unknown(columns, spec[j]);
        rest
      else rest
  }

  /**
   * `aplicar_filtros`: start from a copy of the rows and narrow it one
   * condition at a time, skipping `None`.  The result is exactly the rows
   * satisfying every condition, or the schema error of the first condition
   * whose column is missing.
   */
  method ApplyFilters(t: Table, spec: FilterSpec) returns (r: Result<Table, SchemaError>)
    requires t.Valid()
    ensures r.Success? <==> FirstUnknownColumn(t.columns, spec).None?
    ensures r.Failure? ==> r.error == MissingColumn(FirstUnknownColumn(t.columns, spec).value)
    ensures r.Success? ==> r.value == Table(t.columns, KeepMatching(t.rows, spec)) && r.value.Valid()
  {
    var sub := t.rows;
    var i := 0;
    KeepMatchingEmptySpec(t.rows);
    while i < |spec|
      invariant 0 <= i <= |spec|
      invariant forall j :: 0 <= j < i ==> !Unknown(t.columns, spec[j])
      invariant sub == KeepMatching(t.rows, spec[..i])
    {
      var c := spec[i];
      KeepMatchingSnoc(t.rows, spec[..i], c);
      assert spec[..i + 1] == spec[..i] + [c];
      if c.value.NoFilter? {
        SelectNoFilter(sub, c);
      } else if c.column !in t.columns {
        r := Failure(MissingColumn(c.column));
        FirstUnknownIsAt(t.columns, spec, i);
        return;
      } else {
        sub := Select(sub, c);
      }
      i := i + 1;
    }
    assert spec[..i] == spec;
    KeepMatchingValid(t, spec);
    r := Success(Table(t.columns, sub));
  }

  lemma KeepMatchingEmptySpec(rows: seq<Row>)
    ensures KeepMatching(rows, []) == rows
  {
  }

  lemma SelectNoFilter(rows: seq<Row>, c: Condition)
    requires c.value.NoFilter?
    ensures Select(rows, c) == rows
  {
  }

  /** Narrowing by one more condition is the same as filtering by the longer spec. */
  lemma {:induction false} KeepMatchingSnoc(rows: seq<Row>, spec: FilterSpec, c: Condition)
    ensures KeepMatching(rows, spec + [c]) == Select(KeepMatching(rows, spec), c)
  {
    if rows != [] {
      KeepMatchingSnoc(rows[1..], spec, c);
      var s2 := spec + [c];
      assert SatisfiesAll(rows[0], s2) <==> SatisfiesAll(rows[0], spec) && Satisfies(rows[0], c) by {
        assert forall i :: 0 <= i < |spec| ==> s2[i] == spec[i];
        assert s2[|spec|] == c;
      }
    }
  }

  lemma FirstUnknownIsAt(columns: set<string>, spec: FilterSpec, i: int)
    requires 0 <= i < |spec| && Unknown(columns, spec[i])
    requires forall j :: 0 <= j < i ==> !Unknown(columns, spec[j])
    ensures FirstUnknownColumn(columns, spec) == Some(spec[i].column)
  {
    if i > 0 {
      assert forall j :: 0 <= j < i - 1 ==> spec[1..][j] == spec[j + 1];
      FirstUnknownIsAt(columns, spec[1..], i - 1);
    }
  }

  lemma KeepMatchingValid(t: Table, spec: FilterSpec)
    requires t.Valid()
    ensures Table(t.columns, KeepMatching(t.rows, spec)).Valid()
  {
    KeepMatchingMembers(t.rows, spec);
    var kept := KeepMatching(t.rows, spec);
    forall i | 0 <= i < |kept| ensures kept[i].Keys == t.columns {
      assert kept[i] in t.rows;
    }
  }

  // ---------------------------------------------------------------------------
  // What the filter promises
  // ---------------------------------------------------------------------------

  /** The filtered rows keep their relative order and come from the input. */
  lemma {:induction false} KeepMatchingIsSubsequence(rows: seq<Row>, spec: FilterSpec)
    ensures IsSubsequence(KeepMatching(rows, spec), rows)
    ensures |KeepMatching(rows, spec)| <= |rows|
  {
    if rows != [] {
      KeepMatchingIsSubsequence(rows[1..], spec);
    }
  }

  /** A row is kept iff it is an input row satisfying every condition. */
  lemma {:induction false} KeepMatchingMembers(rows: seq<Row>, spec: FilterSpec)
    ensures forall r :: r in KeepMatching(rows, spec) <==> r in rows && SatisfiesAll(r, spec)
  {
    if rows != [] {
      KeepMatchingMembers(rows[1..], spec);
      assert rows == [rows[0]] + rows[1..];
    }
  }

  /** Exactly as many copies of a row are kept as the input has, if it passes, and none otherwise. */
  lemma {:induction false} KeepMatchingCounts(rows: seq<Row>, spec: FilterSpec, r: Row)
    ensures multiset(KeepMatching(rows, spec))[r] == if SatisfiesAll(r, spec) then multiset(rows)[r] else 0
  {
    if rows != [] {
      KeepMatchingCounts(rows[1..], spec, r);
      assert rows == [rows[0]] + rows[1..];
    }
  }

  /** Conditions whose value is `None` leave the rows unchanged. */
  lemma {:induction false} NoFilterKeepsAll(rows: seq<Row>, spec: FilterSpec)
    requires forall i :: 0 <= i < |spec| ==> spec[i].value.NoFilter?
    ensures KeepMatching(rows, spec) == rows
  {
    if rows != [] {
      NoFilterKeepsAll(rows[1..], spec);
    }
  }

  /** A list value keeps exactly the rows whose cell is in the list. */
  lemma {:induction false} OneOfKeepsMembers(rows: seq<Row>, col: string, vs: seq<int>)
    requires forall i :: 0 <= i < |rows| ==> col in rows[i]
    ensures forall r :: r in KeepMatching(rows, [Condition(col, OneOf(vs))]) <==> r in rows && r[col] in vs
  {
    var spec := [Condition(col, OneOf(vs))];
    KeepMatchingMembers(rows, spec);
    forall r ensures SatisfiesAll(r, spec) <==> col in r && r[col] in vs {
      assert Satisfies(r, spec[0]) ==> SatisfiesAll(r, spec);
    }
  }

  /** A scalar value keeps exactly the rows whose cell equals it. */
  lemma {:induction false} EqualsKeepsEqual(rows: seq<Row>, col: string, v: int)
    requires forall i :: 0 <= i < |rows| ==> col in rows[i]
    ensures forall r :: r in KeepMatching(rows, [Condition(col, Equals(v))]) <==> r in rows && r[col] == v
  {
    var spec := [Condition(col, Equals(v))];
    KeepMatchingMembers(rows, spec);
    forall r ensures SatisfiesAll(r, spec) <==> col in r && r[col] == v {
      assert Satisfies(r, spec[0]) ==> SatisfiesAll(r, spec);
    }
  }
}
