/**
 * The yearly rows that aggregate_analysis.py passes between its stages
 * (region, year and the three adult counts), the metric columns, and the
 * region list a pandas `groupby("REGIÓN")` walks: the distinct region names
 * in ascending code-point order.
 */
module Series {
  import opened Numeric

  datatype YearRow = YearRow(region: string, year: int, total: int, male: int, female: int)

  /** The three count columns `POB_TOT`, `HOMBRES_18+`, `MUJERES_18+`. */
  datatype Metric = Total | Male | Female

  const Metrics: seq<Metric> := [Total, Male, Female]

  function Value(row: YearRow, m: Metric): int
  {
    match m
    case Total => row.total
    case Male => row.male
    case Female => row.female
  }

  predicate HasRegion(rows: seq<YearRow>, region: string)
  {
    exists i :: 0 <= i < |rows| && rows[i].region == region
  }

  predicate StrictlySorted(s: seq<string>)
  {
    forall i, j :: 0 <= i < j < |s| ==> StrLt(s[i], s[j])
  }

  function InsertDistinct(x: string, s: seq<string>): (r: seq<string>)
    requires StrictlySorted(s)
    ensures StrictlySorted(r)
    ensures forall y :: y in r <==> y == x || y in s
  {
    if s == [] then [x]
    else if x == s[0] then s
    else if StrLe(x, s[0]) then
      forall j | 0 <= j < |s| ensures StrLt(x, s[j]) {
        if j > 0 {
          StrLeTransitive(x, s[0], s[j]);
          if x == s[j] { StrLeAntisymmetric(s[0], s[j]); }
        }
      }
      [x] + s
    else
      var rest := InsertDistinct(x, s[1..]);
      StrLeTotal(x, s[0]);
      assert s == [s[0]] + s[1..];
      forall j | 0 <= j < |rest| ensures StrLt(s[0], rest[j]) {
        assert rest[j] == x || rest[j] in s[1..];
      }
      [s[0]] + rest
  }

  /** The group keys of `groupby("REGIÓN")`: every region once, in ascending order. */
  function Regions(rows: seq<YearRow>): (r: seq<string>)
    ensures StrictlySorted(r)
    ensures forall x :: x in r <==> HasRegion(rows, x)
  {
    if rows == [] then []
    else
      var rest := Regions(rows[..|rows| - 1]);
      var last := rows[|rows| - 1];
      assert forall x :: HasRegion(rows, x) <==> HasRegion(rows[..|rows| - 1], x) || x == last.region by {
        forall x | HasRegion(rows, x) ensures HasRegion(rows[..|rows| - 1], x) || x == last.region {
          var i :| 0 <= i < |rows| && rows[i].region == x;
          if i < |rows| - 1 { assert rows[..|rows| - 1][i] == rows[i]; }
        }
        forall x | HasRegion(rows[..|rows| - 1], x) ensures HasRegion(rows, x) {
          var i :| 0 <= i < |rows| - 1 && rows[..|rows| - 1][i].region == x;
          assert rows[i] == rows[..|rows| - 1][i];
        }
      }
      InsertDistinct(last.region, rest)
  }

  /** Distinct positions of a strictly sorted sequence hold distinct names. */
  lemma SortedDistinct(r: seq<string>, q: int, k: int)
    requires StrictlySorted(r) && 0 <= q < |r| && 0 <= k < |r| && q != k
    ensures r[q] != r[k]
  {
    if q > k {
      assert StrLt(r[k], r[q]);
    } else {
      assert StrLt(r[q], r[k]);
    }
  }

  /** Dropping the first key keeps the list strictly ascending. */
  lemma SortedTail(s: seq<string>)
    requires StrictlySorted(s) && s != []
    ensures StrictlySorted(s[1..])
  {
    forall i, j | 0 <= i < j < |s[1..]| ensures StrLt(s[1..][i], s[1..][j]) {
      assert s[1..][i] == s[i + 1] && s[1..][j] == s[j + 1];
    }
  }

  /** Two strictly sorted lists with the same elements are equal. */
  lemma {:induction false} StrictlySortedUnique(a: seq<string>, b: seq<string>)
    requires StrictlySorted(a) && StrictlySorted(b)
    requires forall x :: x in a <==> x in b
    ensures a == b
  {
    assert a == [] <==> b == [] by {
      if a != [] { assert a[0] in a; }
      if b != [] { assert b[0] in b; }
    }
    if a != [] {
      assert a[0] in b && b[0] in a;
      if a[0] != b[0] {
        var i :| 0 <= i < |b| && b[i] == a[0];
        var j :| 0 <= j < |a| && a[j] == b[0];
        assert StrLt(b[0], a[0]) && StrLt(a[0], b[0]);
        StrLeAntisymmetric(a[0], b[0]);
      }
      forall x ensures x in a[1..] <==> x in b[1..] {
        assert a == [a[0]] + a[1..] && b == [b[0]] + b[1..];
        if x in a[1..] {
          var i :| 0 <= i < |a[1..]| && a[1..][i] == x;
          assert a[i + 1] == x && x != a[0];
          assert x in a && x in b;
          var k :| 0 <= k < |b| && b[k] == x;
          assert k != 0 && b[1..][k - 1] == x;
        }
        if x in b[1..] {
          var i :| 0 <= i < |b[1..]| && b[1..][i] == x;
          assert b[i + 1] == x && x != b[0];
          assert x in b && x in a;
          var k :| 0 <= k < |a| && a[k] == x;
          assert k != 0 && a[1..][k - 1] == x;
        }
      }
      StrictlySortedUnique(a[1..], b[1..]);
    }
  }
}
