/**
 * Numeric helpers shared by both scripts: rounding to an integer and to one
 * decimal (pandas/Python `round`), and the code-point order on strings that
 * pandas uses when it sorts or groups by region name.
 */
module Numeric {

  /** Round to the nearest integer; ties go up. */
  function RoundInt(x: real): (r: int)
    ensures x - 0.5 < r as real <= x + 0.5
  {
    (x + 0.5).Floor
  }

  /** Round to one decimal place, as `round(v, 1)` does. */
  function RoundTenth(x: real): (r: real)
    ensures x - 0.05 < r <= x + 0.05
  {
    (RoundInt(x * 10.0) as real) / 10.0
  }

  lemma RoundIntMonotone(x: real, y: real)
    requires x <= y
    ensures RoundInt(x) <= RoundInt(y)
  {
  }

  /** Rounding an integral value gives that value back. */
  lemma RoundIntExact(n: int)
    ensures RoundInt(n as real) == n
  {
  }

  /** A real in [lo, hi] with integral bounds rounds into [lo, hi]. */
  lemma RoundIntBetween(x: real, lo: int, hi: int)
    requires lo as real <= x <= hi as real
    ensures lo <= RoundInt(x) <= hi
  {
    RoundIntMonotone(lo as real, x);
    RoundIntMonotone(x, hi as real);
    RoundIntExact(lo);
    RoundIntExact(hi);
  }

  /** A value in [0, 100] keeps in [0, 100] after rounding to one decimal. */
  lemma RoundTenthPercent(x: real)
    requires 0.0 <= x <= 100.0
    ensures 0.0 <= RoundTenth(x) <= 100.0
  {
    RoundIntBetween(x * 10.0, 0, 1000);
  }

  /** Lexicographic order on strings by code point (Python's `<=` on `str`). */
  predicate StrLe(a: string, b: string)
  {
    a == [] || (b != [] && (a[0] < b[0] || (a[0] == b[0] && StrLe(a[1..], b[1..]))))
  }

  predicate StrLt(a: string, b: string)
  {
    StrLe(a, b) && a != b
  }

  lemma StrLeTotal(a: string, b: string)
    ensures StrLe(a, b) || StrLe(b, a)
  {
    if a != [] && b != [] && a[0] == b[0] {
      StrLeTotal(a[1..], b[1..]);
    }
  }

  lemma StrLeAntisymmetric(a: string, b: string)
    requires StrLe(a, b) && StrLe(b, a)
    ensures a == b
  {
    if a != [] && b != [] {
      StrLeAntisymmetric(a[1..], b[1..]);
    }
  }

  lemma StrLeTransitive(a: string, b: string, c: string)
    requires StrLe(a, b) && StrLe(b, c)
    ensures StrLe(a, c)
  {
    if a != [] && b != [] && c != [] && a[0] == b[0] && b[0] == c[0] {
      StrLeTransitive(a[1..], b[1..], c[1..]);
    }
  }

  lemma StrLeReflexive(a: string)
    ensures StrLe(a, a)
  {
    if a != [] {
      StrLeReflexive(a[1..]);
    }
  }

  /**
   * Squares and products of reals as named functions: sums of them are then
   * sums of one term per item, which proofs combine linearly, and the
   * multiplication itself is only reasoned about in the small lemmas below.
   */
  function Sq(x: real): real
  {
    x * x
  }

  function Prod(x: real, y: real): real
  {
    x * y
  }

  lemma SquareNonNegative(d: real)
    ensures Sq(d) >= 0.0
  {
    if d != 0.0 {
      SquarePositive(d);
    }
  }

  lemma SquareZero(d: real)
    requires Sq(d) == 0.0
    ensures d == 0.0
  {
    if d != 0.0 {
      SquarePositive(d);
    }
  }

  lemma SquarePositive(d: real)
    requires d != 0.0
    ensures Sq(d) > 0.0
  {
    if d < 0.0 {
      calc { Sq(d); == (-d) * (-d); > 0.0; }
    } else {
      calc { Sq(d); == d * d; > 0.0; }
    }
  }

  lemma ProductNonNegative(x: real, y: real)
    requires x >= 0.0 && y >= 0.0
    ensures Prod(x, y) >= 0.0
  {
  }

  lemma MulDivCancel(b: real, y: real)
    requires y != 0.0
    ensures Prod(b, y) / y == b
  {
  }
}
