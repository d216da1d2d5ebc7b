/**
 * Row/column arithmetic on a flat board of side `d`.
 *
 * The page stores a d-by-d board as a flat array and recovers coordinates with
 * `Math.floor(i / size)` and `i % size`. For a positive divisor, Dafny's `/` is
 * the floor, so `Row` is plain `/`. JavaScript's `%` truncates toward zero, so
 * `Col` spells that out; the difference shows only for the index -1 that
 * `indexOf` returns when a value is absent.
 */
module Grid {

  /** Absolute value (`Math.abs`). */
  function Abs(x: int): nat
  {
    if x < 0 then -x else x
  }

  /** JavaScript's remainder: the sign follows the dividend. */
  function JsRem(a: int, m: int): (r: int)
    requires m > 0
    ensures a >= 0 ==> r == a % m
    ensures a < 0 ==> -m < r <= 0
    ensures a < 0 ==> a == -((-a) / m) * m + r
  {
    if a >= 0 then a % m else -((-a) % m)
  }

  /** Row of flat index `i` (Math.floor(i / size)). */
  function Row(i: int, d: nat): int
    requires d > 0
  {
    i / d
  }

  /** Column of flat index `i` (i % size with JavaScript's remainder). */
  function Col(i: int, d: nat): int
    requires d > 0
  {
    JsRem(i, d)
  }

  /** Multiplying by a non-negative factor keeps the order. */
  lemma {:induction false} MulLe(a: int, b: int, c: nat)
    requires a <= b
    ensures a * c <= b * c
    decreases c
  {
    if c > 0 {
      MulLe(a, b, c - 1);
      assert a * c == a * (c - 1) + a;
      assert b * c == b * (c - 1) + b;
    }
  }

  /** Row and column determine the flat index: they are the unique quotient and remainder. */
  lemma DivModOf(q: int, r: int, d: nat)
    requires d > 0 && 0 <= r < d
    ensures (q * d + r) / d == q
    ensures (q * d + r) % d == r
  {
    var n := q * d + r;
    var q', r' := n / d, n % d;
    assert n == q' * d + r';
    if q > q' {
      MulLe(q' + 1, q, d);
      assert false;
    } else if q < q' {
      MulLe(q + 1, q', d);
      assert false;
    }
  }

  /** The cell at row `r`, column `c` of a board of side `d`. */
  lemma CellIndex(r: int, c: int, d: nat)
    requires 0 <= r < d && 0 <= c < d
    ensures 0 <= r * d + c < d * d
    ensures Row(r * d + c, d) == r && Col(r * d + c, d) == c
  {
    MulLe(0, r, d);
    MulLe(r, d - 1, d);
    assert (d - 1) * d == d * d - d;
    DivModOf(r, c, d);
  }

  /** Every index of a board of side `d` has its row and column on the board. */
  lemma CellOf(i: int, d: nat)
    requires 0 <= i < d * d
    ensures 0 <= Row(i, d) < d && 0 <= Col(i, d) < d
    ensures i == Row(i, d) * d + Col(i, d)
  {
    assert d > 0;
    var q := i / d;
    if q >= d {
      MulLe(d, q, d);
      assert false;
    } else if q < 0 {
      MulLe(q, -1, d);
      assert false;
    }
  }

  /** The index -1 (a value `indexOf` did not find) lies in row -1. */
  lemma MinusOneRow(d: nat)
    requires d > 0
    ensures Row(-1, d) == -1
    ensures d >= 2 ==> Col(-1, d) == -1
  {
    DivModOf(-1, d - 1, d);
    assert -1 * d + (d - 1) == -1;
    if d >= 2 {
      DivModOf(0, 1, d);
    }
  }

  /** A cell below the top row is at least one row (`d` cells) from the start. */
  lemma NotTopRow(k: int, d: nat)
    requires 0 <= k < d * d
    ensures Row(k, d) >= 1 <==> k >= d
  {
    CellOf(k, d);
    if Row(k, d) >= 1 {
      MulLe(1, Row(k, d), d);
    }
  }

  /** A cell above the bottom row has a cell `d` places further on. */
  lemma NotBottomRow(k: int, d: nat)
    requires 0 <= k < d * d
    ensures Row(k, d) + 1 < d <==> k + d < d * d
  {
    CellOf(k, d);
    var row, col := Row(k, d), Col(k, d);
    if row + 1 < d {
      CellIndex(row + 1, col, d);
      assert (row + 1) * d + col == k + d;
    } else {
      assert (row + 1) * d == d * d;
      assert k + d == (row + 1) * d + col;
    }
  }

  /** A cell off the left column is not a multiple of `d`. */
  lemma NotLeftColumn(k: int, d: nat)
    requires 0 <= k < d * d
    ensures Col(k, d) >= 1 <==> k % d != 0
  {
  }

  /** A cell off the right column is followed by a cell in the same row. */
  lemma NotRightColumn(k: int, d: nat)
    requires 0 <= k < d * d
    ensures Col(k, d) + 1 < d <==> k + 1 < d * d && (k + 1) % d != 0
  {
    CellOf(k, d);
    var row, col := Row(k, d), Col(k, d);
    if col + 1 < d {
      CellIndex(row, col + 1, d);
    } else {
      DivModOf(row + 1, 0, d);
      assert (row + 1) * d + 0 == k + 1;
    }
  }
}
