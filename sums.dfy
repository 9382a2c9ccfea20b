/** Row-major double sums over a function of (row, column). The order of the
    terms is the order in which the nested loops of the deblurring code
    accumulate them: row by row, and within a row column by column. */
module Sums {

  /** f(r, 0) + f(r, 1) + ... + f(r, cols - 1) */
  function RowSum(f: (int, int) -> real, r: int, cols: nat): real
  {
    if cols == 0 then 0.0 else RowSum(f, r, cols - 1) + f(r, cols - 1)
  }

  /** The sum of f over the rows [0, rows) and the columns [0, cols). */
  function Sum2(f: (int, int) -> real, rows: nat, cols: nat): real
  {
    if rows == 0 then 0.0 else Sum2(f, rows - 1, cols) + RowSum(f, rows - 1, cols)
  }

  lemma {:induction false} RowSumNonNegative(f: (int, int) -> real, r: int, cols: nat)
    requires forall c :: 0 <= c < cols ==> 0.0 <= f(r, c)
    ensures 0.0 <= RowSum(f, r, cols)
  {
    if cols > 0 {
      RowSumNonNegative(f, r, cols - 1);
    }
  }

  /** Non-negative terms have a non-negative sum. */
  lemma {:induction false} Sum2NonNegative(f: (int, int) -> real, rows: nat, cols: nat)
    requires forall r, c :: 0 <= r < rows && 0 <= c < cols ==> 0.0 <= f(r, c)
    ensures 0.0 <= Sum2(f, rows, cols)
  {
    if rows > 0 {
      Sum2NonNegative(f, rows - 1, cols);
      RowSumNonNegative(f, rows - 1, cols);
    }
  }

  lemma {:induction false} RowSumPositive(f: (int, int) -> real, r: int, cols: nat)
    requires 0 < cols
    requires forall c :: 0 <= c < cols ==> 0.0 < f(r, c)
    ensures 0.0 < RowSum(f, r, cols)
  {
    if cols > 1 {
      RowSumPositive(f, r, cols - 1);
    }
  }

  /** Strictly positive terms over a non-empty rectangle have a strictly positive sum. */
  lemma {:induction false} Sum2Positive(f: (int, int) -> real, rows: nat, cols: nat)
    requires 0 < rows && 0 < cols
    requires forall r, c :: 0 <= r < rows && 0 <= c < cols ==> 0.0 < f(r, c)
    ensures 0.0 < Sum2(f, rows, cols)
  {
    if rows > 1 {
      Sum2Positive(f, rows - 1, cols);
    } else {
      assert Sum2(f, rows - 1, cols) == 0.0;
    }
    RowSumPositive(f, rows - 1, cols);
  }

  lemma {:induction false} RowSumScale(f: (int, int) -> real, g: (int, int) -> real, s: real, r: int, cols: nat)
    requires forall c :: 0 <= c < cols ==> g(r, c) == f(r, c) * s
    ensures RowSum(g, r, cols) == RowSum(f, r, cols) * s
  {
    if cols > 0 {
      RowSumScale(f, g, s, r, cols - 1);
    }
  }

  /** Scaling every term scales the sum. */
  lemma {:induction false} Sum2Scale(f: (int, int) -> real, g: (int, int) -> real, s: real, rows: nat, cols: nat)
    requires forall r, c :: 0 <= r < rows && 0 <= c < cols ==> g(r, c) == f(r, c) * s
    ensures Sum2(g, rows, cols) == Sum2(f, rows, cols) * s
  {
    if rows > 0 {
      Sum2Scale(f, g, s, rows - 1, cols);
      RowSumScale(f, g, s, rows - 1, cols);
    }
  }

  lemma {:induction false} RowSumSingle(f: (int, int) -> real, r: int, c0: int, cols: nat)
    requires forall c :: 0 <= c < cols && c != c0 ==> f(r, c) == 0.0
    ensures RowSum(f, r, cols) == if 0 <= c0 < cols then f(r, c0) else 0.0
  {
    if cols > 0 {
      RowSumSingle(f, r, c0, cols - 1);
    }
  }

  /** A sum whose only possibly non-zero term is at (r0, c0) is that term
      when (r0, c0) lies in the rectangle, and 0 otherwise. */
  lemma {:induction false} Sum2Single(f: (int, int) -> real, r0: int, c0: int, rows: nat, cols: nat)
    requires forall r, c :: 0 <= r < rows && 0 <= c < cols && (r != r0 || c != c0) ==> f(r, c) == 0.0
    ensures Sum2(f, rows, cols) == if 0 <= r0 < rows && 0 <= c0 < cols then f(r0, c0) else 0.0
  {
    if rows > 0 {
      Sum2Single(f, r0, c0, rows - 1, cols);
      if rows - 1 == r0 {
        RowSumSingle(f, rows - 1, c0, cols);
      } else {
        RowSumSingle(f, rows - 1, -1, cols);
      }
    }
  }

  lemma {:induction false} RowSumDivide(f: (int, int) -> real, g: (int, int) -> real, d: real, r: int, cols: nat)
    requires d != 0.0
    requires forall c :: 0 <= c < cols ==> g(r, c) == f(r, c) / d
    ensures RowSum(g, r, cols) == RowSum(f, r, cols) / d
  {
    if cols > 0 {
      RowSumDivide(f, g, d, r, cols - 1);
      DivideSum(RowSum(f, r, cols - 1), f(r, cols - 1), d);
    }
  }

  /** Dividing every term by d divides the sum by d. */
  lemma {:induction false} Sum2Divide(f: (int, int) -> real, g: (int, int) -> real, d: real, rows: nat, cols: nat)
    requires d != 0.0
    requires forall r, c :: 0 <= r < rows && 0 <= c < cols ==> g(r, c) == f(r, c) / d
    ensures Sum2(g, rows, cols) == Sum2(f, rows, cols) / d
  {
    if rows > 0 {
      Sum2Divide(f, g, d, rows - 1, cols);
      RowSumDivide(f, g, d, rows - 1, cols);
      DivideSum(Sum2(f, rows - 1, cols), RowSum(f, rows - 1, cols), d);
    }
  }

  lemma DivideSum(a: real, b: real, d: real)
    requires d != 0.0
    ensures a / d + b / d == (a + b) / d
  {
  }
}
