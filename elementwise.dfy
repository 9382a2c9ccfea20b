/** Pointwise multiplication and saturating division of equal-shaped grids,
    written into a caller-allocated result grid (src/cpu/deblur.cpp). */
module Elementwise {
  import opened Grids

  /** What an element-wise operation reports: success, or the two shapes
      that disagree (the code prints both and exits before writing). */
  datatype Outcome = Ok | ShapeMismatch(a: Shape, b: Shape)

  /** Saturating division: a zero denominator gives back the numerator, so
      no infinity or NaN can enter the iteration. */
  function Divide(a: real, b: real): (r: real)
    ensures b == 0.0 ==> r == a
    ensures b != 0.0 ==> r * b == a
    ensures 0.0 <= a && 0.0 <= b ==> 0.0 <= r
  {
    if b == 0.0 then a else a / b
  }

  /** Dividing a product by a non-zero factor gives the other factor back. */
  lemma DivideCancels(a: real, b: real)
    requires b != 0.0
    ensures Divide(a * b, b) == a
  {
    var r := Divide(a * b, b);
    assert (r - a) * b == 0.0;
  }

  /** The pointwise product of two equal-shaped grids. */
  function Mul(a: Grid, b: Grid): (r: Grid)
    requires SameShape(a, b)
    ensures SameShape(r, a)
  {
    seq(|a|, i requires 0 <= i < |a| =>
      seq(|a[i]|, j requires 0 <= j < |a[i]| =>
        seq(|a[i][j]|, k requires 0 <= k < |a[i][j]| => Product(a[i][j][k], b[i][j][k]))))
  }

  /** The pointwise saturating quotient of two equal-shaped grids. */
  function Div(a: Grid, b: Grid): (r: Grid)
    requires SameShape(a, b)
    ensures SameShape(r, a)
  {
    seq(|a|, i requires 0 <= i < |a| =>
      seq(|a[i]|, j requires 0 <= j < |a[i]| =>
        seq(|a[i][j]|, k requires 0 <= k < |a[i][j]| => Divide(a[i][j][k], b[i][j][k]))))
  }

  /** The product of non-negative grids is non-negative. */
  lemma MulNonNegative(a: Grid, b: Grid)
    requires SameShape(a, b) && NonNegative(a) && NonNegative(b)
    ensures NonNegative(Mul(a, b))
  {
    var r := Mul(a, b);
    forall i, j, k | 0 <= i < |r| && 0 <= j < |r[i]| && 0 <= k < |r[i][j]|
      ensures 0.0 <= r[i][j][k]
    {
      assert r[i][j][k] == Product(a[i][j][k], b[i][j][k]);
      assert 0.0 <= a[i][j][k] && 0.0 <= b[i][j][k];
    }
  }

  /** The saturating quotient of non-negative grids is non-negative. */
  lemma DivNonNegative(a: Grid, b: Grid)
    requires SameShape(a, b) && NonNegative(a) && NonNegative(b)
    ensures NonNegative(Div(a, b))
  {
    var r := Div(a, b);
    forall i, j, k | 0 <= i < |r| && 0 <= j < |r[i]| && 0 <= k < |r[i][j]|
      ensures 0.0 <= r[i][j][k]
    {
      assert r[i][j][k] == Divide(a[i][j][k], b[i][j][k]);
    }
  }

  /** Dividing a pointwise product by b gives a back wherever b is non-zero,
      and the saturated value a * 0 = 0 where b is zero. */
  lemma DivOfMul(a: Grid, b: Grid)
    requires SameShape(a, b)
    ensures SameShape(Div(Mul(a, b), b), a)
    ensures forall i, j, k | 0 <= i < |a| && 0 <= j < |a[i]| && 0 <= k < |a[i][j]| ::
      Div(Mul(a, b), b)[i][j][k] == if b[i][j][k] == 0.0 then 0.0 else a[i][j][k]
  {
    var p := Mul(a, b);
    var q := Div(p, b);
    forall i, j, k | 0 <= i < |a| && 0 <= j < |a[i]| && 0 <= k < |a[i][j]|
      ensures q[i][j][k] == if b[i][j][k] == 0.0 then 0.0 else a[i][j][k]
    {
      assert q[i][j][k] == Divide(Product(a[i][j][k], b[i][j][k]), b[i][j][k]);
      if b[i][j][k] != 0.0 {
        DivideCancels(a[i][j][k], b[i][j][k]);
      }
    }
  }

  /** elementWiseMul: c[i][j][k] := a[i][j][k] * b[i][j][k] for every cell,
      after checking that a and b have the same dimensions. On a mismatch
      it reports both shapes and writes nothing. c may be a or b itself. */
  method ElementWiseMul(a: array3<real>, b: array3<real>, c: array3<real>) returns (outcome: Outcome)
    requires ShapeOf(a) == ShapeOf(b) ==> ShapeOf(c) == ShapeOf(a)
    modifies c
    ensures outcome == if ShapeOf(a) == ShapeOf(b) then Ok else ShapeMismatch(ShapeOf(a), ShapeOf(b))
    ensures outcome.Ok? ==> Cells(c) == Mul(old(Cells(a)), old(Cells(b)))
    ensures outcome.ShapeMismatch? ==> unchanged(c)
    ensures a != c ==> unchanged(a)
    ensures b != c ==> unchanged(b)
  {
    if a.Length0 != b.Length0 || a.Length1 != b.Length1 || a.Length2 != b.Length2 {
      return ShapeMismatch(ShapeOf(a), ShapeOf(b));
    }
    for i := 0 to a.Length0
      invariant MulDone(a, b, c, i, 0)
      invariant Unvisited(a, b, c, i, 0, 0)
    {
      for j := 0 to a.Length1
        invariant MulDone(a, b, c, i, j)
        invariant Unvisited(a, b, c, i, j, 0)
      {
        MultiplyPixel(a, b, c, i, j);
      }
    }
    CellsAre(c, Mul(old(Cells(a)), old(Cells(b))));
    return Ok;
  }

  /** Every pixel visited before (i, j) holds the product of the operands'
      values on entry. */
  twostate predicate MulDone(a: array3<real>, b: array3<real>, c: array3<real>, i: int, j: int)
    requires ShapeOf(a) == ShapeOf(b) == ShapeOf(c)
    reads c
  {
    forall x, y, z | 0 <= x < c.Length0 && 0 <= y < c.Length1 && 0 <= z < c.Length2 && Before(x, y, 0, i, j, 0) ::
      c[x, y, z] == Product(old(a[x, y, z]), old(b[x, y, z]))
  }

  /** The body of elementWiseMul's pixel loop, std::transform over the
      channels of pixel (i, j): each channel of c receives the product;
      nothing else changes. */
  method MultiplyPixel(a: array3<real>, b: array3<real>, c: array3<real>, i: int, j: int)
    requires ShapeOf(a) == ShapeOf(b) == ShapeOf(c)
    requires 0 <= i < c.Length0 && 0 <= j < c.Length1
    modifies c
    ensures forall x, y, z | 0 <= x < c.Length0 && 0 <= y < c.Length1 && 0 <= z < c.Length2 ::
      c[x, y, z] == if x == i && y == j then Product(old(a[x, y, z]), old(b[x, y, z])) else old(c[x, y, z])
  {
    for k := 0 to c.Length2
      invariant forall x, y, z | 0 <= x < c.Length0 && 0 <= y < c.Length1 && 0 <= z < c.Length2 ::
        c[x, y, z] == if x == i && y == j && z < k then Product(old(a[x, y, z]), old(b[x, y, z])) else old(c[x, y, z])
      invariant forall z | k <= z < c.Length2 :: a[i, j, z] == old(a[i, j, z]) && b[i, j, z] == old(b[i, j, z])
    {
      c[i, j, k] := Product(a[i, j, k], b[i, j, k]);
    }
  }

  /** No position from (i, j, k) on has been written yet: a, b and c still
      hold their values on entry there. */
  twostate predicate Unvisited(a: array3<real>, b: array3<real>, c: array3<real>, i: int, j: int, k: int)
    requires ShapeOf(a) == ShapeOf(b) == ShapeOf(c)
    reads a, b, c
  {
    forall x, y, z | 0 <= x < c.Length0 && 0 <= y < c.Length1 && 0 <= z < c.Length2 && !Before(x, y, z, i, j, k) ::
      a[x, y, z] == old(a[x, y, z]) && b[x, y, z] == old(b[x, y, z]) && c[x, y, z] == old(c[x, y, z])
  }

  /** elementWiseDiv: c[i][j][k] := Divide(a[i][j][k], b[i][j][k]) for the
      three colour channels k = 0, 1, 2 of every pixel, after the same shape
      check as ElementWiseMul. Channels beyond the third are not written. */
  method ElementWiseDiv(a: array3<real>, b: array3<real>, c: array3<real>) returns (outcome: Outcome)
    requires ShapeOf(a) == ShapeOf(b) ==> ShapeOf(c) == ShapeOf(a)
    requires ShapeOf(a) == ShapeOf(b) && 0 < a.Length0 && 0 < a.Length1 ==> 3 <= a.Length2
    modifies c
    ensures outcome == if ShapeOf(a) == ShapeOf(b) then Ok else ShapeMismatch(ShapeOf(a), ShapeOf(b))
    ensures outcome.Ok? ==> forall i, j, k | 0 <= i < c.Length0 && 0 <= j < c.Length1 && 0 <= k < c.Length2 ::
      c[i, j, k] == if k < 3 then Divide(old(a[i, j, k]), old(b[i, j, k])) else old(c[i, j, k])
    ensures outcome.Ok? && c.Length2 == 3 ==> Cells(c) == Div(old(Cells(a)), old(Cells(b)))
    ensures outcome.ShapeMismatch? ==> unchanged(c)
    ensures a != c ==> unchanged(a)
    ensures b != c ==> unchanged(b)
  {
    if a.Length0 != b.Length0 || a.Length1 != b.Length1 || a.Length2 != b.Length2 {
      return ShapeMismatch(ShapeOf(a), ShapeOf(b));
    }
    for i := 0 to a.Length0
      invariant DivDone(a, b, c, i, 0)
      invariant Unvisited(a, b, c, i, 0, 0)
    {
      for j := 0 to a.Length1
        invariant DivDone(a, b, c, i, j)
        invariant Unvisited(a, b, c, i, j, 0)
      {
        DividePixel(a, b, c, i, j);
      }
    }
    if c.Length2 == 3 {
      CellsAre(c, Div(old(Cells(a)), old(Cells(b))));
    }
    return Ok;
  }

  /** Every pixel visited before (i, j) holds, in its three colour channels,
      the saturating quotient of the operands' values on entry, and its
      other channels are as on entry. */
  twostate predicate DivDone(a: array3<real>, b: array3<real>, c: array3<real>, i: int, j: int)
    requires ShapeOf(a) == ShapeOf(b) == ShapeOf(c)
    reads c
  {
    forall x, y, z | 0 <= x < c.Length0 && 0 <= y < c.Length1 && 0 <= z < c.Length2 && Before(x, y, 0, i, j, 0) ::
      c[x, y, z] == if z < 3 then Divide(old(a[x, y, z]), old(b[x, y, z])) else old(c[x, y, z])
  }

  /** The body of elementWiseDiv's pixel loop: the three colour channels of
      pixel (i, j) receive the saturating quotients; nothing else changes. */
  method DividePixel(a: array3<real>, b: array3<real>, c: array3<real>, i: int, j: int)
    requires ShapeOf(a) == ShapeOf(b) == ShapeOf(c)
    requires 0 <= i < c.Length0 && 0 <= j < c.Length1 && 3 <= c.Length2
    modifies c
    ensures forall x, y, z | 0 <= x < c.Length0 && 0 <= y < c.Length1 && 0 <= z < c.Length2 ::
      c[x, y, z] == if x == i && y == j && z < 3 then Divide(old(a[x, y, z]), old(b[x, y, z])) else old(c[x, y, z])
  {
    var q0 := Divide(a[i, j, 0], b[i, j, 0]);
    var q1 := Divide(a[i, j, 1], b[i, j, 1]);
    var q2 := Divide(a[i, j, 2], b[i, j, 2]);
    c[i, j, 0] := q0;
    c[i, j, 1] := q1;
    c[i, j, 2] := q2;
  }
}
