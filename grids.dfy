/** Image grids: rows of pixels, each pixel a short vector of channel values.
    The deblurring code keeps them in nested vectors, indexed
    grid[row][column][channel]; the routines that write into a grid in place
    take an `array3<real>`, and the specifications talk about the grid's
    value, a `Grid`. */
module Grids {

  /** A grid's value, indexed g[row][column][channel]. */
  type Grid = seq<seq<seq<real>>>

  /** The width of a grid is the length of its first row. */
  function Width(g: Grid): nat
  {
    if |g| == 0 then 0 else |g[0]|
  }

  /** Every row is as long as the first one. */
  predicate Rect(g: Grid)
  {
    forall i | 0 <= i < |g| :: |g[i]| == Width(g)
  }

  /** Every pixel of g has at least n channels. */
  predicate HasChannels(g: Grid, n: nat)
  {
    forall i, j | 0 <= i < |g| && 0 <= j < |g[i]| :: n <= |g[i][j]|
  }

  /** a and b have the same number of rows, the same row lengths and the
      same number of channels in every pixel. */
  predicate SameShape(a: Grid, b: Grid)
  {
    |a| == |b| &&
    (forall i | 0 <= i < |a| :: |a[i]| == |b[i]|) &&
    (forall i, j | 0 <= i < |a| && 0 <= j < |a[i]| :: |a[i][j]| == |b[i][j]|)
  }

  /** Every channel value of g is non-negative. */
  predicate NonNegative(g: Grid)
  {
    forall i, j, k | 0 <= i < |g| && 0 <= j < |g[i]| && 0 <= k < |g[i][j]| :: 0.0 <= g[i][j][k]
  }

  /** Every row is as long as the first one and every pixel has exactly the
      three colour channels R, G, B. */
  predicate Rgb(g: Grid)
  {
    Rect(g) && forall i, j | 0 <= i < |g| && 0 <= j < |g[i]| :: |g[i][j]| == 3
  }

  /** Two RGB images of the same height and width. */
  predicate SameImage(a: Grid, b: Grid)
  {
    Rgb(a) && Rgb(b) && |a| == |b| && Width(a) == Width(b)
  }

  /** RGB images of the same height and width have the same shape. */
  lemma SameImageShape(a: Grid, b: Grid)
    requires SameImage(a, b)
    ensures SameShape(a, b)
  {
  }

  /** The product of two channel values. Kept as a named function so that
      the products inside quantified invariants stay opaque terms for the
      solver's non-linear arithmetic. */
  function Product(x: real, y: real): real
  {
    x * y
  }

  /** The dimensions the deblurring code compares and reports:
      grid.size(), grid[0].size(), grid[0][0].size(). */
  datatype Shape = Shape(rows: nat, cols: nat, channels: nat)

  function ShapeOf(a: array3<real>): Shape
  {
    Shape(a.Length0, a.Length1, a.Length2)
  }

  /** The value held by an array grid. */
  ghost function Cells(a: array3<real>): (g: Grid)
    reads a
    ensures |g| == a.Length0 && Rect(g) && (a.Length0 > 0 ==> Width(g) == a.Length1)
    ensures forall i, j | 0 <= i < a.Length0 && 0 <= j < a.Length1 :: |g[i][j]| == a.Length2
    ensures forall i, j, k | 0 <= i < a.Length0 && 0 <= j < a.Length1 && 0 <= k < a.Length2 ::
      g[i][j][k] == a[i, j, k]
  {
    seq(a.Length0, i requires 0 <= i < a.Length0 reads a =>
      seq(a.Length1, j requires 0 <= j < a.Length1 reads a =>
        seq(a.Length2, k requires 0 <= k < a.Length2 reads a => a[i, j, k])))
  }

  /** An array grid holds g when it has g's dimensions and g's values. */
  lemma CellsAre(a: array3<real>, g: Grid)
    requires |g| == a.Length0
    requires forall i | 0 <= i < |g| :: |g[i]| == a.Length1
    requires forall i, j | 0 <= i < |g| && 0 <= j < |g[i]| :: |g[i][j]| == a.Length2
    requires forall i, j, k | 0 <= i < a.Length0 && 0 <= j < a.Length1 && 0 <= k < a.Length2 ::
      a[i, j, k] == g[i][j][k]
    ensures Cells(a) == g
  {
    var c := Cells(a);
    forall i | 0 <= i < |g| ensures c[i] == g[i] {
      forall j | 0 <= j < |g[i]| ensures c[i][j] == g[i][j] {
      }
    }
  }

  /** The row-major order in which the nested loops visit (row, column,
      channel) positions: (x, y, z) comes strictly before (i, j, k). */
  predicate Before(x: int, y: int, z: int, i: int, j: int, k: int)
  {
    x < i || (x == i && y < j) || (x == i && y == j && z < k)
  }

  /** A fresh copy of an array grid, as the copy constructor of the nested
      vectors makes one. */
  method Copy(a: array3<real>) returns (b: array3<real>)
    ensures fresh(b) && ShapeOf(b) == ShapeOf(a)
    ensures Cells(b) == Cells(a)
  {
    b := new real[a.Length0, a.Length1, a.Length2]((i, j, k) reads a =>
      if 0 <= i < a.Length0 && 0 <= j < a.Length1 && 0 <= k < a.Length2 then a[i, j, k] else 0.0);
    CellsAre(b, Cells(a));
  }
}
