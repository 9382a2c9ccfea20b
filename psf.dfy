/** The point-spread function: a 5 x 5 Gaussian kernel normalised to total
    weight 1, split equally over the three colour channels, and its 180
    degree rotation used for back-projection (calculatePSF in
    src/cpu/deblur.cpp). */
module Psf {
  import opened Sums
  import opened Grids

  /** The kernel is PsfSize x PsfSize cells. */
  const PsfSize: nat := 5
  /** The Gaussian is centred at (MeanRow, MeanCol) = (0, 0), the kernel's
      top-left cell, not at its centre cell. */
  const MeanRow: real := 0.0
  const MeanCol: real := 0.0
  const SigmaRow: real := 49.0
  const SigmaCol: real := 36.0
  const Pi: real := 3.14159265358979323846

  /** The exponential function is a parameter of the model; all it needs is
      to be strictly positive. */
  ghost predicate PositiveExp(exp: real -> real)
  {
    forall x :: 0.0 < exp(x)
  }

  /** pow(x, 2.0) */
  function Square(x: real): real
  {
    x * x
  }

  /** The exponent of the Gaussian at cell (row, col):
      -0.5 * (((row - MeanRow) / SigmaRow)^2 + ((col - MeanCol) / SigmaCol)^2). */
  function Exponent(row: int, col: int): real
  {
    -0.5 * (Square((row as real - MeanRow) / SigmaRow) + Square((col as real - MeanCol) / SigmaCol))
  }

  /** With the means at 0, negating the row or the column keeps the
      exponent. */
  lemma ExponentSymmetric()
    ensures forall row, col :: Exponent(-row, col) == Exponent(row, col) && Exponent(row, -col) == Exponent(row, col)
  {
    forall row: int, col: int
      ensures Exponent(-row, col) == Exponent(row, col) && Exponent(row, -col) == Exponent(row, col)
    {
      var y, x := row as real / SigmaRow, col as real / SigmaCol;
      assert (-row) as real / SigmaRow == -y;
      assert (-col) as real / SigmaCol == -x;
      assert Square(-y) == Square(y);
      assert Square(-x) == Square(x);
    }
  }

  /** The exponent is 0 at the centre (0, 0) and below 0 elsewhere. */
  lemma ExponentPeak()
    ensures Exponent(0, 0) == 0.0
    ensures forall row, col :: Exponent(row, col) <= Exponent(0, 0)
  {
    forall row: int, col: int
      ensures Exponent(row, col) <= 0.0
    {
      var y, x := row as real / SigmaRow, col as real / SigmaCol;
      assert 0.0 <= Square(y) && 0.0 <= Square(x);
    }
  }

  /** The unnormalised Gaussian weight of cell (row, col), centred at
      (MeanRow, MeanCol) = (0, 0): its value at the top-left cell is
      exp(0) / (2 pi sigma_row sigma_col), its exponent is largest there,
      and it is symmetric about that cell. */
  function Gaussian(exp: real -> real): (g: (int, int) -> real)
    ensures g(0, 0) == exp(0.0) / (2.0 * Pi * SigmaRow * SigmaCol)
    ensures forall row, col :: Exponent(row, col) <= Exponent(0, 0)
    ensures forall row, col :: g(-row, col) == g(row, col) && g(row, -col) == g(row, col)
  {
    ExponentSymmetric();
    ExponentPeak();
    (row: int, col: int) => exp(Exponent(row, col)) / (2.0 * Pi * SigmaRow * SigmaCol)
  }

  /** A raw weight function that is positive on every kernel cell. */
  ghost predicate Positive(weight: (int, int) -> real)
  {
    forall row, col | 0 <= row < PsfSize && 0 <= col < PsfSize :: 0.0 < weight(row, col)
  }

  /** With a positive exponential, every Gaussian weight is positive. */
  lemma GaussianPositive(exp: real -> real)
    requires PositiveExp(exp)
    ensures Positive(Gaussian(exp))
  {
    forall row, col | 0 <= row < PsfSize && 0 <= col < PsfSize ensures 0.0 < Gaussian(exp)(row, col) {
      assert 0.0 < exp(Exponent(row, col));
    }
  }

  /** An exponential that never decreases. */
  ghost predicate MonotoneExp(exp: real -> real)
  {
    forall x, y | x <= y :: exp(x) <= exp(y)
  }

  /** With a non-decreasing exponential, the Gaussian is largest at its
      centre (0, 0). */
  lemma GaussianPeak(exp: real -> real)
    requires MonotoneExp(exp)
    ensures forall row, col :: Gaussian(exp)(row, col) <= Gaussian(exp)(0, 0)
  {
    var c := 2.0 * Pi * SigmaRow * SigmaCol;
    assert 0.0 < c;
    forall row: int, col: int
      ensures Gaussian(exp)(row, col) <= Gaussian(exp)(0, 0)
    {
      ExponentPeak();
      assert exp(Exponent(row, col)) <= exp(Exponent(0, 0));
    }
  }

  /** The accumulated `sum` of the raw weights over the kernel; positive. */
  function RawTotal(weight: (int, int) -> real): (t: real)
    requires Positive(weight)
    ensures 0.0 < t
  {
    Sum2Positive(weight, PsfSize, PsfSize);
    Sum2(weight, PsfSize, PsfSize)
  }

  /** psf_init[row][col] after normalisation: the raw weight divided by the
      total. */
  function NormWeight(weight: (int, int) -> real, row: int, col: int): (w: real)
    requires Positive(weight)
    ensures 0 <= row < PsfSize && 0 <= col < PsfSize ==> 0.0 < w
  {
    weight(row, col) / RawTotal(weight)
  }

  /** The normalised weights as a function of (row, column). */
  function Normalised(weight: (int, int) -> real): (int, int) -> real
    requires Positive(weight)
  {
    (row: int, col: int) => NormWeight(weight, row, col)
  }

  lemma SelfQuotient(x: real)
    requires x != 0.0
    ensures x / x == 1.0
  {
  }

  /** The normalised weights sum to 1 over the kernel. */
  lemma NormWeightsSumToOne(weight: (int, int) -> real)
    requires Positive(weight)
    ensures Sum2(Normalised(weight), PsfSize, PsfSize) == 1.0
  {
    var t := RawTotal(weight);
    Sum2Divide(weight, Normalised(weight), t, PsfSize, PsfSize);
    SelfQuotient(t);
  }

  /** The PSF as a grid: every channel of cell (row, col) carries a third of
      the normalised weight. */
  function PsfGrid(weight: (int, int) -> real): (g: Grid)
    requires Positive(weight)
    ensures |g| == PsfSize && Rgb(g) && Width(g) == PsfSize
  {
    seq(PsfSize, row requires 0 <= row < PsfSize =>
      seq(PsfSize, col requires 0 <= col < PsfSize =>
        seq(3, k requires 0 <= k < 3 => NormWeight(weight, row, col) / 3.0)))
  }

  /** Channel k of a kernel as a function of (row, column); 0 outside it. */
  function Channel(kernel: Grid, k: int): (int, int) -> real
  {
    (row: int, col: int) =>
      if 0 <= row < |kernel| && 0 <= col < |kernel[row]| && 0 <= k < |kernel[row][col]| then kernel[row][col][k] else 0.0
  }

  /** The total weight of one channel of a kernel. */
  function ChannelMass(kernel: Grid, k: int): real
  {
    Sum2(Channel(kernel, k), |kernel|, Width(kernel))
  }

  /** Each channel of the PSF weighs 1/3, so all three together weigh 1. */
  lemma PsfMass(weight: (int, int) -> real)
    requires Positive(weight)
    ensures forall k | 0 <= k < 3 :: ChannelMass(PsfGrid(weight), k) == 1.0 / 3.0
    ensures ChannelMass(PsfGrid(weight), 0) + ChannelMass(PsfGrid(weight), 1) + ChannelMass(PsfGrid(weight), 2) == 1.0
  {
    var g := PsfGrid(weight);
    NormWeightsSumToOne(weight);
    forall k | 0 <= k < 3 ensures ChannelMass(g, k) == 1.0 / 3.0 {
      PsfChannelMass(weight, k);
    }
  }

  lemma PsfChannelMass(weight: (int, int) -> real, k: int)
    requires Positive(weight) && 0 <= k < 3
    requires Sum2(Normalised(weight), PsfSize, PsfSize) == 1.0
    ensures ChannelMass(PsfGrid(weight), k) == 1.0 / 3.0
  {
    var g := PsfGrid(weight);
    ScaledChannel(Normalised(weight), g, k, |g|);
  }

  /** A channel of a square grid whose cells are a third of a function's
      values weighs a third of that function's sum. */
  lemma ScaledChannel(norm: (int, int) -> real, g: Grid, k: int, n: nat)
    requires |g| == n && Rect(g) && Width(g) == n
    requires forall row, col | 0 <= row < n && 0 <= col < n :: 0 <= k < |g[row][col]| && g[row][col][k] == norm(row, col) / 3.0
    ensures ChannelMass(g, k) == Sum2(norm, n, n) * (1.0 / 3.0)
  {
    var f := Channel(g, k);
    forall row, col | 0 <= row < n && 0 <= col < n
      ensures f(row, col) == norm(row, col) * (1.0 / 3.0)
    {
    }
    Sum2Scale(norm, f, 1.0 / 3.0, n, n);
  }

  /** Every PSF weight is positive. */
  lemma PsfPositive(weight: (int, int) -> real)
    requires Positive(weight)
    ensures forall row, col, k | 0 <= row < PsfSize && 0 <= col < PsfSize && 0 <= k < 3 ::
      0.0 < PsfGrid(weight)[row][col][k]
    ensures NonNegative(PsfGrid(weight))
  {
    var g := PsfGrid(weight);
    forall row, col, k | 0 <= row < PsfSize && 0 <= col < PsfSize && 0 <= k < 3
      ensures 0.0 < g[row][col][k]
    {
      assert g[row][col][k] == NormWeight(weight, row, col) / 3.0;
    }
  }

  /** The kernel rotated by 180 degrees: cell (row, col) of the result is
      cell (rows - 1 - row, cols - 1 - col) of the kernel. */
  function Flip(kernel: Grid): (r: Grid)
    requires Rect(kernel)
    ensures |r| == |kernel| && Rect(r) && Width(r) == Width(kernel)
  {
    seq(|kernel|, row requires 0 <= row < |kernel| =>
      seq(Width(kernel), col requires 0 <= col < Width(kernel) =>
        kernel[|kernel| - 1 - row][Width(kernel) - 1 - col]))
  }

  /** Rotating twice gives the kernel back. */
  lemma FlipFlip(kernel: Grid)
    requires Rect(kernel)
    ensures Flip(Flip(kernel)) == kernel
  {
    var f := Flip(Flip(kernel));
    forall row | 0 <= row < |kernel| ensures f[row] == kernel[row] {
    }
  }

  /** Rotation keeps every weight, so non-negative kernels stay non-negative. */
  lemma FlipNonNegative(kernel: Grid)
    requires Rect(kernel) && NonNegative(kernel)
    ensures NonNegative(Flip(kernel))
  {
    var f := Flip(kernel);
    forall row, col, k | 0 <= row < |f| && 0 <= col < |f[row]| && 0 <= k < |f[row][col]|
      ensures 0.0 <= f[row][col][k]
    {
      assert f[row][col] == kernel[|kernel| - 1 - row][Width(kernel) - 1 - col];
    }
  }

  /** calculatePSF: fills psf_init with the raw weights while summing them,
      divides every cell by the sum in place, copies a third of each weight
      into the three channels of psf_final and writes the rotation of
      psf_final into psf_hat. Each of the four loop nests is one helper
      method below. */
  method CalculatePsf(weight: (int, int) -> real) returns (psf: array3<real>, psfHat: array3<real>)
    requires Positive(weight)
    ensures fresh(psf) && fresh(psfHat)
    ensures ShapeOf(psf) == ShapeOf(psfHat) == Shape(PsfSize, PsfSize, 3)
    ensures Cells(psf) == PsfGrid(weight)
    ensures Cells(psfHat) == Flip(PsfGrid(weight))
  {
    var psfInit, sum := RawWeights(weight, PsfSize);
    Normalise(psfInit, sum);
    psf := SplitChannels(psfInit);
    psfHat := Rotate(psf);
    forall x, y | 0 <= x < PsfSize && 0 <= y < PsfSize ensures PsfCellIs(psf, x, y, NormWeight(weight, x, y)) {
      assert psfInit[x, y] == NormWeight(weight, x, y);
    }
    HoldsPsf(psf, weight);
    HoldsFlip(psf, psfHat, PsfGrid(weight));
  }

  /** An array whose cells hold a third of the normalised weights holds the
      PSF grid. */
  lemma HoldsPsf(psf: array3<real>, weight: (int, int) -> real)
    requires Positive(weight) && ShapeOf(psf) == Shape(PsfSize, PsfSize, 3)
    requires forall x, y | 0 <= x < PsfSize && 0 <= y < PsfSize :: PsfCellIs(psf, x, y, NormWeight(weight, x, y))
    ensures Cells(psf) == PsfGrid(weight)
  {
    var g := PsfGrid(weight);
    forall x, y, z | 0 <= x < PsfSize && 0 <= y < PsfSize && 0 <= z < 3
      ensures psf[x, y, z] == g[x][y][z]
    {
      assert PsfCellIs(psf, x, y, NormWeight(weight, x, y));
    }
    CellsAre(psf, g);
  }

  /** An array holding the rotation of a grid-valued array holds the
      rotated grid. */
  lemma HoldsFlip(psf: array3<real>, psfHat: array3<real>, g: Grid)
    requires ShapeOf(psf) == ShapeOf(psfHat) == Shape(PsfSize, PsfSize, 3)
    requires Cells(psf) == g
    requires forall x, y, z | 0 <= x < PsfSize && 0 <= y < PsfSize && 0 <= z < 3 ::
      psfHat[x, y, z] == psf[PsfSize - 1 - x, PsfSize - 1 - y, z]
    ensures Cells(psfHat) == Flip(g)
  {
    var f := Flip(g);
    forall x, y, z | 0 <= x < PsfSize && 0 <= y < PsfSize && 0 <= z < 3
      ensures psfHat[x, y, z] == f[x][y][z]
    {
      assert f[x][y] == g[PsfSize - 1 - x][PsfSize - 1 - y];
    }
    CellsAre(psfHat, f);
  }

  /** The first loop nest: psf_init[j][k] receives the raw weight of (j, k)
      and `sum` accumulates the weights in row-major order. */
  method RawWeights(weight: (int, int) -> real, size: nat) returns (psfInit: array2<real>, sum: real)
    ensures fresh(psfInit) && psfInit.Length0 == size && psfInit.Length1 == size
    ensures forall x, y | 0 <= x < size && 0 <= y < size :: psfInit[x, y] == weight(x, y)
    ensures sum == Sum2(weight, size, size)
  {
    psfInit := new real[size, size];
    sum := 0.0;
    for j := 0 to size
      invariant sum == Sum2(weight, j, size)
      invariant forall x, y | 0 <= x < j && 0 <= y < size :: psfInit[x, y] == weight(x, y)
    {
      sum := RawRow(weight, psfInit, sum, j);
    }
  }

  /** One row of the first loop nest: psf_init[j][k] := weight(j, k) for
      every column k, adding each weight to `sum`. */
  method RawRow(weight: (int, int) -> real, psfInit: array2<real>, sum0: real, j: int) returns (sum: real)
    requires 0 <= j < psfInit.Length0
    modifies psfInit
    ensures sum == sum0 + RowSum(weight, j, psfInit.Length1)
    ensures forall x, y | 0 <= x < psfInit.Length0 && 0 <= y < psfInit.Length1 ::
      psfInit[x, y] == if x == j then weight(x, y) else old(psfInit[x, y])
  {
    sum := sum0;
    for k := 0 to psfInit.Length1
      invariant sum == sum0 + RowSum(weight, j, k)
      invariant forall x, y | 0 <= x < psfInit.Length0 && 0 <= y < psfInit.Length1 ::
        psfInit[x, y] == if x == j && y < k then weight(x, y) else old(psfInit[x, y])
    {
      var temp := weight(j, k);
      sum := sum + temp;
      psfInit[j, k] := temp;
    }
  }

  /** The second loop nest: psf_init[row][col] /= sum, in place. */
  method Normalise(psfInit: array2<real>, sum: real)
    requires sum != 0.0
    modifies psfInit
    ensures forall x, y | 0 <= x < psfInit.Length0 && 0 <= y < psfInit.Length1 ::
      psfInit[x, y] == old(psfInit[x, y]) / sum
  {
    for row := 0 to psfInit.Length0
      invariant forall x, y | 0 <= x < psfInit.Length0 && 0 <= y < psfInit.Length1 ::
        psfInit[x, y] == if x < row then old(psfInit[x, y]) / sum else old(psfInit[x, y])
    {
      for col := 0 to psfInit.Length1
        invariant forall x, y | 0 <= x < psfInit.Length0 && 0 <= y < psfInit.Length1 ::
          psfInit[x, y] == if Before(x, y, 0, row, col, 0) then old(psfInit[x, y]) / sum else old(psfInit[x, y])
      {
        psfInit[row, col] := psfInit[row, col] / sum;
      }
    }
  }

  /** The third loop nest: each of the three channels of psf_final[row][col]
      receives a third of psf_init[row][col]. */
  method SplitChannels(psfInit: array2<real>) returns (psf: array3<real>)
    ensures fresh(psf) && ShapeOf(psf) == Shape(psfInit.Length0, psfInit.Length1, 3)
    ensures forall x, y | 0 <= x < psfInit.Length0 && 0 <= y < psfInit.Length1 :: PsfCellIs(psf, x, y, psfInit[x, y])
  {
    psf := new real[psfInit.Length0, psfInit.Length1, 3];
    for row := 0 to psfInit.Length0
      invariant forall x, y | 0 <= x < row && 0 <= y < psfInit.Length1 :: PsfCellIs(psf, x, y, psfInit[x, y])
    {
      for col := 0 to psfInit.Length1
        invariant forall x, y | 0 <= x < row && 0 <= y < psfInit.Length1 :: PsfCellIs(psf, x, y, psfInit[x, y])
        invariant forall y | 0 <= y < col :: PsfCellIs(psf, row, y, psfInit[row, y])
      {
        var curr := psfInit[row, col];
        psf[row, col, 0] := curr / 3.0;
        psf[row, col, 1] := curr / 3.0;
        psf[row, col, 2] := curr / 3.0;
      }
    }
  }

  /** The fourth loop nest: psf_hat[4 - row][4 - col] receives the three
      channels of psf_final[row][col]. */
  method Rotate(psf: array3<real>) returns (psfHat: array3<real>)
    requires ShapeOf(psf) == Shape(PsfSize, PsfSize, 3)
    ensures fresh(psfHat) && ShapeOf(psfHat) == ShapeOf(psf)
    ensures forall x, y, z | 0 <= x < PsfSize && 0 <= y < PsfSize && 0 <= z < 3 ::
      psfHat[x, y, z] == psf[PsfSize - 1 - x, PsfSize - 1 - y, z]
  {
    psfHat := new real[PsfSize, PsfSize, 3];
    for row := 0 to PsfSize
      invariant forall x, y, z | 0 <= x < row && 0 <= y < PsfSize && 0 <= z < 3 ::
          psfHat[PsfSize - 1 - x, PsfSize - 1 - y, z] == psf[x, y, z]
    {
      for col := 0 to PsfSize
        invariant forall x, y, z | 0 <= x < row && 0 <= y < PsfSize && 0 <= z < 3 ::
          psfHat[PsfSize - 1 - x, PsfSize - 1 - y, z] == psf[x, y, z]
        invariant forall y, z | 0 <= y < col && 0 <= z < 3 :: psfHat[PsfSize - 1 - row, PsfSize - 1 - y, z] == psf[row, y, z]
      {
        var y := PsfSize - 1 - row;
        var x := PsfSize - 1 - col;
        psfHat[y, x, 0] := psf[row, col, 0];
        psfHat[y, x, 1] := psf[row, col, 1];
        psfHat[y, x, 2] := psf[row, col, 2];
      }
    }
    forall x, y, z | 0 <= x < PsfSize && 0 <= y < PsfSize && 0 <= z < 3
      ensures psfHat[x, y, z] == psf[PsfSize - 1 - x, PsfSize - 1 - y, z]
    {
      assert psfHat[PsfSize - 1 - (PsfSize - 1 - x), PsfSize - 1 - (PsfSize - 1 - y), z] == psf[PsfSize - 1 - x, PsfSize - 1 - y, z];
    }
  }

  /** The three channels of cell (x, y) of psf hold a third of w. */
  ghost predicate PsfCellIs(psf: array3<real>, x: int, y: int, w: real)
    requires 0 <= x < psf.Length0 && 0 <= y < psf.Length1 && psf.Length2 == 3
    reads psf
  {
    psf[x, y, 0] == w / 3.0 && psf[x, y, 1] == w / 3.0 && psf[x, y, 2] == w / 3.0
  }
}
