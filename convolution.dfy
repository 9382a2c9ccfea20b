/** Per-channel 2D convolution of an RGB grid with a small kernel, with
    implicit zero padding at the borders (convolve in src/cpu/deblur.cpp). */
module Convolution {
  import opened Sums
  import opened Grids

  /** The row and column of the kernel's centre: kernel.size() / 2 and
      kernel[0].size() / 2. */
  function CentreRow(kernel: Grid): nat { |kernel| / 2 }
  function CentreCol(kernel: Grid): nat { Width(kernel) / 2 }

  /** What kernel cell (m, n) adds to output pixel (i, j) in channel k: the
      source pixel (i + m - centre row, j + n - centre column) weighted by the
      kernel, or nothing when that source index lies outside the grid. */
  function Tap(src: Grid, kernel: Grid, i: int, j: int, k: int, m: int, n: int): real
  {
    var y := i + (m - CentreRow(kernel));
    var x := j + (n - CentreCol(kernel));
    if 0 <= y < |src| && 0 <= x < Width(src) && x < |src[y]| && 0 <= k < |src[y][x]|
      && 0 <= m < |kernel| && 0 <= n < |kernel[m]| && k < |kernel[m][n]|
    then Product(src[y][x][k], kernel[m][n][k])
    else 0.0
  }

  /** The taps of output pixel (i, j), channel k, as a function of the kernel cell. */
  function Taps(src: Grid, kernel: Grid, i: int, j: int, k: int): (int, int) -> real
  {
    (m, n) => Tap(src, kernel, i, j, k, m, n)
  }

  /** Output pixel (i, j), channel k: the sum of the taps over every kernel
      cell, kernel rows outermost as in the source's loops. */
  function ConvCell(src: Grid, kernel: Grid, i: int, j: int, k: int): real
  {
    Sum2(Taps(src, kernel, i, j, k), |kernel|, Width(kernel))
  }

  /** The convolution of src with kernel: as many rows and columns as src,
      three channels per pixel. */
  function Conv(src: Grid, kernel: Grid): (r: Grid)
    ensures Rgb(r) && |r| == |src| && Width(r) == Width(src)
  {
    seq(|src|, i requires 0 <= i < |src| =>
      seq(Width(src), j requires 0 <= j < Width(src) =>
        seq(3, k requires 0 <= k < 3 => ConvCell(src, kernel, i, j, k))))
  }

  /** A kernel whose three channels are 1 at the centre cell and 0 at every
      other cell. */
  predicate IsIdentityKernel(kernel: Grid)
  {
    0 < |kernel| && Rect(kernel) && 0 < Width(kernel) && HasChannels(kernel, 3) &&
    forall m, n, k | 0 <= m < |kernel| && 0 <= n < Width(kernel) && 0 <= k < 3 ::
      kernel[m][n][k] == if m == CentreRow(kernel) && n == CentreCol(kernel) then 1.0 else 0.0
  }

  /** Convolving with the identity kernel gives the grid back unchanged. */
  lemma ConvIdentity(src: Grid, kernel: Grid)
    requires Rgb(src) && IsIdentityKernel(kernel)
    ensures Conv(src, kernel) == src
  {
    var r := Conv(src, kernel);
    var cy, cx := CentreRow(kernel), CentreCol(kernel);
    forall i, j, k | 0 <= i < |src| && 0 <= j < |src[i]| && 0 <= k < 3
      ensures r[i][j][k] == src[i][j][k]
    {
      var f := Taps(src, kernel, i, j, k);
      forall m, n | 0 <= m < |kernel| && 0 <= n < Width(kernel) && (m != cy || n != cx)
        ensures f(m, n) == 0.0
      {
        assert kernel[m][n][k] == 0.0;
      }
      Sum2Single(f, cy, cx, |kernel|, Width(kernel));
      assert kernel[cy][cx][k] == 1.0;
      assert f(cy, cx) == Product(src[i][j][k], 1.0);
    }
    forall i | 0 <= i < |src| ensures r[i] == src[i] {
      forall j | 0 <= j < |src[i]| ensures r[i][j] == src[i][j] {
      }
    }
  }

  /** Convolving with an all-zero kernel gives an all-zero grid. */
  lemma ConvZeroKernel(src: Grid, kernel: Grid)
    requires forall m, n, k | 0 <= m < |kernel| && 0 <= n < |kernel[m]| && 0 <= k < |kernel[m][n]| ::
      kernel[m][n][k] == 0.0
    ensures forall i, j, k | 0 <= i < |src| && 0 <= j < Width(src) && 0 <= k < 3 ::
      Conv(src, kernel)[i][j][k] == 0.0
  {
    forall i, j, k | 0 <= i < |src| && 0 <= j < Width(src) && 0 <= k < 3
      ensures Conv(src, kernel)[i][j][k] == 0.0
    {
      var f := Taps(src, kernel, i, j, k);
      forall m, n | 0 <= m < |kernel| && 0 <= n < Width(kernel)
        ensures f(m, n) == 0.0
      {
        if 0 <= n < |kernel[m]| && k < |kernel[m][n]| {
          assert kernel[m][n][k] == 0.0;
        }
      }
      Sum2Single(f, -1, -1, |kernel|, Width(kernel));
    }
  }

  /** Non-negative grids convolved with non-negative kernels stay
      non-negative. */
  lemma ConvNonNegative(src: Grid, kernel: Grid)
    requires NonNegative(src) && NonNegative(kernel)
    ensures NonNegative(Conv(src, kernel))
  {
    var r := Conv(src, kernel);
    forall i, j, k | 0 <= i < |r| && 0 <= j < |r[i]| && 0 <= k < |r[i][j]|
      ensures 0.0 <= r[i][j][k]
    {
      var f := Taps(src, kernel, i, j, k);
      forall m, n | 0 <= m < |kernel| && 0 <= n < Width(kernel)
        ensures 0.0 <= f(m, n)
      {
        var y, x := i + (m - CentreRow(kernel)), j + (n - CentreCol(kernel));
        if 0 <= y < |src| && 0 <= x < |src[y]| && k < |src[y][x]| && n < |kernel[m]| && k < |kernel[m][n]| {
          assert 0.0 <= src[y][x][k] && 0.0 <= kernel[m][n][k];
        }
      }
      Sum2NonNegative(f, |kernel|, Width(kernel));
    }
  }

  /** convolve: allocates an all-zero H x W x 3 result and accumulates, for
      every output pixel, the in-range taps of every kernel cell. */
  method Convolve(src: array3<real>, kernel: array3<real>) returns (out: array3<real>)
    requires 0 < src.Length0 && 0 < src.Length1 ==> 3 <= src.Length2
    requires 0 < kernel.Length0 && 0 < kernel.Length1 ==> 3 <= kernel.Length2
    ensures fresh(out)
    ensures out.Length0 == src.Length0 && out.Length1 == src.Length1 && out.Length2 == 3
    ensures Cells(out) == Conv(Cells(src), Cells(kernel))
  {
    out := new real[src.Length0, src.Length1, 3]((i, j, k) => 0.0);
    ghost var S, K := Cells(src), Cells(kernel);
    for i := 0 to src.Length0
      invariant forall x, y, z | 0 <= x < out.Length0 && 0 <= y < out.Length1 && 0 <= z < 3 ::
        out[x, y, z] == if Before(x, y, 0, i, 0, 0) then ConvCell(S, K, x, y, z) else 0.0
    {
      for j := 0 to src.Length1
        invariant forall x, y, z | 0 <= x < out.Length0 && 0 <= y < out.Length1 && 0 <= z < 3 ::
          out[x, y, z] == if Before(x, y, 0, i, j, 0) then ConvCell(S, K, x, y, z) else 0.0
      {
        AccumulatePixel(src, kernel, out, i, j);
      }
    }
    CellsAre(out, Conv(S, K));
  }

  /** The two kernel loops of convolve for one output pixel (i, j): adds
      every in-range tap to its three channels and touches nothing else. */
  method AccumulatePixel(src: array3<real>, kernel: array3<real>, out: array3<real>, i: int, j: int)
    requires 0 <= i < src.Length0 && 0 <= j < src.Length1 && 3 <= src.Length2
    requires 0 < kernel.Length0 && 0 < kernel.Length1 ==> 3 <= kernel.Length2
    requires out.Length0 == src.Length0 && out.Length1 == src.Length1 && out.Length2 == 3
    requires out != src && out != kernel
    modifies out
    ensures out[i, j, 0] == old(out[i, j, 0]) + ConvCell(Cells(src), Cells(kernel), i, j, 0)
    ensures out[i, j, 1] == old(out[i, j, 1]) + ConvCell(Cells(src), Cells(kernel), i, j, 1)
    ensures out[i, j, 2] == old(out[i, j, 2]) + ConvCell(Cells(src), Cells(kernel), i, j, 2)
    ensures forall x, y, z | 0 <= x < out.Length0 && 0 <= y < out.Length1 && 0 <= z < 3 && (x != i || y != j) ::
      out[x, y, z] == old(out[x, y, z])
  {
    ghost var S, K := Cells(src), Cells(kernel);
    for m := 0 to kernel.Length0
      invariant out[i, j, 0] == old(out[i, j, 0]) + Sum2(Taps(S, K, i, j, 0), m, Width(K))
      invariant out[i, j, 1] == old(out[i, j, 1]) + Sum2(Taps(S, K, i, j, 1), m, Width(K))
      invariant out[i, j, 2] == old(out[i, j, 2]) + Sum2(Taps(S, K, i, j, 2), m, Width(K))
      invariant forall x, y, z | 0 <= x < out.Length0 && 0 <= y < out.Length1 && 0 <= z < 3 && (x != i || y != j) ::
        out[x, y, z] == old(out[x, y, z])
    {
      AccumulateRow(src, kernel, out, i, j, m);
    }
  }

  /** The inner kernel loop of convolve for output pixel (i, j) and kernel
      row m: adds the taps of the cells of row m, column by column. */
  method AccumulateRow(src: array3<real>, kernel: array3<real>, out: array3<real>, i: int, j: int, m: int)
    requires 0 <= i < src.Length0 && 0 <= j < src.Length1 && 3 <= src.Length2
    requires 0 <= m < kernel.Length0 && (0 < kernel.Length1 ==> 3 <= kernel.Length2)
    requires out.Length0 == src.Length0 && out.Length1 == src.Length1 && out.Length2 == 3
    requires out != src && out != kernel
    modifies out
    ensures out[i, j, 0] == old(out[i, j, 0]) + RowSum(Taps(Cells(src), Cells(kernel), i, j, 0), m, kernel.Length1)
    ensures out[i, j, 1] == old(out[i, j, 1]) + RowSum(Taps(Cells(src), Cells(kernel), i, j, 1), m, kernel.Length1)
    ensures out[i, j, 2] == old(out[i, j, 2]) + RowSum(Taps(Cells(src), Cells(kernel), i, j, 2), m, kernel.Length1)
    ensures forall x, y, z | 0 <= x < out.Length0 && 0 <= y < out.Length1 && 0 <= z < 3 && (x != i || y != j) ::
      out[x, y, z] == old(out[x, y, z])
  {
    ghost var S, K := Cells(src), Cells(kernel);
    for n := 0 to kernel.Length1
      invariant out[i, j, 0] == old(out[i, j, 0]) + RowSum(Taps(S, K, i, j, 0), m, n)
      invariant out[i, j, 1] == old(out[i, j, 1]) + RowSum(Taps(S, K, i, j, 1), m, n)
      invariant out[i, j, 2] == old(out[i, j, 2]) + RowSum(Taps(S, K, i, j, 2), m, n)
      invariant forall x, y, z | 0 <= x < out.Length0 && 0 <= y < out.Length1 && 0 <= z < 3 && (x != i || y != j) ::
        out[x, y, z] == old(out[x, y, z])
    {
      TapIs(src, kernel, i, j, 0, m, n);
      TapIs(src, kernel, i, j, 1, m, n);
      TapIs(src, kernel, i, j, 2, m, n);
      AddTap(src, kernel, out, i, j, m, n);
    }
  }

  /** The tap of kernel cell (m, n) for output pixel (i, j), channel k, read
      off the arrays as the loop body of convolve reads it. */
  ghost function ArrayTap(src: array3<real>, kernel: array3<real>, i: int, j: int, k: int, m: int, n: int): real
    requires 0 <= k < 3 <= src.Length2 && 3 <= kernel.Length2
    requires 0 <= m < kernel.Length0 && 0 <= n < kernel.Length1
    reads src, kernel
  {
    var y, x := i + (m - kernel.Length0 / 2), j + (n - kernel.Length1 / 2);
    if 0 <= y < src.Length0 && 0 <= x < src.Length1 then Product(src[y, x, k], kernel[m, n, k]) else 0.0
  }

  /** The body of the kernel loops: when the source index under kernel
      cell (m, n) lies inside the grid, adds that tap to the three channels
      of output pixel (i, j). */
  method AddTap(src: array3<real>, kernel: array3<real>, out: array3<real>, i: int, j: int, m: int, n: int)
    requires 0 <= i < src.Length0 && 0 <= j < src.Length1 && 3 <= src.Length2
    requires 0 <= m < kernel.Length0 && 0 <= n < kernel.Length1 && 3 <= kernel.Length2
    requires out.Length0 == src.Length0 && out.Length1 == src.Length1 && out.Length2 == 3
    requires out != src && out != kernel
    modifies out
    ensures out[i, j, 0] == old(out[i, j, 0]) + ArrayTap(src, kernel, i, j, 0, m, n)
    ensures out[i, j, 1] == old(out[i, j, 1]) + ArrayTap(src, kernel, i, j, 1, m, n)
    ensures out[i, j, 2] == old(out[i, j, 2]) + ArrayTap(src, kernel, i, j, 2, m, n)
    ensures forall x, y, z | 0 <= x < out.Length0 && 0 <= y < out.Length1 && 0 <= z < 3 && (x != i || y != j) ::
      out[x, y, z] == old(out[x, y, z])
  {
    var centreY, centreX := kernel.Length0 / 2, kernel.Length1 / 2;
    var rows, cols := src.Length0, src.Length1;
    var y := i + (m - centreY);
    var x := j + (n - centreX);
    if 0 <= y < rows && 0 <= x < cols {
      out[i, j, 0] := out[i, j, 0] + Product(src[y, x, 0], kernel[m, n, 0]);
      out[i, j, 1] := out[i, j, 1] + Product(src[y, x, 1], kernel[m, n, 1]);
      out[i, j, 2] := out[i, j, 2] + Product(src[y, x, 2], kernel[m, n, 2]);
    }
  }

  /** The array tap is the tap of the grids the arrays hold. */
  lemma TapIs(src: array3<real>, kernel: array3<real>, i: int, j: int, k: int, m: int, n: int)
    requires 0 <= k < 3 <= src.Length2 && 3 <= kernel.Length2
    requires 0 <= m < kernel.Length0 && 0 <= n < kernel.Length1
    ensures Taps(Cells(src), Cells(kernel), i, j, k)(m, n) == ArrayTap(src, kernel, i, j, k, m, n)
  {
  }
}
