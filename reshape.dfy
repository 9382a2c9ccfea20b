/** The buffer reshaping of the deblurring program (src/cpu/deblur.cpp):
    PNG decoding yields 4 samples per pixel (R, G, B, alpha), the alpha
    samples are dropped, the remaining row-major samples are unflattened
    into a height x width x 3 image, and the estimate is flattened back
    into RGBA samples with an opaque alpha of 255. */
module Reshape {
  import opened Grids

  /** The alpha value convert1D writes after the three colour samples. */
  const Opaque: int := 255

  // ---------------------------------------------------------------------
  // Row-major positions

  /** A positive multiple of w is at least w. */
  lemma {:induction false} MultipleAtLeast(d: int, w: int)
    requires 1 <= d && 0 <= w
    ensures w <= d * w
  {
    if d > 1 {
      MultipleAtLeast(d - 1, w);
    }
  }

  /** In a row of width w, the flat index i is cell (row, col) exactly when
      row = i / w and col = i % w. */
  lemma Position(row: int, col: int, w: int, i: int)
    requires 0 <= row && 0 <= col < w && 0 <= i
    ensures row * w + col == i <==> row == i / w && col == i % w
  {
    var q, m := i / w, i % w;
    if row * w + col == i {
      if row > q {
        MultipleAtLeast(row - q, w);
      } else if row < q {
        MultipleAtLeast(q - row, w);
      }
    }
  }

  /** A flat index below w * h lies in one of the h rows. */
  lemma RowInRange(i: int, w: int, h: int)
    requires 0 <= i < w * h && 0 < w
    ensures 0 <= i / w < h
  {
    var q := i / w;
    if q >= h {
      MultipleAtLeast(q - h + 1, w);
    }
  }

  /** Pixel (i, j) of an h x w image has flat index i * w + j below w * h. */
  lemma PixelInRange(i: int, j: int, w: int, h: int)
    requires 0 <= i < h && 0 <= j < w
    ensures 0 <= i * w + j < w * h
  {
    MultipleAtLeast(h - i, w);
  }

  /** Sample c of a 4-sample pixel p: its index divided by 4 is p, and
      dropping the one alpha sample of every earlier pixel moves it to
      3 * p + c. */
  lemma Quarter(p: int, c: int)
    requires 0 <= p && 0 <= c < 4
    ensures (p * 4 + c) / 4 == p && (p * 4 + c) % 4 == c
    ensures p * 4 + c - (p * 4 + c) / 4 == p * 3 + c
  {
  }

  // ---------------------------------------------------------------------
  // convert2D

  /** The value a flat buffer supplies at index s: the sample there, or the
      0.0 that resize left in a cell no sample reaches. */
  function Sample(v: seq<real>, s: int): real
  {
    if 0 <= s < |v| then v[s] else 0.0
  }

  /** h rows of w cells in which the first n samples of v have been placed
      row-major and every other cell is 0.0. */
  function Filled(v: seq<real>, w: nat, h: nat, n: nat): (r: seq<seq<real>>)
    requires n <= |v|
    ensures |r| == h && forall row | 0 <= row < h :: |r[row]| == w
  {
    seq(h, row requires 0 <= row < h =>
      seq(w, col requires 0 <= col < w => if row * w + col < n then v[row * w + col] else 0.0))
  }

  /** Placing sample n at cell (n / w, n % w) extends the placement by one. */
  lemma FilledStep(v: seq<real>, w: nat, h: nat, n: nat)
    requires n < |v| <= w * h
    ensures 0 < w && n / w < h
    ensures Filled(v, w, h, n + 1) == Filled(v, w, h, n)[n / w := Filled(v, w, h, n)[n / w][n % w := v[n]]]
  {
    RowInRange(n, w, h);
    var before, after := Filled(v, w, h, n), Filled(v, w, h, n + 1);
    var expected := before[n / w := before[n / w][n % w := v[n]]];
    forall row | 0 <= row < h
      ensures after[row] == expected[row]
    {
      forall col | 0 <= col < w
        ensures after[row][col] == expected[row][col]
      {
        Position(row, col, w, n);
      }
    }
  }

  /** convert2D: resize to h empty rows, resize each row to w zeros, then
      write sample i into cell (i / w, i % w). The samples must fit:
      a longer buffer indexes past the last row. */
  method Convert2D(vec1D: seq<real>, w: nat, h: nat) returns (vec2D: seq<seq<real>>)
    requires |vec1D| <= w * h
    ensures |vec2D| == h && forall row | 0 <= row < h :: |vec2D[row]| == w
    ensures forall row, col | 0 <= row < h && 0 <= col < w ::
      vec2D[row][col] == Sample(vec1D, row * w + col)
  {
    vec2D := ZeroRows(w, h);
    FilledNone(vec1D, w, h, vec2D);
    for i := 0 to |vec1D|
      invariant vec2D == Filled(vec1D, w, h, i)
    {
      FilledStep(vec1D, w, h, i);
      var row := i / w;
      var col := i % w;
      vec2D := vec2D[row := vec2D[row][col := vec1D[i]]];
    }
    FilledAll(vec1D, w, h);
  }

  /** Before any sample is placed, every cell is 0.0. */
  lemma FilledNone(v: seq<real>, w: nat, h: nat, zeros: seq<seq<real>>)
    requires |zeros| == h && forall row | 0 <= row < h :: zeros[row] == seq(w, _ => 0.0)
    ensures zeros == Filled(v, w, h, 0)
  {
    forall row | 0 <= row < h
      ensures zeros[row] == Filled(v, w, h, 0)[row]
    {
    }
  }

  /** Once every sample is placed, each cell holds the sample its row-major
      index names, or 0.0 past the end. */
  lemma FilledAll(v: seq<real>, w: nat, h: nat)
    ensures forall row, col | 0 <= row < h && 0 <= col < w ::
      Filled(v, w, h, |v|)[row][col] == Sample(v, row * w + col)
  {
    forall row, col | 0 <= row < h && 0 <= col < w
      ensures Filled(v, w, h, |v|)[row][col] == Sample(v, row * w + col)
    {
      PixelInRange(row, col, w, h);
    }
  }

  /** The resizing part of convert2D: h empty rows, then each row resized
      to w zero cells. */
  method ZeroRows(w: nat, h: nat) returns (vec2D: seq<seq<real>>)
    ensures |vec2D| == h && forall row | 0 <= row < h :: vec2D[row] == seq(w, _ => 0.0)
  {
    vec2D := seq(h, _ => []);
    for i := 0 to h
      invariant |vec2D| == h
      invariant forall row | 0 <= row < h :: vec2D[row] == if row < i then seq(w, _ => 0.0) else []
    {
      vec2D := vec2D[i := seq(w, _ => 0.0)];
    }
  }

  /** Every sample of a buffer that fits lands in cell (i / w, i % w). */
  lemma UnflattenIndex(v: seq<real>, w: nat, h: nat, r: seq<seq<real>>, i: int)
    requires |v| <= w * h && 0 <= i < |v|
    requires |r| == h && forall row | 0 <= row < h :: |r[row]| == w
    requires forall row, col | 0 <= row < h && 0 <= col < w :: r[row][col] == Sample(v, row * w + col)
    ensures 0 <= i / w < h && 0 <= i % w < w
    ensures r[i / w][i % w] == v[i]
  {
    RowInRange(i, w, h);
    Position(i / w, i % w, w, i);
  }

  // ---------------------------------------------------------------------
  // The image of main: two convert2D passes

  /** main's unflattening of the decoded samples: convert2D with rows of
      3 * w samples, then convert2D of each row into w pixels of 3 channels.
      Channel k of pixel (i, j) is sample (i * w + j) * 3 + k. */
  method ToImage(img: seq<real>, w: nat, h: nat) returns (finalRgbImg: Grid)
    requires |img| <= w * 3 * h
    ensures |finalRgbImg| == h
    ensures forall i | 0 <= i < h :: |finalRgbImg[i]| == w
    ensures forall i, j | 0 <= i < h && 0 <= j < w :: |finalRgbImg[i][j]| == 3
    ensures forall i, j, k | 0 <= i < h && 0 <= j < w && 0 <= k < 3 ::
      finalRgbImg[i][j][k] == Sample(img, (i * w + j) * 3 + k)
  {
    finalRgbImg := seq(h, _ => []);
    var initial := Convert2D(img, w * 3, h);
    for i := 0 to |initial|
      invariant |finalRgbImg| == h
      invariant forall r | i <= r < h :: finalRgbImg[r] == []
      invariant forall r | 0 <= r < i :: |finalRgbImg[r]| == w
      invariant forall r, j | 0 <= r < i && 0 <= j < w :: |finalRgbImg[r][j]| == 3
      invariant forall r, j, k | 0 <= r < i && 0 <= j < w && 0 <= k < 3 ::
        finalRgbImg[r][j][k] == Sample(img, (r * w + j) * 3 + k)
    {
      var row := Convert2D(initial[i], 3, w);
      RowSamples(img, w, initial[i], i, row);
      finalRgbImg := finalRgbImg[i := row];
    }
  }

  /** Row i of the first pass holds samples i * (3 * w) onwards; splitting
      it into pixels of 3 puts sample (i * w + j) * 3 + k at pixel j,
      channel k. */
  lemma RowSamples(img: seq<real>, w: nat, initialRow: seq<real>, i: nat, row: seq<seq<real>>)
    requires |initialRow| == w * 3
    requires forall c | 0 <= c < w * 3 :: initialRow[c] == Sample(img, i * (w * 3) + c)
    requires |row| == w && forall j | 0 <= j < w :: |row[j]| == 3
    requires forall j, k | 0 <= j < w && 0 <= k < 3 :: row[j][k] == Sample(initialRow, j * 3 + k)
    ensures forall j, k | 0 <= j < w && 0 <= k < 3 :: row[j][k] == Sample(img, (i * w + j) * 3 + k)
  {
    forall j, k | 0 <= j < w && 0 <= k < 3
      ensures row[j][k] == Sample(img, (i * w + j) * 3 + k)
    {
      PixelInRange(0, j, w, 1);
      Triple(i, j, k, w);
    }
  }

  /** Sample k of pixel j of row i, counted in samples of rows of 3 * w. */
  lemma Triple(i: int, j: int, k: int, w: int)
    ensures i * (w * 3) + (j * 3 + k) == (i * w + j) * 3 + k
  {
  }

  // ---------------------------------------------------------------------
  // Alpha stripping

  /** The samples the stripping loop keeps, in order: those whose index is
      not 3 modulo 4. */
  function WithoutAlpha(image: seq<int>): (r: seq<int>)
    ensures |r| <= |image|
  {
    if |image| == 0 then []
    else
      var last := |image| - 1;
      var kept := if last % 4 != 3 then [image[last]] else [];
      WithoutAlpha(image[..last]) + kept
  }

  /** The loop of decodePNG (and its copy in main): push every sample
      whose index is not 3 modulo 4. */
  method StripAlpha(image: seq<int>) returns (withoutAlpha: seq<int>)
    ensures withoutAlpha == WithoutAlpha(image)
  {
    withoutAlpha := [];
    for i := 0 to |image|
      invariant withoutAlpha == WithoutAlpha(image[..i])
    {
      assert image[..i + 1][..i] == image[..i];
      if i % 4 != 3 {
        withoutAlpha := withoutAlpha + [image[i]];
      }
    }
    assert image[..|image|] == image;
  }

  /** Stripping keeps 3 of every 4 samples: sample t, with t not 3 modulo
      4, moves to index t - t / 4 (sample 4p + c of pixel p becomes
      sample 3p + c), and nothing else is kept. */
  lemma {:induction false} WithoutAlphaLayout(image: seq<int>)
    ensures |WithoutAlpha(image)| == |image| - |image| / 4
    ensures forall t | 0 <= t < |image| && t % 4 != 3 :: WithoutAlpha(image)[t - t / 4] == image[t]
  {
    if |image| > 0 {
      var n := |image| - 1;
      var front := image[..n];
      WithoutAlphaLayout(front);
      forall t | 0 <= t < |image| && t % 4 != 3
        ensures WithoutAlpha(image)[t - t / 4] == image[t]
      {
        if t < n {
          assert front[t] == image[t];
        }
      }
    }
  }

  /** For a buffer of whole 4-sample pixels, stripping keeps 3 samples per
      pixel and channel c of pixel p moves from 4 * p + c to 3 * p + c. */
  lemma KeptSample(image: seq<int>, p: int, c: int)
    requires |image| % 4 == 0 && 0 <= p < |image| / 4 && 0 <= c < 3
    ensures |WithoutAlpha(image)| == |image| / 4 * 3
    ensures WithoutAlpha(image)[p * 3 + c] == image[p * 4 + c]
  {
    WithoutAlphaLayout(image);
    Quarter(p, c);
  }

  /** Decoding: for a buffer of whole RGBA pixels, channel k of pixel p
      of the stripped, double-valued buffer is sample 4 * p + k of the
      decoded buffer; with ToImage this puts RGBA pixel i * w + j at pixel
      (i, j) of main's image. */
  lemma DecodedSamples(image: seq<int>, p: int, k: int)
    requires |image| % 4 == 0 && 0 <= p < |image| / 4 && 0 <= k < 3
    ensures |AsDoubles(WithoutAlpha(image))| == |image| / 4 * 3
    ensures AsDoubles(WithoutAlpha(image))[p * 3 + k] == image[p * 4 + k] as real
  {
    KeptSample(image, p, k);
  }

  /** The std::vector<double> built from the stripped integer samples. */
  function AsDoubles(v: seq<int>): (r: seq<real>)
    ensures |r| == |v| && forall s | 0 <= s < |v| :: r[s] == v[s] as real
  {
    seq(|v|, s requires 0 <= s < |v| => v[s] as real)
  }

  // ---------------------------------------------------------------------
  // convert1D

  /** convert1D reads a[i][j][0..2] for every row i and every column j below
      the first row's length. */
  predicate Convertible(a: Grid)
  {
    (forall i | 0 <= i < |a| :: Width(a) <= |a[i]|) &&
    (forall i, j | 0 <= i < |a| && 0 <= j < Width(a) :: 3 <= |a[i][j]|)
  }

  /** The four samples convert1D pushes for pixel (i, j). The rounding and
      narrowing of each channel value is the parameter `quantize`. */
  function PixelRgba(a: Grid, quantize: real -> int, i: int, j: int): seq<int>
    requires Convertible(a) && 0 <= i < |a| && 0 <= j < Width(a)
  {
    [quantize(a[i][j][0]), quantize(a[i][j][1]), quantize(a[i][j][2]), Opaque]
  }

  /** The samples of the first n pixels of row i. */
  function RgbaRow(a: Grid, quantize: real -> int, i: int, n: nat): (r: seq<int>)
    requires Convertible(a) && 0 <= i < |a| && n <= Width(a)
    ensures |r| == 4 * n
  {
    if n == 0 then [] else RgbaRow(a, quantize, i, n - 1) + PixelRgba(a, quantize, i, n - 1)
  }

  /** The samples of the first n rows. */
  function RgbaRows(a: Grid, quantize: real -> int, n: nat): (r: seq<int>)
    requires Convertible(a) && n <= |a|
    ensures |r| == n * Width(a) * 4
  {
    if n == 0 then [] else RgbaRows(a, quantize, n - 1) + RgbaRow(a, quantize, n - 1, Width(a))
  }

  /** convert1D: append the RGBA samples of every pixel, row by row, to
      vec1D. */
  method Convert1D(a: Grid, vec1D: seq<int>, quantize: real -> int) returns (out: seq<int>)
    requires Convertible(a)
    ensures out == vec1D + RgbaRows(a, quantize, |a|)
  {
    out := vec1D;
    for i := 0 to |a|
      invariant out == vec1D + RgbaRows(a, quantize, i)
    {
      out := ConvertRow(a, quantize, i, out);
    }
  }

  /** One row of convert1D: push the four samples of each of the first
      row's length of pixels. */
  method ConvertRow(a: Grid, quantize: real -> int, i: int, prefix: seq<int>) returns (out: seq<int>)
    requires Convertible(a) && 0 <= i < |a|
    ensures out == prefix + RgbaRow(a, quantize, i, Width(a))
  {
    out := prefix;
    for j := 0 to Width(a)
      invariant out == prefix + RgbaRow(a, quantize, i, j)
    {
      out := out + [quantize(a[i][j][0])];
      out := out + [quantize(a[i][j][1])];
      out := out + [quantize(a[i][j][2])];
      out := out + [Opaque];
    }
  }

  /** Within a row: sample 4 * j + c is channel c of pixel j, and every
      fourth sample is the opaque alpha. */
  lemma {:induction false} RgbaRowLayout(a: Grid, quantize: real -> int, i: int, n: nat, j: int, c: int)
    requires Convertible(a) && 0 <= i < |a| && n <= Width(a)
    requires 0 <= j < n && 0 <= c < 4
    ensures RgbaRow(a, quantize, i, n)[4 * j + c] == if c == 3 then Opaque else quantize(a[i][j][c])
  {
    if j < n - 1 {
      RgbaRowLayout(a, quantize, i, n - 1, j, c);
    }
  }

  /** convert1D's output holds 4 samples per pixel: sample
      (i * w + j) * 4 + c is channel c of pixel (i, j) for c < 3, and every
      sample at an index 3 modulo 4 is 255. */
  lemma {:induction false} RgbaLayout(a: Grid, quantize: real -> int, n: nat, i: int, j: int, c: int)
    requires Convertible(a) && n <= |a|
    requires 0 <= i < n && 0 <= j < Width(a) && 0 <= c < 4
    ensures (i * Width(a) + j) * 4 + c < |RgbaRows(a, quantize, n)|
    ensures RgbaRows(a, quantize, n)[(i * Width(a) + j) * 4 + c] ==
      if c == 3 then Opaque else quantize(a[i][j][c])
  {
    var w := Width(a);
    var front := RgbaRows(a, quantize, n - 1);
    if i < n - 1 {
      RgbaLayout(a, quantize, n - 1, i, j, c);
    } else {
      RowOffset(i, j, c, w);
      RgbaRowLayout(a, quantize, i, w, j, c);
    }
  }

  /** Sample c of pixel (i, j) of a width-w image of 4-sample pixels lies
      4 * j + c samples into row i, which starts after 4 * i * w samples. */
  lemma RowOffset(i: int, j: int, c: int, w: int)
    requires 0 <= i && 0 <= j < w && 0 <= c < 4
    ensures (i * w + j) * 4 + c == i * w * 4 + (4 * j + c)
    ensures (i * w + j) * 4 + c < (i + 1) * w * 4
  {
  }

  /** Stripping the alpha samples from convert1D's output leaves the three
      quantized channel values of every pixel, row-major: 3 samples per
      pixel, channel c of pixel (i, j) at (i * w + j) * 3 + c. */
  lemma StripRgba(a: Grid, quantize: real -> int, i: int, j: int, p: int, c: int)
    requires Convertible(a)
    requires 0 <= i < |a| && 0 <= j < Width(a) && p == i * Width(a) + j && 0 <= c < 3
    ensures 0 <= p < |a| * Width(a)
    ensures |WithoutAlpha(RgbaRows(a, quantize, |a|))| == |a| * Width(a) * 3
    ensures WithoutAlpha(RgbaRows(a, quantize, |a|))[p * 3 + c] == quantize(a[i][j][c])
  {
    PixelInRange(i, j, Width(a), |a|);
    var rgba := RgbaRows(a, quantize, |a|);
    Quarter(|a| * Width(a), 0);
    KeptSample(rgba, p, c);
    RgbaLayout(a, quantize, |a|, i, j, c);
  }
}
