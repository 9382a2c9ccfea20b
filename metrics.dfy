/** The mean squared error of dep/metrics/metrics.cpp: the squared
    differences of two equally long buffers of RGB samples, summed and
    divided by the image's pixel count img_w * img_h. */
module Metrics {

  /** A value of the C++ type unsigned int. */
  newtype u32 = x: int | 0 <= x < 0x1_0000_0000

  /** What _mse gives: the mean squared error, or the abort on buffers of
      different sizes, or a zero pixel count (a division by zero, which
      yields infinity or NaN in double arithmetic). */
  datatype MseOutcome = Value(mse: real) | SizeMismatch | NoPixels

  /** The square of the difference of two samples, as pow(d, 2). */
  function SquaredDifference(x: int, y: int): (r: int)
    ensures 0 <= r
    ensures r == 0 <==> x == y
  {
    (x - y) * (x - y)
  }

  /** The squared differences of the first n samples, summed in order. */
  function SquaredError(img: seq<int>, ref: seq<int>, n: nat): (r: int)
    requires n <= |img| && n <= |ref|
    ensures 0 <= r
  {
    if n == 0 then 0 else SquaredError(img, ref, n - 1) + SquaredDifference(img[n - 1], ref[n - 1])
  }

  /** A non-negative integer reduced to unsigned 32 bits: it is kept when it
      fits and wraps around modulo 2^32 otherwise. */
  function Wrap(n: nat): (r: u32)
    ensures n < 0x1_0000_0000 ==> r as int == n
    ensures r as int == n % 0x1_0000_0000
  {
    (n % 0x1_0000_0000) as u32
  }

  /** img_w * img_h, computed in unsigned 32-bit arithmetic: the product
      wraps around modulo 2^32. */
  function PixelCount(w: u32, h: u32): (r: u32)
    ensures w as int * h as int < 0x1_0000_0000 ==> r as int == w as int * h as int
    ensures r as int == (w as int * h as int) % 0x1_0000_0000
  {
    Wrap(w as int * h as int)
  }

  /** A 65536 x 65536 image has 2^32 pixels, which wraps around to a pixel
      count of 0: _mse of two such equally long buffers divides by zero. */
  lemma WrappedPixelCount(img: seq<int>, ref: seq<int>)
    requires |img| == |ref|
    ensures PixelCount(65536, 65536) == 0
    ensures MeanSquaredError(img, 65536, 65536, ref) == NoPixels
  {
    assert 65536 * 65536 == 0x1_0000_0000;
  }

  /** The value _mse computes. */
  function MeanSquaredError(img: seq<int>, w: u32, h: u32, ref: seq<int>): (r: MseOutcome)
    ensures r.SizeMismatch? <==> |img| != |ref|
    ensures r.Value? ==> 0.0 <= r.mse
  {
    if |img| != |ref| then SizeMismatch
    else if PixelCount(w, h) == 0 then NoPixels
    else Value(SquaredError(img, ref, |img|) as real / PixelCount(w, h) as real)
  }

  /** _mse: abort when the sizes differ; otherwise walk the samples three at
      a time (the R, G and B of one pixel), add their squared differences
      to sq_err, and divide by the pixel count. The loop reads samples i+1
      and i+2, so the buffers must hold whole pixels. */
  method Mse(img: seq<int>, w: u32, h: u32, ref: seq<int>) returns (r: MseOutcome)
    requires |img| == |ref| ==> |img| % 3 == 0
    ensures r == MeanSquaredError(img, w, h, ref)
  {
    if |img| != |ref| {
      return SizeMismatch;
    }
    var sqErr := 0;
    var i := 0;
    while i < |img|
      invariant 0 <= i <= |img| && i % 3 == 0
      invariant sqErr == SquaredError(img, ref, i)
    {
      var sqErrR := SquaredDifference(img[i], ref[i]);
      var sqErrG := SquaredDifference(img[i + 1], ref[i + 1]);
      var sqErrB := SquaredDifference(img[i + 2], ref[i + 2]);
      sqErr := sqErr + (sqErrR + sqErrG + sqErrB);
      assert SquaredError(img, ref, i + 2) == SquaredError(img, ref, i) + sqErrR + sqErrG;
      i := i + 3;
    }
    var pixels := PixelCount(w, h);
    if pixels == 0 {
      return NoPixels;
    }
    return Value(sqErr as real / pixels as real);
  }

  /** The summed squared error is zero exactly when the compared samples
      agree. */
  lemma {:induction false} SquaredErrorZero(img: seq<int>, ref: seq<int>, n: nat)
    requires n <= |img| && n <= |ref|
    ensures SquaredError(img, ref, n) == 0 <==> img[..n] == ref[..n]
  {
    if n > 0 {
      SquaredErrorZero(img, ref, n - 1);
      assert img[..n] == img[..n - 1] + [img[n - 1]];
      assert ref[..n] == ref[..n - 1] + [ref[n - 1]];
      if img[..n] == ref[..n] {
        assert img[..n - 1] == img[..n][..n - 1];
        assert ref[..n - 1] == ref[..n][..n - 1];
        assert img[n - 1] == img[..n][n - 1];
      }
    }
  }

  /** With a non-zero pixel count, the mean squared error of equally long
      buffers is 0 exactly when the buffers are equal. */
  lemma MseZero(img: seq<int>, w: u32, h: u32, ref: seq<int>)
    requires |img| == |ref| && PixelCount(w, h) != 0
    ensures MeanSquaredError(img, w, h, ref) == Value(0.0) <==> img == ref
  {
    SquaredErrorZero(img, ref, |img|);
    assert img[..|img|] == img && ref[..|ref|] == ref;
  }

  /** Each squared difference is symmetric, so the sum is. */
  lemma {:induction false} SquaredErrorSymmetric(img: seq<int>, ref: seq<int>, n: nat)
    requires n <= |img| && n <= |ref|
    ensures SquaredError(img, ref, n) == SquaredError(ref, img, n)
  {
    if n > 0 {
      SquaredErrorSymmetric(img, ref, n - 1);
      assert SquaredDifference(img[n - 1], ref[n - 1]) == SquaredDifference(ref[n - 1], img[n - 1]);
    }
  }

  /** Swapping the image and the reference gives the same result. */
  lemma MseSymmetric(img: seq<int>, w: u32, h: u32, ref: seq<int>)
    ensures MeanSquaredError(img, w, h, ref) == MeanSquaredError(ref, w, h, img)
  {
    if |img| == |ref| {
      SquaredErrorSymmetric(img, ref, |img|);
    }
  }
}
