/** The Richardson-Lucy deconvolution loop of the deblurring program (main
    in src/cpu/deblur.cpp): starting from the observed image, each
    iteration blurs the current estimate with the PSF, divides the observed
    image by that blur, back-projects the ratio through the rotated PSF and
    multiplies the estimate by the result. */
module RichardsonLucy {
  import opened Grids
  import opened Elementwise
  import opened Convolution

  /** The observed image and both kernels are non-negative. */
  predicate NonNegativeData(observed: Grid, psf: Grid, psfHat: Grid)
  {
    NonNegative(observed) && NonNegative(psf) && NonNegative(psfHat)
  }

  /** One iteration: est * conv(observed / conv(est, psf), psfHat). It keeps
      the image's shape, and with non-negative data and kernels it keeps the
      estimate non-negative: the blur, the saturating ratio, the
      back-projection and the product each keep the sign. */
  function Step(observed: Grid, psf: Grid, psfHat: Grid, est: Grid): (r: Grid)
    requires SameImage(observed, est)
    ensures SameImage(r, est)
    ensures NonNegativeData(observed, psf, psfHat) && NonNegative(est) ==> NonNegative(r)
  {
    var blurred := Conv(est, psf);
    SameImageShape(observed, blurred);
    var ratio := Div(observed, blurred);
    var correction := Conv(ratio, psfHat);
    SameImageShape(est, correction);
    if NonNegativeData(observed, psf, psfHat) && NonNegative(est) then
      ConvNonNegative(est, psf);
      DivNonNegative(observed, blurred);
      ConvNonNegative(ratio, psfHat);
      MulNonNegative(est, correction);
      Mul(est, correction)
    else
      Mul(est, correction)
  }

  /** The estimate after n iterations; the first estimate is the observed
      image itself. Every estimate has the observed image's shape, and with
      non-negative data and kernels every estimate is non-negative. */
  function Iterate(observed: Grid, psf: Grid, psfHat: Grid, n: nat): (r: Grid)
    requires Rgb(observed)
    ensures SameImage(r, observed)
    ensures NonNegativeData(observed, psf, psfHat) ==> NonNegative(r)
  {
    if n == 0 then observed else Step(observed, psf, psfHat, Iterate(observed, psf, psfHat, n - 1))
  }

  /** The deconvolution loop: latent_est starts as a copy of the observed
      image and relative_blur as an all-zero image of the same size; each
      iteration convolves, divides, copies the estimate and multiplies back
      into it. A negative iteration count runs no iteration. The shape
      checks of the element-wise operations always pass here. */
  method Deconvolve(observed: array3<real>, psf: array3<real>, psfHat: array3<real>, iterations: int)
    returns (latent: array3<real>)
    requires observed.Length2 == 3
    requires 0 < psf.Length0 && 0 < psf.Length1 ==> 3 <= psf.Length2
    requires 0 < psfHat.Length0 && 0 < psfHat.Length1 ==> 3 <= psfHat.Length2
    ensures fresh(latent) && ShapeOf(latent) == ShapeOf(observed)
    ensures Cells(latent) == Iterate(Cells(observed), Cells(psf), Cells(psfHat), Rounds(iterations))
    ensures iterations <= 0 ==> Cells(latent) == Cells(observed)
    ensures NonNegativeData(Cells(observed), Cells(psf), Cells(psfHat)) ==> NonNegative(Cells(latent))
  {
    latent := Copy(observed);
    var relativeBlur := new real[observed.Length0, observed.Length1, 3]((_, _, _) => 0.0);
    var rounds := Rounds(iterations);
    for i := 0 to rounds
      invariant fresh(latent) && fresh(relativeBlur)
      invariant After(observed, psf, psfHat, latent, relativeBlur, i)
    {
      Iteration(observed, psf, psfHat, latent, relativeBlur, i);
    }
  }

  /** The number of iterations `for (int i = 0; i < iterations; i++)` runs. */
  function Rounds(iterations: int): (n: nat)
    ensures iterations <= 0 ==> n == 0
    ensures 0 <= iterations ==> n == iterations
  {
    if iterations < 0 then 0 else iterations
  }

  /** The buffers of the deconvolution loop after n iterations: the
      estimate and the ratio buffer have the observed image's shape, are
      distinct from each other and from the inputs, and the estimate holds
      the n-th iterate. */
  ghost predicate After(observed: array3<real>, psf: array3<real>, psfHat: array3<real>,
                        latent: array3<real>, relativeBlur: array3<real>, n: nat)
    reads observed, psf, psfHat, latent
  {
    observed.Length2 == 3 &&
    (0 < psf.Length0 && 0 < psf.Length1 ==> 3 <= psf.Length2) &&
    (0 < psfHat.Length0 && 0 < psfHat.Length1 ==> 3 <= psfHat.Length2) &&
    ShapeOf(latent) == ShapeOf(relativeBlur) == ShapeOf(observed) &&
    latent != relativeBlur && latent !in {observed, psf, psfHat} && relativeBlur !in {observed, psf, psfHat} &&
    Rgb(Cells(observed)) &&
    Cells(latent) == Iterate(Cells(observed), Cells(psf), Cells(psfHat), n)
  }

  /** The body of the deconvolution loop: est_conv := convolve(latent_est,
      psf); relative_blur := observed / est_conv; temp := a copy of
      latent_est; error_est := convolve(relative_blur, psf_hat);
      latent_est := temp * error_est. */
  method Iteration(observed: array3<real>, psf: array3<real>, psfHat: array3<real>,
                   latent: array3<real>, relativeBlur: array3<real>, ghost n: nat)
    requires After(observed, psf, psfHat, latent, relativeBlur, n)
    modifies latent, relativeBlur
    ensures After(observed, psf, psfHat, latent, relativeBlur, n + 1)
  {
    ghost var obs, k, kHat, est := Cells(observed), Cells(psf), Cells(psfHat), Cells(latent);
    var estConv := Convolve(latent, psf);
    var divided := ElementWiseDiv(observed, estConv, relativeBlur);
    assert divided == Ok;
    ghost var ratio := Cells(relativeBlur);
    assert ratio == Div(obs, Conv(est, k));
    var temp := Copy(latent);
    var errorEst := Convolve(relativeBlur, psfHat);
    assert Cells(errorEst) == Conv(ratio, kHat);
    var multiplied := ElementWiseMul(temp, errorEst, latent);
    assert multiplied == Ok;
    assert Cells(latent) == Step(obs, k, kHat, est);
    assert Cells(observed) == obs && Cells(psf) == k && Cells(psfHat) == kHat;
  }
}
