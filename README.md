# Richardson–Lucy deblurring, modelled in Dafny

This project models the core of a small C++ image deblurring program.

The program decodes a blurry RGBA PNG and drops the alpha samples. It
unflattens the remaining samples into a height x width x 3 grid of doubles.
Then it runs a fixed number of Richardson–Lucy iterations against a 5 x 5
Gaussian point-spread function (PSF). Each iteration does four things:
- blur the estimate with the PSF;
- divide the observed image by the blur, with a saturating divide;
- back-project the ratio through the PSF rotated by 180 degrees;
- multiply the estimate by the result.

Finally the program flattens the estimate back to RGBA with an opaque alpha,
and compares images by their mean squared error.

Modules, one per part of the program:

- `Grids`: image grids. The nested vectors `grid[row][column][channel]` are
  an `array3<real>` where the code writes in place. Specifications talk about
  the array's value, a `Grid`, through the ghost function `Cells`. `Copy` is
  the copy constructor of the nested vectors.
- `Sums`: row-major double sums `Sum2`/`RowSum` over a function of
  (row, column), with their algebra. This is the order of the source's
  nested loops.
- `Elementwise`: `_divide`, `elementWiseMul` and `elementWiseDiv`. These
  check the shapes, report a mismatch as an `Outcome` in place of
  `exit(-1)`, and write through the out-parameter `c`, which may alias `a`
  or `b`.
- `Convolution`: `convolve`, as a method over arrays, proved against the
  value-level convolution `Conv`. `Conv` also has the identity-kernel,
  zero-kernel and non-negativity lemmas.
- `Psf`: `calculatePSF`, as four loop-nest methods:
  - the raw weights and their sum;
  - normalisation in place;
  - the split into three channels;
  - the 180-degree rotation into `psf_hat`.

  It also proves the mass of each channel and that the rotation is an
  involution.
- `RichardsonLucy`: the iteration loop of `main`, as a method over a fixed
  observed grid, proved equal to `Iterate`, the n-fold `Step`. It keeps the
  H x W x 3 shape and keeps the estimate non-negative.
- `Reshape`: `convert2D`, the two-pass unflattening in `main`, `convert1D`
  and the alpha-stripping loops, with their index correspondences.
- `Metrics`: `_mse`. The squared differences are summed three samples at a
  time, and the sum is divided by the unsigned 32-bit pixel count
  `img_w * img_h`.

Arithmetic on doubles is exact `real` arithmetic here. The integer samples of
`_mse` are `int`.

The code departs from the usual Richardson–Lucy setup in three ways, and the
model follows the code:

- **PSF centre.** The usual kernel is centred on its middle cell. Here the
  Gaussian is centred at `(0.0, 0.0)`, which is `mean_row`/`mean_col`
  (src/cpu/deblur.cpp:32-33), the kernel's top-left cell.
- **Channel weights.** The usual kernel has unit mass in each channel. Here
  each of the three channels carries a third of the normalised weight, so
  each channel of the PSF sums to 1/3 (`Psf.PsfMass`). All channels together
  sum to 1.
- **Kernel size.** The usual setup takes odd-sized kernels centred on their
  middle cell. Here nothing rejects even-sized kernels: `convolve` takes any
  kernel and uses `size / 2` as its centre.

## Model

| member | source | states |
|---|---|---|
| Elementwise.Divide | src/cpu/deblur.cpp:23-28 | a zero denominator gives the numerator back; otherwise the result times the denominator is the numerator; non-negative operands give a non-negative result |
| Elementwise.DivideCancels | src/cpu/deblur.cpp:23-28 | `_divide(a * b, b) == a` whenever `b != 0` |
| Elementwise.Mul | src/cpu/deblur.cpp:137-145 | the pointwise product has its operands' shape |
| Elementwise.Div | src/cpu/deblur.cpp:156-162 | the pointwise saturating quotient has its operands' shape |
| Elementwise.MulNonNegative | src/cpu/deblur.cpp:137-145 | the product of non-negative grids is non-negative |
| Elementwise.DivNonNegative | src/cpu/deblur.cpp:156-162 | the saturating quotient of non-negative grids is non-negative |
| Elementwise.DivOfMul | src/cpu/deblur.cpp:23-28 | dividing a pointwise product by `b` gives `a` back where `b` is non-zero and 0 where it is zero |
| Elementwise.ElementWiseMul | src/cpu/deblur.cpp:129-146 | on different heights, widths or channel counts, it reports both shapes and leaves `c` untouched; otherwise `c` holds the pointwise product of the operands' values on entry; `a` and `b` are unchanged unless they are `c` |
| Elementwise.MultiplyPixel | src/cpu/deblur.cpp:139-143 | every channel of pixel (i, j) receives the product and no other cell changes |
| Elementwise.ElementWiseDiv | src/cpu/deblur.cpp:148-163 | on a shape mismatch, it reports both shapes and leaves `c` untouched; otherwise channels 0-2 of every pixel of `c` hold the saturating quotient, other channels are unchanged, and for RGB grids `c` is `Div` of the values on entry |
| Elementwise.DividePixel | src/cpu/deblur.cpp:158-160 | channels 0-2 of pixel (i, j) receive the saturating quotient and no other cell changes |
| Convolution.Conv | src/cpu/deblur.cpp:165-192 | the convolution has the source's height and width and 3 channels per pixel |
| Convolution.ConvIdentity | src/cpu/deblur.cpp:168-185 | a kernel that is 1 at its centre cell and 0 elsewhere returns the grid unchanged |
| Convolution.ConvZeroKernel | src/cpu/deblur.cpp:173-190 | an all-zero kernel gives an all-zero grid |
| Convolution.ConvNonNegative | src/cpu/deblur.cpp:180-186 | a non-negative grid and a non-negative kernel give a non-negative convolution |
| Convolution.Convolve | src/cpu/deblur.cpp:165-192 | returns a fresh H x W x 3 array; each output cell is the sum over kernel cells (m, n) of the in-range source values at (i + m - cy, j + n - cx), and out-of-range neighbours add 0 |
| Convolution.AccumulatePixel | src/cpu/deblur.cpp:175-188 | the two kernel loops add every tap of pixel (i, j) to its three channels and leave every other pixel alone |
| Convolution.AccumulateRow | src/cpu/deblur.cpp:176-187 | the inner kernel loop adds the taps of kernel row m to pixel (i, j) and leaves every other pixel alone |
| Convolution.AddTap | src/cpu/deblur.cpp:180-186 | one kernel cell adds its tap to the three channels of pixel (i, j), or nothing when the source index is out of range |
| Psf.Gaussian | src/cpu/deblur.cpp:45 | the Gaussian weight of cell (row, col), centred at (0, 0) with sigmas 49 and 36, `exp` a parameter and `pow(x, 2)` as `x * x`: its value at cell (0, 0) is `exp(0) / (2 pi 49 36)`, its exponent is largest at (0, 0), and negating the row or the column keeps the weight |
| Psf.ExponentPeak | src/cpu/deblur.cpp:45 | the Gaussian's exponent is 0 at (0, 0) and at most 0 at every other cell |
| Psf.GaussianPeak | src/cpu/deblur.cpp:45 | with a non-decreasing `exp`, no Gaussian weight exceeds the weight at (0, 0) |
| Psf.GaussianPositive | src/cpu/deblur.cpp:45 | with a strictly positive exponential, every Gaussian weight of the kernel is positive |
| Psf.RawTotal | src/cpu/deblur.cpp:43-49 | the accumulated `sum` of positive raw weights is positive, so normalising never divides by zero |
| Psf.NormWeight | src/cpu/deblur.cpp:51-55 | every normalised weight is positive |
| Psf.NormWeightsSumToOne | src/cpu/deblur.cpp:43-55 | the normalised weights sum to 1 over the 5 x 5 kernel |
| Psf.PsfGrid | src/cpu/deblur.cpp:57-64 | the PSF is 5 x 5 with 3 channels per cell |
| Psf.PsfChannelMass | src/cpu/deblur.cpp:57-64 | each channel of the PSF sums to 1/3 |
| Psf.PsfMass | src/cpu/deblur.cpp:57-64 | all three channels sum to 1/3 each and to 1 together |
| Psf.PsfPositive | src/cpu/deblur.cpp:57-64 | every PSF cell is positive in every channel, so the PSF is non-negative |
| Psf.Flip | src/cpu/deblur.cpp:66-74 | the rotation has the kernel's height and width |
| Psf.FlipFlip | src/cpu/deblur.cpp:66-74 | rotating twice gives the kernel back |
| Psf.FlipNonNegative | src/cpu/deblur.cpp:66-74 | the rotation of a non-negative kernel is non-negative |
| Psf.CalculatePsf | src/cpu/deblur.cpp:30-77 | returns fresh 5 x 5 x 3 arrays: `psf` holds a third of the normalised weight in each channel, and `psf_hat[4 - r][4 - c][k] == psf[r][c][k]` |
| Psf.RawWeights | src/cpu/deblur.cpp:43-49 | `psf_init` holds the raw weights and `sum` is their row-major total |
| Psf.RawRow | src/cpu/deblur.cpp:44-48 | one row of raw weights is written and added to `sum`; other rows are unchanged |
| Psf.Normalise | src/cpu/deblur.cpp:51-55 | every cell is divided by `sum` in place |
| Psf.SplitChannels | src/cpu/deblur.cpp:57-64 | each of the three channels of every cell is the normalised weight divided by 3 |
| Psf.Rotate | src/cpu/deblur.cpp:66-74 | `psf_hat[x][y][k] == psf[4 - x][4 - y][k]` for every cell and channel |
| Grids.Copy | src/cpu/deblur.cpp:233 | the copy is a fresh array with the same shape and values |
| RichardsonLucy.Step | src/cpu/deblur.cpp:230-235 | one update keeps the H x W x 3 image shape, and with non-negative data and kernels keeps the estimate non-negative |
| RichardsonLucy.Iterate | src/cpu/deblur.cpp:229-236 | every iterate has the observed image's shape, and every iterate is non-negative when the observed image and both kernels are |
| RichardsonLucy.Deconvolve | src/cpu/deblur.cpp:222-236 | `latent_est` ends as the `iterations`-th iterate, keeps the observed shape, equals the observed grid when `iterations <= 0`, and is non-negative for non-negative data |
| RichardsonLucy.Iteration | src/cpu/deblur.cpp:230-235 | one pass of the loop body (convolve, divide, copy, convolve, multiply) turns the n-th iterate into iterate n + 1 in `latent_est`, keeps the H x W x 3 shape of every buffer, and leaves the observed image unchanged |
| Reshape.Convert2D | src/cpu/deblur.cpp:111-127 | a buffer of at most w * h samples gives h rows of w cells; cell (row, col) holds sample row * w + col, or 0.0 past the end |
| Reshape.ZeroRows | src/cpu/deblur.cpp:113-117 | the resize gives h rows of w zeros |
| Reshape.FilledStep | src/cpu/deblur.cpp:119-124 | writing sample i into cell (i / w, i % w) places exactly that sample and moves nothing else |
| Reshape.UnflattenIndex | src/cpu/deblur.cpp:119-124 | every sample i of the buffer is found at `[i / w][i % w]` |
| Reshape.ToImage | src/cpu/deblur.cpp:214-220 | the two convert2D passes give an h x w x 3 image whose channel k of pixel (i, j) is sample (i * w + j) * 3 + k |
| Reshape.RowSamples | src/cpu/deblur.cpp:218-220 | splitting a row of the first pass into pixels of 3 samples finds each sample at its pixel and channel |
| Reshape.WithoutAlpha | src/cpu/deblur.cpp:90-94 | stripping never lengthens the buffer |
| Reshape.StripAlpha | src/cpu/deblur.cpp:90-94 | the loop keeps exactly the samples whose index is not 3 modulo 4, in order (also the copy at lines 249-253) |
| Reshape.WithoutAlphaLayout | src/cpu/deblur.cpp:90-94 | stripping keeps `n - n / 4` samples, and sample t (t not 3 modulo 4) moves to `t - t / 4` |
| Reshape.KeptSample | src/cpu/deblur.cpp:90-94 | for whole RGBA pixels, channel c of pixel p moves from index 4p + c to 3p + c |
| Reshape.DecodedSamples | src/cpu/deblur.cpp:88-97 | decodePNG's double buffer holds channel k of RGBA pixel p at 3p + k |
| Reshape.Convert1D | src/cpu/deblur.cpp:100-109 | appends the RGBA samples of every pixel, row by row, to the given buffer |
| Reshape.ConvertRow | src/cpu/deblur.cpp:102-107 | one row appends four samples per pixel |
| Reshape.RgbaRow | src/cpu/deblur.cpp:102-107 | n pixels of a row give 4n samples |
| Reshape.RgbaRows | src/cpu/deblur.cpp:100-109 | n rows give 4 * n * width samples |
| Reshape.RgbaRowLayout | src/cpu/deblur.cpp:103-106 | sample 4j + c of a row is channel c of pixel j, and sample 4j + 3 is 255 |
| Reshape.RgbaLayout | src/cpu/deblur.cpp:100-109 | sample (i * w + j) * 4 + c is channel c of pixel (i, j) for c < 3, and every index 3 modulo 4 holds 255 |
| Reshape.StripRgba | src/cpu/deblur.cpp:249-253 | stripping convert1D's output leaves 3 samples per pixel, with channel c of pixel (i, j) at (i * w + j) * 3 + c |
| Metrics.SquaredDifference | dep/metrics/metrics.cpp:38-40 | a squared difference is non-negative, and zero exactly when the samples are equal |
| Metrics.SquaredError | dep/metrics/metrics.cpp:27-44 | the accumulated squared error is non-negative |
| Metrics.PixelCount | dep/metrics/metrics.cpp:46 | `img_w * img_h` is the true pixel count when it fits in 32 bits, and wraps around modulo 2^32 otherwise |
| Metrics.WrappedPixelCount | dep/metrics/metrics.cpp:46 | a 65536 x 65536 image has a wrapped pixel count of 0, so `_mse` of two equally long buffers of that size divides by zero (`NoPixels`) |
| Metrics.MeanSquaredError | dep/metrics/metrics.cpp:19-47 | the result is a size mismatch exactly when the lengths differ; a computed mean squared error is non-negative |
| Metrics.Mse | dep/metrics/metrics.cpp:19-47 | different lengths abort before anything is computed; otherwise the loop's three-at-a-time accumulation is the sum of the squared differences of all samples, each counted once, divided by the 32-bit pixel count |
| Metrics.SquaredErrorZero | dep/metrics/metrics.cpp:38-43 | the summed squared error is zero exactly when the samples agree |
| Metrics.MseZero | dep/metrics/metrics.cpp:38-46 | with a non-zero pixel count, the error is 0 exactly when the buffers are equal |
| Metrics.SquaredErrorSymmetric | dep/metrics/metrics.cpp:38-43 | swapping image and reference leaves the summed squared error unchanged |
| Metrics.MseSymmetric | dep/metrics/metrics.cpp:19-47 | `_mse` is symmetric in the image and the reference |

## Left out

- PNG decoding and encoding through lodepng, the `std::cerr` reports, and the
  command-line parsing with `atoi` are foreign code and I/O. The iteration
  count, the decoded samples and the image size are parameters.
- `exit(-1)` on a shape mismatch is the `ShapeMismatch` outcome. On a size
  mismatch it is `SizeMismatch`.
- The `std::chrono` timing, src/gpu/gpu_time.h and the metric printing in
  `main` only measure and report.
- dep/metrics/metrics.h holds declarations only.
- `psnr` takes `log10` of a floating ratio. It is not part of this model;
  it shares `_mse`'s size-mismatch abort.
- Psf.CalculatePsf: the Gaussian's `exp`/`pow` formula is not evaluated. The
  method takes any raw-weight function that is positive on the kernel.
  `Psf.Gaussian` writes the formula with `exp` as a parameter, and
  `Psf.GaussianPositive` shows it qualifies.
- Reshape.Convert1D: `round` and the narrowing to `unsigned char` are a
  parameter `quantize`. Only the positions of the samples and the alpha
  value are modelled.
- IEEE double rounding is not modelled, because all arithmetic is exact.
  - `_mse` accumulates exactly in `int`. A double is exact on these integer
    sums only up to 2^53.
  - `_divide` compares with exact zero.
  - There are no convergence or tolerance claims.
- The source does not compile as written:
  - line 166 of `convolve` is truncated;
  - `convolve` uses the undeclared `cols`, `m` and `n`, and increments the
    wrong loop variables;
  - `pi` is used for `PI`;
  - `main` has typos: `h_blurry`, `Blurry_h`, `est1D)without_alpha`,
    `blury_w` for `blurry_w` (line 205), a missing `;` (line 197) and a
    missing `=` (line 237).

  The model follows the evident intent: the output starts at 0.0 with 3
  channels, `m`/`n` range over the kernel's rows and columns, and `columns`
  is the source width.
- Grids are rectangular arrays, so a ragged nested vector is not
  representable. The shape checks of elementWiseMul/elementWiseDiv read
  `a[0]` and `a[0][0]`, which is undefined on an empty grid; the array's
  dimensions are always defined.
- Elementwise.ElementWiseMul and Elementwise.ElementWiseDiv require `c` to
  have exactly `a`'s shape when the shapes of `a` and `b` agree. The code
  needs `c` only to have at least `a`'s rows and columns, and at least
  `a`'s channels (elementWiseMul) or 3 channels (elementWiseDiv).
- Elementwise.ElementWiseDiv and Convolution.Convolve require at least 3
  channels per pixel, because the code indexes channels 0-2 directly.
- Psf.CalculatePsf returns a fresh `psf_hat`. The code resizes the caller's
  vector in place, and `main` passes an empty one.
- Reshape.ToImage and Reshape.Convert2D compute `w * 3` and the row-major
  indices with unbounded integers. The code computes them in `unsigned`
  arithmetic, which wraps for images with 2^32 / 3 or more columns.
- RichardsonLucy.Deconvolve: no scale-invariance claim is made or proved.
  Rescaling both kernels by a factor does not in general give the same
  iterates, because the saturating divide returns the observed value where
  the blur is 0, and that value does not scale with the kernels.
- Metrics.Mse: a pixel count that wraps around to 0 gives `NoPixels`. The
  code divides `sq_err` by 0.0 there, which is +inf or NaN in double
  arithmetic.
