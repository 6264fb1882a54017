# Perona-Malik restoration and inpainting step

This project models `scripts/restr_methods/Perona_Malik.py`: one explicit step of
Perona-Malik anisotropic diffusion on a grey-level image, and the variants built on it.

- `generate_kern` returns a bank of eight 3x3 first-difference kernels. Each has -1 at the
  centre and +1 at one off-centre cell.
- `Perona_Malik(im, dd, delta, kappa)` does the following:
  - convolves the image with every kernel (scipy's `ndimage.filters.convolve`, default
    `'reflect'` boundary);
  - weights each gradient `n` by the rational edge-stopping coefficient
    `g(n) = 1 / (1 + (n / kappa)^2)`;
  - adds `delta` times the sum of the eight fluxes `g(n) * n` to the image.
- `impaint_Perona_Malik(im, mask)` computes the same correction with `delta = 0.1` and
  `kappa = 15`. It allocates a zero array and copies the correction into it at the masked
  coordinates, in the row-major order of `np.where`. It returns the image plus that array.
- `generate_neighb_matrix(coordinate, image)` reads the 3x3 neighbourhood of an interior
  pixel into a matrix laid out transposed.

Modules:

| file | module | contents |
|---|---|---|
| `grids.dfy` | `Grids` | images as `seq<seq<real>>`; scipy's `'reflect'` index mapping; `Sample` |
| `kernels.dfy` | `Kernels` | the kernel bank and the counting lemmas about its entries |
| `gradients.dfy` | `Gradients` | 3x3 convolution with the kernel flip; neighbour differences |
| `edge_stop.dfy` | `EdgeStop` | the coefficient `g`, the flux `g(n) * n` and their monotonicity and decay |
| `diffusion.dfy` | `Diffusion` | `Perona_Malik` on whole images; fixed points; the maximum principle |
| `inpaint.dfy` | `Inpaint` | `impaint_Perona_Malik` as a method over a fresh `array2<real>` |
| `neighbourhood.dfy` | `Neighbourhood` | `generate_neighb_matrix` |

Conventions:

- Images are modelled with exact real arithmetic.
- A pixel outside the image is read through scipy's `'reflect'` rule. A 3x3 kernel reaches
  only one step past each edge, so this repeats the edge pixel.
- `convolve` flips its kernel. The kernel whose +1 sits above the centre therefore yields the
  difference towards the pixel BELOW, and likewise for every direction.
  - Kernel `i` of the bank differences towards the neighbour opposite its +1 cell, not towards
    the +1 cell itself. The model follows the code (`Gradients.ConvolveDifferenceKernel`).
  - The bank holds each direction together with its opposite, so the step as a whole still
    sums over all eight neighbours once each (`Diffusion.BankFluxIsNeighbourhoodFlux`).

## Model

| member | source | states |
|---|---|---|
| Kernels.GenerateKernels | scripts/restr_methods/Perona_Malik.py:110-143 | eight kernels; kernel `i` is 3x3 with -1 at the centre, +1 exactly at cell `PlusCells[i]` and 0 elsewhere |
| Kernels.DifferenceKernelEntries | scripts/restr_methods/Perona_Malik.py:117-141 | a difference kernel has exactly one +1, one -1 (the centre) and seven zeros, so its entries sum to 0 |
| Kernels.KernelBankEntries | scripts/restr_methods/Perona_Malik.py:117-141 | every kernel of the bank is 3x3 with -1 at the centre, one +1, seven zeros and entry sum 0 |
| Kernels.KernelBankCoversNeighbourhood | scripts/restr_methods/Perona_Malik.py:117-141 | every off-centre cell holds the +1 of some kernel, and no two kernels share that cell |
| Grids.Reflect | scripts/restr_methods/Perona_Malik.py:20 | scipy's `'reflect'` index mapping for indices up to one image length past either edge: in range it is the identity, below 0 it mirrors to `-i - 1`, past the end to `2n - i - 1`, and the result is always a valid index |
| Grids.Sample | scripts/restr_methods/Perona_Malik.py:20 | the pixel `convolve` reads at (r, c) under the `'reflect'` boundary; inside the image it is `im[r][c]` |
| Grids.ReflectIsClamp | scripts/restr_methods/Perona_Malik.py:20 | one step past an edge, the default `'reflect'` boundary reads the edge pixel itself |
| Gradients.Convolve | scripts/restr_methods/Perona_Malik.py:20 | the convolved image has the input's shape, and each pixel is the flipped-kernel sum of its nine taps |
| Gradients.ConvolveDifferenceKernel | scripts/restr_methods/Perona_Malik.py:20 | convolving with the kernel whose +1 is at (u, v) gives, at every pixel including the border, the neighbour at offset (1-u, 1-v) minus the centre |
| Gradients.BankGradient | scripts/restr_methods/Perona_Malik.py:19-20 | `nab[i]` at (r, c) is the difference towards the neighbour opposite kernel i's +1 cell |
| Gradients.ConstantDifference | scripts/restr_methods/Perona_Malik.py:20 | on a constant image every directional difference is 0, at the border as well |
| Diffusion.PixelGradients | scripts/restr_methods/Perona_Malik.py:19-20 | `nab[i][r][c]` for the eight kernels: eight values, the image convolved with kernel `i` at (r, c); their meaning is proved by PixelGradientsAreDifferences |
| Diffusion.PixelGradientsAreDifferences | scripts/restr_methods/Perona_Malik.py:19-20 | the eight gradients at a pixel, in bank order, are its neighbour differences at offsets (1-u, 1-v) |
| EdgeStop.EdgeStop | scripts/restr_methods/Perona_Malik.py:21 | the coefficient `1 / (1 + (n / kappa) ** 2)` of line 21 (and line 100); its range and its `g == 1` exactly at `n == 0` are proved by EdgeStopRange |
| EdgeStop.RatioRange | scripts/restr_methods/Perona_Malik.py:21 | `(n/kappa)^2` is non-negative and is 0 exactly when n is 0 |
| EdgeStop.EdgeStopRange | scripts/restr_methods/Perona_Malik.py:10-21 | `g = 1/(1 + (n/kappa)^2)` lies in (0, 1], and `g == 1` exactly when the gradient is 0 |
| EdgeStop.EdgeStopDecreasing | scripts/restr_methods/Perona_Malik.py:21 | `g` depends only on \|n\| and does not increase as \|n\| grows; it strictly decreases when \|n\| strictly grows |
| EdgeStop.RatioMonotone | scripts/restr_methods/Perona_Malik.py:21 | `(n/kappa)^2` grows with \|n\|, strictly when \|n\| does |
| EdgeStop.EdgeStopDecay | scripts/restr_methods/Perona_Malik.py:21 | for n != 0, `g(n) < (kappa/n)^2`, so `g` tends to 0 as \|n\| grows |
| EdgeStop.FluxRange | scripts/restr_methods/Perona_Malik.py:21-22 | the flux `g(n) * n` has the sign of n, is 0 exactly when n is 0, and is never larger in magnitude than n |
| EdgeStop.Flux | scripts/restr_methods/Perona_Malik.py:22 | the flux `gpm1[i] * nab[i]` of line 22 (and line 101); its sign, zero set and magnitude bound are proved by FluxRange |
| Diffusion.FluxSum | scripts/restr_methods/Perona_Malik.py:23 | Python's `sum(res)` (line 23, and line 102): the fluxes added to 0 from left to right; unrolled for eight gradients by FluxSumEight |
| Diffusion.FluxSumEight | scripts/restr_methods/Perona_Malik.py:22-23 | `sum(res)` over eight gradients is the eight fluxes added left to right |
| Diffusion.FluxSumOfZeros | scripts/restr_methods/Perona_Malik.py:22-23 | if every gradient is 0, `sum(res)` is 0 |
| Diffusion.FluxSumBetween | scripts/restr_methods/Perona_Malik.py:22-23 | if every gradient lies in [a, b] with a <= 0 <= b, then `sum(res)` lies between \|ns\| copies of a and \|ns\| copies of b |
| Diffusion.BankReordersNeighbours | scripts/restr_methods/Perona_Malik.py:19-20 | the eight gradients at a pixel are the eight neighbour differences, each exactly once, in the bank's order |
| Diffusion.BankFluxIsNeighbourhoodFlux | scripts/restr_methods/Perona_Malik.py:19-23 | `sum(res)` at a pixel, taken in bank order, equals the fluxes towards all eight neighbours, each counted once |
| Diffusion.Correction | scripts/restr_methods/Perona_Malik.py:99-102 | `delta * sum(res)` is an array of the image's shape |
| Diffusion.CorrectionAt | scripts/restr_methods/Perona_Malik.py:99-102 | the correction at (r, c) is delta times the eight fluxes at that pixel, summed in bank order |
| Diffusion.PeronaMalik | scripts/restr_methods/Perona_Malik.py:5-25 | the new image has the input's shape |
| Diffusion.PeronaMalikAt | scripts/restr_methods/Perona_Malik.py:19-25 | each new pixel is the old one plus delta times the fluxes `g(n) * n` of its eight gradients |
| Diffusion.PeronaMalikIgnoresDd | scripts/restr_methods/Perona_Malik.py:5-25 | the result does not depend on `dd` |
| Diffusion.ConstantImageNoFlux | scripts/restr_methods/Perona_Malik.py:20-23 | on a constant image all eight gradients at every pixel are 0, and so is their flux sum |
| Diffusion.ConstantImageIsFixed | scripts/restr_methods/Perona_Malik.py:5-25 | a constant image is returned unchanged for every delta, kappa and dd |
| Diffusion.StepBetween | scripts/restr_methods/Perona_Malik.py:23 | a value in [lo, hi] moved by at most 1/8 of a sum that lies between 8 (lo - x) and 8 (hi - x) stays in [lo, hi] |
| Diffusion.PixelGradientsBetween | scripts/restr_methods/Perona_Malik.py:19-20 | in an image bounded by [lo, hi], every gradient at a pixel lies between lo and hi minus that pixel |
| Diffusion.MaximumPrinciplePixel | scripts/restr_methods/Perona_Malik.py:19-25 | if 0 <= delta <= 1/8 and the image lies in [lo, hi], each new pixel also lies in [lo, hi] |
| Diffusion.MaximumPrinciple | scripts/restr_methods/Perona_Malik.py:19-25 | if 0 <= delta <= 1/8, the step creates no new extrema: the whole new image stays within any range that holds the old one |
| Inpaint.MaskPoints | scripts/restr_methods/Perona_Malik.py:95 | `np.where(mask)` lists exactly the in-bounds coordinates where the mask is true, each once, in strictly increasing row-major order |
| Inpaint.AddAtMask | scripts/restr_methods/Perona_Malik.py:93-107 | starting from zeros and copying `res` at each mask point, `im + im_new` equals `im + res` at masked pixels and `im` elsewhere |
| Inpaint.InpaintPeronaMalik | scripts/restr_methods/Perona_Malik.py:84-108 | unmasked pixels are unchanged; masked pixels get the value `Perona_Malik(im, dd, 0.1, 15)` gives them |
| Inpaint.InpaintAllMasked | scripts/restr_methods/Perona_Malik.py:84-108 | with an all-true mask the inpainting step equals `Perona_Malik` with delta 0.1 and kappa 15 |
| Neighbourhood.NeighbMatrix | scripts/restr_methods/Perona_Malik.py:51-81 | for an interior coordinate, a 3x3 matrix with `M[i][j] = image[r + j - 1][c + i - 1]`, the pixel itself at the centre |
| Neighbourhood.NeighbMatrixIsTransposedWindow | scripts/restr_methods/Perona_Malik.py:71-81 | the matrix is the transpose of the image's row-major 3x3 window |
| Neighbourhood.InteriorDifferenceReadsNeighbourhood | scripts/restr_methods/Perona_Malik.py:71-81 | at an interior pixel, the difference towards offset (dr, dc) used by the diffusion step is entry (1+dc, 1+dr) of the matrix minus its centre |
| Neighbourhood.NeighbMatrixExample | scripts/restr_methods/Perona_Malik.py:71-81 | on the 5x5 image `5*row + col`, the matrix at (2, 2) is `[[6, 11, 16], [7, 12, 17], [8, 13, 18]]` |

## Left out

- `Perona_Malik_2` (lines 28-49) uses the exponential coefficient `exp(-(n/kappa)^2)`. The exponential has no exact real-arithmetic definition here, and only the rational coefficient is modelled.
- Floating point: pixels are exact reals. Rounding, overflow to infinity and the order-dependent error of `sum` are not modelled, although the fold order of `sum` is kept (`FluxSum`).
- dtype rules: `convolve` returns an array of the input's dtype. An integer image (for example `uint8`) would have its negative differences truncated or wrapped. The model assumes a floating-point image.
- Only the default `'reflect'` boundary of `convolve` is modelled, and only for 3x3 kernels.
- `kappa == 0` divides by zero in the source (a non-finite result). Every member requires `kappa != 0`.
- `Diffusion.PeronaMalik`: `dd` is accepted and never read. The model keeps it as an unused real parameter.
- `mask.astype(np.bool)` (line 94): the mask is taken as an already boolean grid of the image's shape. Truthiness conversion of numeric masks is not modelled. The `np.bool` alias raises `AttributeError` on NumPy 1.24-1.26; NumPy 2.0 and later reintroduced `np.bool` as the boolean scalar type.
- `Inpaint.InpaintPeronaMalik`: the correction is computed by the pure `Diffusion.Correction` and then written into a fresh `array2<real>` by `Inpaint.AddAtMask`. The index enumeration of `enumerate` is not modelled, since the loop never reads it.
- `Neighbourhood.NeighbMatrix` requires an interior coordinate. At the border, Python's negative indices wrap to the opposite edge and an index of `H` or `W` raises `IndexError`. Neither behaviour is modelled, because the function is documented as not working for border points.
- The scripts that call these functions, load and save images, and iterate the step are not part of this model.
