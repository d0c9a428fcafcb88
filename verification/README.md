# Laplacian-pyramid image blending, modelled in Dafny

This project models the multi-resolution blending core of `imblend.py`. A
source image and a target image are composited through a soft mask. Each
image is decomposed into a Laplacian pyramid, and the levels are blended with
the mask's Gaussian pyramid as per-sample weight. The blended pyramid is then
collapsed back into one image and clipped to [0, 1].

Images are single-channel grids `seq<seq<real>>` (module `Grid`). Samples are
exact reals, so the kernel literals are exact and reconstruction inverts
decomposition exactly. The modules follow the pipeline:

- `Kernel`: the fixed 5×5 `guassianFilter`, its outer-product form, its symmetry and its unit sum.
- `Convolution`: `convolve2d(·, K, 'same')` with zero fill, written out as the 25-tap sum.
- `Sampling`: `convolveAndDownsample` (blur, then `[::2, ::2]`) and `upsample` (even-coordinate spreading, blur, ×4). Because the kernel is the outer product of w = [0.05, 0.25, 0.4, 0.25, 0.05], upsampling is shown to be separable interpolation with weights 2·w at the taps that meet even coordinates.
- `Pyramid`: `buildGuassianPyramid`, `buildLaplacianPyramid`, and `reconstructImageFromPyramid` as a pure recursive collapse and as a loop in the source's order.
- `Blend`: `imBlend` as written, the variant that keeps the residual level, and `dummyPlace`.

A grid with no rows has no columns here (`Cols` is 0). The shape laws still
hold, because ⌈0/2⌉ = 0 and 2·0 = 0.

## Model

| member | source | states |
|---|---|---|
| `Grid.CropTo` | imblend.py:50 | the crop `Gi[:r, :c]` has the shape of `like` and agrees with `img` on that top-left region |
| `Kernel.KernelIsOuterProduct` | imblend.py:10-14 | every entry K[p][q] is w[p]·w[q] for w = [0.05, 0.25, 0.4, 0.25, 0.05] |
| `Kernel.KernelSymmetric` | imblend.py:10-14 | K[p][q] = K[4-p][q] = K[p][4-q] = K[q][p] for all 25 entries |
| `Kernel.KernelSumIsOne` | imblend.py:10-14 | the 25 weights sum to exactly 1 |
| `Convolution.Convolve` | imblend.py:23 | the "same" convolution keeps the input's shape, row by row |
| `Convolution.ConvolveIsCorrelation` | imblend.py:23 | each output sample of the true (flipped) convolution equals the unflipped window sum Σ K[a+2][b+2]·img[i+a][j+b] with zero fill |
| `Convolution.ConvolveConstantInterior` | imblend.py:23 | at least two samples in from every edge, blurring a constant grid returns the constant |
| `Convolution.ConvolveZeros` | imblend.py:23 | blurring the zero grid gives the zero grid |
| `Convolution.ConvolveZeroGrid` | imblend.py:23 | blurring an all-zeros image gives an all-zeros image of the same shape |
| `Sampling.EveryOther` | imblend.py:24 | `s[::2]` has ⌈n/2⌉ elements, and element k is s[2k] |
| `Sampling.Downsample` | imblend.py:17-24 | an R×C grid becomes ⌈R/2⌉×⌈C/2⌉, output [r][c] is blurred input [2r][2c], and the result is non-empty when R, C ≥ 1 |
| `Sampling.SpreadRow` | imblend.py:65-66 | writing a row into every second slot of a zero row gives length 2n, with row[x/2] at even x and 0 at odd x |
| `Sampling.Interleave` | imblend.py:63-68 | the pre-blur grid is exactly 2R×2C, with img[r][c] at (2r, 2c) and 0 at every other position |
| `Sampling.Upsample` | imblend.py:57-71 | an R×C grid upsamples to exactly 2R×2C |
| `Sampling.UpsampleInterpolates` | imblend.py:63-71 | every upsampled sample is a separable interpolation of the coarse grid (zero outside it): along each axis an even position 2c weighs coarse samples c-1, c, c+1 by 0.1, 0.8, 0.1, and an odd position 2c+1 averages c and c+1 |
| `Sampling.UpsampleConstantInterior` | imblend.py:57-71 | away from the border, upsampling a constant grid gives the constant |
| `Sampling.DownsampleConstantInterior` | imblend.py:17-24 | away from the border, downsampling a constant grid gives the constant |
| `Sampling.UpsampleZeros` | imblend.py:57-71 | upsampling a zero grid gives the zero grid of twice the size |
| `Sampling.UpsampleCoversDownsample` | imblend.py:47-50 | upsampling a downsampled grid gives between R and R+1 rows, and between C and C+1 columns |
| `Pyramid.GaussianPyramid` | imblend.py:27-37 | `size + 1` levels, level 0 is the input unchanged, and every further level is the downsampled previous one |
| `Pyramid.GaussianDimensionLaw` | imblend.py:27-37 | level k of an R×C input is ⌈R/2^k⌉×⌈C/2^k⌉, and with R, C ≥ 1 no level is ever empty |
| `Pyramid.GaussianZeroLevels` | imblend.py:27-37 | every level of the Gaussian pyramid of an all-zeros image is all zeros |
| `Pyramid.GaussianChained` | imblend.py:46-50 | every Gaussian level fits inside the upsampled next level, so the crop `Gi[:r, :c]` is in bounds |
| `Pyramid.GaussianSameShapes` | imblend.py:96-102 | equal-shaped inputs give Gaussian and Laplacian pyramids whose levels agree in shape |
| `Pyramid.Detail` | imblend.py:47-50 | level G[i] fits inside the upsampled G[i+1], so the crop `Gi[:r, :c]` is in bounds, and the detail level has the shape of G[i] |
| `Pyramid.LaplacianPyramid` | imblend.py:40-54 | same length as the input, each level has the shape of the Gaussian level, the last level is the Gaussian residual, and every other level is G[i] minus the cropped upsampled G[i+1] |
| `Pyramid.Accumulate` | imblend.py:81-82 | adding the upsampled coarser level, cropped to the finer level, keeps the finer level's shape |
| `Pyramid.DetailAccumulate` | imblend.py:47-50 | the update of imblend.py:82 undoes the subtraction of imblend.py:50: adding the cropped upsampled G[i+1] back to detail level i gives G[i] exactly |
| `Pyramid.Collapse` | imblend.py:80-84 | collapsing a chained pyramid from the coarsest level gives an image with the shape of level 0 |
| `Pyramid.ReconstructImageFromPyramid` | imblend.py:75-84 | the in-place loop from the coarsest level down to level 1 returns the recursive collapse, shaped like level 0, and returns a one-level pyramid unchanged |
| `Pyramid.ReconstructLaplacian` | imblend.py:40-84 | collapsing the Laplacian pyramid of any chained pyramid gives back level 0 exactly, and a one-level pyramid is its own Laplacian pyramid |
| `Pyramid.ReconstructGaussianLaplacian` | imblend.py:27-84 | for every depth, Gaussian pyramid, then Laplacian pyramid, then collapse returns the original image |
| `Pyramid.CollapseDropsResidual` | imblend.py:80-84 | collapsing a pyramid without its coarsest level equals collapsing it with that level replaced by zeros |
| `Blend.ClipSample` | imblend.py:111 | `np.clip(x, 0, 1)` lies in [0, 1], equals x exactly when x is in range, and saturates below 0 and above 1 |
| `Blend.Clip` | imblend.py:111 | the clipped grid keeps its shape, every sample is in [0, 1], and each sample is the clipped input sample |
| `Blend.ClipIdentity` | imblend.py:111 | clipping leaves a grid unchanged if and only if all its samples are already in [0, 1] |
| `Blend.BlendLevel` | imblend.py:106-108 | the per-level blend of three equal-shaped grids keeps their shape, and each sample is m·s + (1−m)·t |
| `Blend.BlendSame` | imblend.py:108 | blending a level with itself gives it back, whatever the mask |
| `Blend.BlendExtremes` | imblend.py:108 | an all-ones mask selects the source level, and an all-zeros mask selects the target level |
| `Blend.BlendedLevels` | imblend.py:95-109 | `size + 1` levels, where level i weighs the source's Laplacian level i against the target's, using the mask's Gaussian level i, and all three have the same shape |
| `Blend.ImBlend` | imblend.py:87-111 | fails exactly when `size <= 0` (no blended level 0 to return); otherwise the result has the shape of `src` and every sample is in [0, 1] |
| `Blend.ImBlendDropsResidual` | imblend.py:104-111 | the output of `imBlend` is the clipped collapse of all blended levels with the residual level set to zero |
| `Blend.ImBlendWithResidual` | imblend.py:104-111 | blending all `size + 1` levels gives a result with the shape of `src` and samples in [0, 1] |
| `Blend.ImBlendWithResidualSameInputs` | imblend.py:95-111 | with the residual kept, blending an image with itself returns the clipped image at every depth, and exactly the image when it is in range |
| `Blend.BlendZeroMask` | imblend.py:108 | where every mask sample is 0, `m*s + (1.-m)*t` is the target level `t` |
| `Blend.ImBlendWithResidualZeroMask` | imblend.py:95-111 | with the residual kept, an all-zeros mask returns the clipped target at every depth, and exactly the target when it is in range |
| `Blend.ImBlendZeroMask` | imblend.py:104-111 | `imBlend` itself, for size > 0 and an all-zeros mask, returns the clipped collapse of the target's Laplacian pyramid with its residual level zeroed, which in general differs from the target |
| `Blend.ImBlendZeroMaskExample` | imblend.py:104-111 | with an all-zeros mask, the white target [[1.0]] at depth 1 comes back from `imBlend` as [[0.8976]] for every source [[a]] |
| `Blend.ImBlendWithResidualDepthZero` | imblend.py:95-111 | with the residual kept, depth 0 is the clipped direct blend m·s + (1−m)·t |
| `Blend.ImBlendResidualExample` | imblend.py:105 | for src = mask = target = [[1.0]] at size 1, `imBlend` returns [[0.8976]], while the blend that keeps the residual returns [[1.0]] |
| `Blend.ImBlendExample` | imblend.py:104-111 | for src = mask = target = [[1.0]] at size 1, `imBlend` collapses only the finest blended level, [[0.8976]], and returns it |
| `Blend.ExampleGaussian` | imblend.py:27-37 | the depth-1 Gaussian pyramid of a one-sample image [[a]] is [[a]], [[0.16·a]] |
| `Blend.ExampleUpsample` | imblend.py:57-71 | upsampling a one-sample grid [[v]] gives 0.64·v at the corner |
| `Blend.ExampleLaplacian` | imblend.py:40-54 | the depth-1 Laplacian pyramid of [[a]] is [[0.8976·a]], [[0.16·a]] |
| `Blend.CollapseSingle` | imblend.py:75-84 | collapsing the two one-sample levels [[x]], [[y]] gives [[x + 0.64·y]] |
| `Blend.ImBlendWithResidualSingle` | imblend.py:95-111 | for one-sample inputs a (source), m (mask) and t (target) at depth 1, the blend with the residual is the clipped (m·0.8976a + (1−m)·0.8976t) + 0.64·(0.16m·0.16a + (1−0.16m)·0.16t) |
| `Blend.ImBlendAllOnesMaskExample` | imblend.py:95-111 | an all-ones mask does not reproduce the source even with the residual kept: the source [[a]] blended into the black target [[0.0]] at depth 1 comes back as the clipped 0.913984·a, so [[1.0]] gives [[0.913984]] |
| `Blend.DummyPlace` | imblend.py:113-115 | the result has the shape of the inputs, with src[i][j] where mask[i][j] > 0.5 and target[i][j] elsewhere |
| `Blend.Threshold` | imblend.py:114 | `np.where(mask > 0.5, 1, 0)` is a 0/1 grid of the mask's shape, and it is 1 exactly where the mask exceeds 0.5 |
| `Blend.DummyPlaceIsHardBlend` | imblend.py:113-115 | the hard selection is the weighted blend with the thresholded mask, and for a 0/1 mask it is the weighted blend with the mask itself |

## Left out

- viscomp.py is not part of this model. It is image file I/O, the /255 normalisation, uint8 conversion, argument parsing, per-channel splitting and stacking, and writing `dummy.png`; none of it is part of the algorithm.
- Floating point: samples are exact reals. IEEE rounding and non-finite values are not modelled, so the round trip is exact here.
- scipy and numpy internals beyond zero-filled "same" convolution are left out. Other `convolve2d` boundary modes are never used.
- The unused `filtered` blur at imblend.py:62 is left out, since its result is discarded. The second fill loop at imblend.py:67-68 writes the same samples as the first, so `Sampling.Interleave` describes the grid once.
- In-place `+=` and aliasing in `reconstructImageFromPyramid` (imblend.py:82) are not modelled. `Pyramid.ReconstructImageFromPyramid` keeps one accumulator `acc`, which holds the updated `pyramid[i]`, and it never changes the input sequence. In the source, the caller's list is overwritten level by level.
- `imBlend` does not check shapes. numpy's arithmetic at imblend.py:108 raises `ValueError` for most mismatches and broadcasts an axis of length 1; `np.where` at imblend.py:115 does the same. Neither is modelled: equal shapes of source, mask and target are a precondition (`Blend.BlendInputs`, and `Blend.DummyPlace` requires the same).
- No depth limit is checked, in the code or in the model. Dimensions bottom out at 1 (`Pyramid.GaussianDimensionLaw`).
- numpy broadcasting of mismatched shapes (a 1-row or 1-column operand) is not modelled. `Pyramid.LaplacianPyramid` and `Pyramid.Collapse` require every level to fit in the upsampled next level (`Pyramid.Chained`), which always holds for Gaussian pyramids.
- A negative depth passed to `buildGuassianPyramid` is not modelled: `Pyramid.GaussianPyramid` takes a `nat`. `Blend.ImBlend` takes any integer and fails for every `size <= 0`, as the source does.
- No lemma says that an all-ones mask returns the source, because that is false, even with the residual kept. Under zero fill the blur of an all-ones mask falls below 1 wherever the 5×5 window leaves the grid, so its coarser levels are not all ones near the border. For a one-sample mask the window always leaves the grid: level 1 is [[0.16]]. `Blend.ImBlendAllOnesMaskExample` proves that `ImBlendWithResidual([[1.0]], [[1.0]], [[0.0]], 1)` is `[[0.913984]]`. What does hold in general is the other extreme and the diagonal: with the residual kept, an all-zeros mask returns the target (`Blend.ImBlendWithResidualZeroMask`, since the blur of zeros stays zero), and an image blended with itself is returned (`Blend.ImBlendWithResidualSameInputs`). `imBlend` as written drops the residual level (`Blend.ImBlendDropsResidual`, `Blend.ImBlendZeroMask`), so in general it returns neither: `Blend.ImBlendZeroMaskExample` gives [[0.8976]] for the target [[1.0]] under a zero mask, and `Blend.ImBlendResidualExample` gives [[0.8976]] for [[1.0]] blended with itself.
- Depth 0 and the dropped residual level: see ## Findings.

## Findings

| source | as written | input that shows it | evidently intended | confidence | as-written member | corrected member |
|---|---|---|---|---|---|---|
| imblend.py:105 | `for i in range(size)` blends only levels 0..size-1, so the coarsest (residual) level never reaches the reconstruction | src = mask = target = [[1.0]], size = 1: the output is [[0.8976]] instead of [[1.0]] | blend all `size + 1` levels (`range(size + 1)`), so that blending an image with itself returns it at every depth | not executed | `Blend.ImBlend`, shown by `Blend.ImBlendResidualExample` and characterised by `Blend.ImBlendDropsResidual` | `Blend.ImBlendWithResidual`, with `Blend.ImBlendWithResidualSameInputs` proved |
| imblend.py:105 | with `size == 0` no level is blended, and `pyramid[0]` at imblend.py:84 indexes an empty list | any inputs with size = 0 | depth 0 blends the single level directly, giving m·s + (1−m)·t clipped | not executed | `Blend.ImBlend` (its contract: failure exactly when `size <= 0`) | `Blend.ImBlendWithResidual`, with `Blend.ImBlendWithResidualDepthZero` proved |
