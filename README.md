# Region growing and Toeplitz expansion, in Dafny

This project models two pieces of the `imaging_fundamentals` repository and proves
properties about them.

**Seeded region growing** (`segmentation/region_growing/region_growing.py`).
- `generate_initial_seed_image` builds a one-pixel 0/1 seed mask.
- `grow_region` grows the seed by repeated passes. Each pass:
  - writes an overlay frame of the mask it starts from;
  - dilates the mask with a 3x3 all-ones kernel;
  - takes the mean and standard deviation of the image over the dilated support;
  - accepts every pixel within `num_sigma` standard deviations of the mean;
  - keeps the accepted dilated cells.
- The loop stops at the first pass that reproduces the mask it started from.

The model spreads over five modules:

| module | contents |
|---|---|
| `Grids` | grids of exact reals and their maxima |
| `Dilation` | dilation as a maximum over the in-bounds 3x3 window |
| `Homogeneity` | support statistics and the acceptance test |
| `FrameRenderer` | the three-channel overlay buffer, an `array3` updated in place |
| `RegionGrowing` | the seed, one pass, the run specification and the loop |

The run specification `Run` is stated for any pass function that is defined on a set of masks and keeps the set closed. The loop method `Grow` is proved against it: its outcome is the run's outcome, and its ghost frame log is the sequence `(t, overlay of mask t)` over the masks the run starts its passes from. Each iteration of its loop is the method `GrowPass`, which records the frame and runs one pass. `GrowRegion` instantiates `Grow` with the grower's own pass.

**Toeplitz / convolution-matrix expansion** (`toeplitz_from_vector` in `src/imaging_fundamentals.py`), in the module `Toeplitz`.
- The reference definition `ToeplitzMatrix` reads the two vectors and raises the source's errors. It conforms the vectors to the requested dimensions and expands them into the matrix whose cell (i, j) is `row[i-j]` on and below the diagonal and `col[j-i]` above it.
- The method `ToeplitzFromVector` follows the source step by step: it reassigns the vectors while truncating or padding them, then fills a zero `array2` column by column. It is proved equal to the reference definition.
- The lemmas state the matrix's shape, cells, diagonals, borders, errors, convolution mode and symmetry.

The element type is generic. The value numpy's zero padding writes is the parameter `zero`.

## Model

| member | source | states |
|---|---|---|
| Grids.GridMax | segmentation/region_growing/region_growing.py:115 | the grid maximum (numpy's `max`) bounds every cell and is attained by one |
| Grids.SeqMax | segmentation/region_growing/region_growing.py:115 | the maximum of a nonempty row bounds every entry and is one of them |
| Grids.BinaryMax | segmentation/region_growing/region_growing.py:83-84 | a 0/1 mask has maximum 1 when some cell is set and 0 when it is empty, so `aux / aux.max()` divides by 1 or is skipped |
| Dilation.Dilate | segmentation/region_growing/region_growing.py:101-104 | dilation keeps the shape of the mask |
| Dilation.RowWindowMaxIsMaximum | segmentation/region_growing/region_growing.py:101-104 | within a row, the window value bounds the in-bounds neighbours j-1, j, j+1 and equals one of them |
| Dilation.WindowMaxIsMaximum | segmentation/region_growing/region_growing.py:101-104 | a dilated cell bounds every in-bounds cell of its 3x3 window and equals one of them; out-of-bounds neighbours contribute nothing |
| Dilation.DilateExtensive | segmentation/region_growing/region_growing.py:101-104 | no cell decreases under dilation, so the dilation contains its input |
| Dilation.DilateBinary | segmentation/region_growing/region_growing.py:101-104 | a 0/1 mask dilates to a 0/1 mask whose cell is 1 exactly when some in-bounds cell of its 3x3 window is 1 |
| Dilation.DilateEmptyIff | segmentation/region_growing/region_growing.py:101-106 | a 0/1 mask dilates to the empty mask exactly when it is empty |
| Homogeneity.AcceptMask | segmentation/region_growing/region_growing.py:111-112 | the acceptance mask has the image's shape |
| Homogeneity.AcceptMaskCells | segmentation/region_growing/region_growing.py:111-112 | the acceptance mask is 0/1 and is 1 exactly at the pixels passing the test |
| Homogeneity.WithinSigmaMatchesStd | segmentation/region_growing/region_growing.py:109-111 | for the standard deviation s (s >= 0, s*s = variance), the square-root-free test is exactly `abs(x - mu) <= num_sigma * s`, for every sign of `num_sigma` |
| Homogeneity.CountPositiveIff | segmentation/region_growing/region_growing.py:106-108 | the support `output_image != 0` has pixels exactly when some cell is nonzero |
| Homogeneity.MeanWithinSupport | segmentation/region_growing/region_growing.py:108 | the mean over a nonempty support lies between its smallest and its largest pixel, both attained inside the support |
| Homogeneity.StatisticsDependOnlyOnSupport | segmentation/region_growing/region_growing.py:106-109 | mean and variance depend only on the image values inside the support |
| Homogeneity.Variance | segmentation/region_growing/region_growing.py:109 | the variance over a nonempty support is never negative, so the standard deviation exists |
| Homogeneity.VariancePositiveIff | segmentation/region_growing/region_growing.py:108-109 | the variance is positive exactly when some support pixel differs from the mean |
| Homogeneity.WithinSigma | segmentation/region_growing/region_growing.py:111 | for a nonnegative variance the mean itself passes exactly when `num_sigma >= 0` or the variance is 0, and with a negative `num_sigma` only the mean can pass |
| Homogeneity.SomePixelWithinOneSigma | segmentation/region_growing/region_growing.py:108-109 | some support pixel lies within one standard deviation of the mean |
| Homogeneity.WithinOneSigmaPasses | segmentation/region_growing/region_growing.py:111 | a pixel within one standard deviation passes the test of every width `num_sigma >= 1` |
| Homogeneity.SomePixelAccepted | segmentation/region_growing/region_growing.py:106-111 | with `num_sigma >= 1`, some pixel of a nonempty support is accepted |
| FrameRenderer.RegionChannel | segmentation/region_growing/region_growing.py:81-87 | channel 2 has the image's shape |
| FrameRenderer.Overlay | segmentation/region_growing/region_growing.py:73-87 | a frame has the image's rows and columns |
| FrameRenderer.OverlayOfBinaryMask | segmentation/region_growing/region_growing.py:81-87 | for a 0/1 mask, channels 0 and 1 of a frame are the image and channel 2 is `max(mask, image)` |
| FrameRenderer.FillChannel | segmentation/region_growing/region_growing.py:75-76 | writing channel c sets exactly that channel to the given values and leaves the other channels as they were |
| FrameRenderer.NewOverlayBuffer | segmentation/region_growing/region_growing.py:73-76 | the new buffer is fresh, has the image's shape and holds the image in channels 0, 1 and 2 |
| FrameRenderer.ShowsOverlay | segmentation/region_growing/region_growing.py:81-87 | a buffer holding the image in channels 0 and 1 and the region channel of the mask in channel 2 is exactly the overlay of the mask |
| FrameRenderer.PaintRegion | segmentation/region_growing/region_growing.py:86-87 | after channel 2 is overwritten with `max(aux, image)`, where `aux` is the mask divided by its maximum when that maximum is nonzero and the mask itself otherwise (lines 83-84), channels 0 and 1 still hold the image and the buffer holds exactly the overlay of the mask |
| RegionGrowing.PyIndex | segmentation/region_growing/region_growing.py:49 | an index is in range exactly when `-n <= k < n`; a negative index counts from the end |
| RegionGrowing.InitialSeedImage | segmentation/region_growing/region_growing.py:46-51 | succeeds exactly when both coordinates are in range; then the seed has the image's shape, is 0/1 and nonempty, and is 1 exactly at the coordinate |
| RegionGrowing.Normalise | segmentation/region_growing/region_growing.py:115 | dividing by the maximum keeps the shape |
| RegionGrowing.Product | segmentation/region_growing/region_growing.py:117 | the cell-wise product keeps the shape |
| RegionGrowing.Keep | segmentation/region_growing/region_growing.py:111-117 | the kept mask is a 0/1 mask of the image's shape |
| RegionGrowing.Pass | segmentation/region_growing/region_growing.py:101-117 | a successful pass returns a 0/1 mask of the image's shape, so the mask stays binary |
| RegionGrowing.NormaliseByOne | segmentation/region_growing/region_growing.py:115 | dividing a grid by 1 leaves it unchanged |
| RegionGrowing.NormalisedDilation | segmentation/region_growing/region_growing.py:101-115 | the dilation of a nonempty mask is a nonempty 0/1 mask with maximum 1, so the division at line 115 leaves it unchanged |
| RegionGrowing.KeepCells | segmentation/region_growing/region_growing.py:106-117 | a kept cell is 1 exactly where the dilation is 1 and the pixel passes the test against the support's mean and variance; the kept mask lies within the dilation |
| RegionGrowing.PassFailsIffEmpty | segmentation/region_growing/region_growing.py:101-109 | a pass has no support to take statistics over exactly when its starting mask is empty |
| RegionGrowing.PassCells | segmentation/region_growing/region_growing.py:101-117 | for a nonempty mask, the next mask is the elementwise product of the dilation and the acceptance mask, cell by cell, and lies within the dilation |
| RegionGrowing.PassKeepsRegion | segmentation/region_growing/region_growing.py:106-117 | with `num_sigma >= 1`, a pass from a nonempty mask returns a nonempty mask |
| RegionGrowing.GrowthPassClosed | segmentation/region_growing/region_growing.py:101-117 | the grower's pass is defined on every compatible mask and returns a compatible mask |
| RegionGrowing.Run | segmentation/region_growing/region_growing.py:78-124 | a run starts its first pass from its seed, starts at most `fuel` passes, and every mask it starts from is valid |
| RegionGrowing.RunChain | segmentation/region_growing/region_growing.py:79-120 | each mask a run starts a pass from is the result of the previous pass and differs from that pass's starting mask |
| RegionGrowing.RunConverged | segmentation/region_growing/region_growing.py:119-124 | a run converges exactly when the pass reproduces the last mask a pass started from; the returned mask is that mask, and the pass count equals the number of frames |
| RegionGrowing.RunVanished | segmentation/region_growing/region_growing.py:106-109 | a run ends with RegionVanished exactly when the pass over its last mask fails; the reported pass number, counted from 0, is that pass |
| RegionGrowing.RunLimit | segmentation/region_growing/region_growing.py:78-122 | a run that reaches the pass limit has started exactly `fuel` passes |
| RegionGrowing.FixedPointConvergesAtOnce | segmentation/region_growing/region_growing.py:119-120 | a seed that the pass reproduces converges after one pass and one frame |
| RegionGrowing.RunNeverVanishes | segmentation/region_growing/region_growing.py:106-120 | a run whose pass keeps some property of the mask and always succeeds on masks with it never ends with RegionVanished |
| RegionGrowing.GrowthNeverVanishes | segmentation/region_growing/region_growing.py:106-120 | with `num_sigma >= 1` and a nonempty seed, a run of the grower never reaches an empty support |
| RegionGrowing.FirstPassEmpties | segmentation/region_growing/region_growing.py:101-117 | on the image [0, 1] with seed [1, 0] and `num_sigma = 0`, the first pass returns the empty mask |
| RegionGrowing.RegionCanVanish | segmentation/region_growing/region_growing.py:106-120 | on that input, the second pass starts from the empty mask and has no support |
| RegionGrowing.VanishingRun | segmentation/region_growing/region_growing.py:106-120 | on that input, the modelled run stops at its second pass with RegionVanished after two frames |
| RegionGrowing.RunStep | segmentation/region_growing/region_growing.py:79-122 | one pass ends the run with RegionVanished when it fails, with Converged when it reproduces its mask, and otherwise the run continues as the run from the new mask with one fewer pass allowed |
| RegionGrowing.RecordFrame | segmentation/region_growing/region_growing.py:81-99 | painting a mask appends the frame numbered by the pass counter `k` (the number of frames already written) to the log; channels 0 and 1 keep the image and channel 2 is `max(aux, image)` cell by cell, where `aux` is the mask divided by its maximum when that maximum is nonzero and the mask itself otherwise, so the buffer is the overlay of that mask |
| RegionGrowing.FilmFrames | segmentation/region_growing/region_growing.py:96-99 | spelling out the frame log's definition: the frame log of masks m_0 .. m_(n-1) is numbered 0 .. n-1 without gaps, and frame t is the overlay of m_t |
| RegionGrowing.GrowPass | segmentation/region_growing/region_growing.py:79-122 | one iteration of the loop records the frame of its mask, leaving channels 0 and 1 as the image and channel 2 as the region channel of the mask, and runs the pass; the run then ends with RegionVanished or Converged exactly as the specification says, or the remaining run is the run from the new mask |
| RegionGrowing.Grow | segmentation/region_growing/region_growing.py:58-124 | the loop's outcome is the run's outcome, and its frames are numbered 0, 1, 2, ... without gaps; frame t is the overlay of the mask pass t starts from |
| RegionGrowing.GrowRegion | segmentation/region_growing/region_growing.py:58-124 | `grow_region` with the grower's pass and `num_sigma` defaulting to 3: the pass is closed on compatible masks, the outcome and frames are those of the run from the seed, and the frames are numbered 0, 1, 2, ... without gaps (`frame_{k:04d}`) |
| Toeplitz.PrefixLength | src/imaging_fundamentals.py:150-153 | `len(v[:n])` is n when 0 <= n <= len, len when n > len, and len + n (at least 0) when n is negative |
| Toeplitz.Conform | src/imaging_fundamentals.py:150-166 | a conformed vector has the conformed length and holds the original entry, or zero past the end |
| Toeplitz.EffectiveColumn | src/imaging_fundamentals.py:108-127 | in convolution mode the column is row[0] followed by zeros, as long as the row; otherwise it is the given column, or the row itself when none is given |
| Toeplitz.Vectors | src/imaging_fundamentals.py:95-137 | when reading succeeds, the row is nonempty and the column is the given one, the row itself, or the convolution column |
| Toeplitz.Entry | src/imaging_fundamentals.py:179-187 | the first column of the expansion is the row vector and the first row, after cell (0, 0), is the column vector |
| Toeplitz.ToeplitzMatrix | src/imaging_fundamentals.py:95-187 | the expansion fails exactly when reading the vectors fails, and with the same error |
| Toeplitz.Expand | src/imaging_fundamentals.py:173-187 | the expansion has `len(row_vec)` rows of `len(col_vec)` cells |
| Toeplitz.FillToeplitz | src/imaging_fundamentals.py:173-187 | the column-by-column fill returns a fresh `len(row_vec)` x `len(col_vec)` array whose cells are exactly the expansion, even when it has no rows |
| Toeplitz.ToeplitzFromVector | src/imaging_fundamentals.py:95-193 | the method fails exactly when the reference definition does, with the same error; otherwise it returns a fresh array of the shape ToeplitzDims whose cells are the reference definition's |
| Toeplitz.ToeplitzErrors | src/imaging_fundamentals.py:108-137 | failure happens exactly on an empty row vector, or outside convolution mode on a given column that is empty or differs from the row at index 0; the mismatch error is raised exactly in the last case; equality on elements is reflexive, so a NaN at index 0 is not a mismatch here |
| Toeplitz.ToeplitzDims | src/imaging_fundamentals.py:144-166 | without `dims` the shape is (len(row), length of the effective column); with `dims` each side is the requested size when that is not negative and the length of the `[:n]` prefix when it is |
| Toeplitz.ToeplitzShape | src/imaging_fundamentals.py:144-187 | the expanded matrix has ToeplitzDims' row count and every row has its column count |
| Toeplitz.ToeplitzCells | src/imaging_fundamentals.py:179-187 | cell (i, j) is `row[i-j]` when i >= j and `col[j-i]` otherwise, zero past the vectors' ends |
| Toeplitz.ToeplitzDiagonalConstant | src/imaging_fundamentals.py:63-84 | cells on the same diagonal (same i - j) are equal |
| Toeplitz.ToeplitzBorders | src/imaging_fundamentals.py:179-187 | the first column is the conformed row vector and the first row the conformed column vector |
| Toeplitz.ConvolutionLowerTriangular | src/imaging_fundamentals.py:108-112 | in convolution mode every cell strictly above the diagonal is zero |
| Toeplitz.ConvolutionIgnoresColumn | src/imaging_fundamentals.py:55-58 | in convolution mode the column argument does not change the result |
| Toeplitz.ToeplitzSymmetric | src/imaging_fundamentals.py:114-117 | without a column vector and outside convolution mode, `T[i][j] == T[j][i]` wherever both cells exist |

## Left out

- `main.py` is not part of this model. It covers argument parsing, file checks, image loading, Gaussian noise, windows and the event loop.
- `plant_seed` (`segmentation/region_growing/region_growing.py:16-36`) is a mouse callback that sets a global and draws a circle. The seed coordinates are a parameter of `InitialSeedImage` instead.
- Frame output: `cv2.normalize` and `cv2.imwrite` (lines 89-99) are not modelled.
  - `cv2.normalize` with `NORM_MINMAX`, `alpha=255` and `beta=0` rescales the whole three-channel buffer so that its minimum becomes 0 and its maximum 255 (a constant buffer becomes all 0). A recorded frame is the overlay before this rescale.
  - `cv2.imwrite` converts to 8 bits, which rounds, and writes a file.
  - A frame is recorded as the pair `(k, overlay)` in a ghost sequence.
  - The file name `frame_{k:04d}.png` is represented by `k` alone.
- Numbers: pixel values are exact reals.
  - Floating-point rounding and the `uint8`/`float32` casts (lines 69, 112, 114, 124) are not modelled.
  - The standard deviation is never formed. The test is stated through the variance, and `WithinSigmaMatchesStd` relates it to any square root.
- RegionGrowing.Grow: the unbounded `while 1` (line 78) becomes at most `maxPasses` passes. A run that reaches the bound ends with `PassLimitReached`, so the model says nothing about whether the source loop terminates.
- RegionGrowing.Pass: an empty dilated support fails with `EmptySupport` and the run ends with `RegionVanished`. The source instead computes NaN statistics at lines 108-109 and keeps looping (see Findings).
- RegionGrowing.GrowRegion: requires a nonempty rectangular image and a 0/1 seed of the same shape.
  - On an empty image the source raises `ValueError` at line 83, because `aux.max()` of a zero-size array has no value. The model leaves that error path out.
  - The source casts any seed with `astype(uint8)` (line 69), which is not modelled.
  - Its only producer is `generate_initial_seed_image`, which returns such a seed.
- RegionGrowing.InitialSeedImage: requires a rectangular grid and integer coordinates. Coordinates of another type or arity are not modelled.
- Toeplitz.ToeplitzFromVector: several source details are outside the model.
  - Element types are generic. The dtype choice and the promotion to `float64` (lines 96, 102, 109, 115, 168-171) are not modelled.
  - The sparse output `coo_array` (lines 189-191) is not modelled.
  - The `TypeError` dispatch on argument types (lines 95-106, 118-131) is not modelled. Both vectors are sequences, and the column vector is optional.
  - `dims` is a pair of integers. A `dims` of another arity is not modelled.
- Toeplitz.ToeplitzFromVector: the list/tuple branch for `input_col_vec` reads `col_vec` at line 119 before assigning it. Outside convolution mode the source therefore fails on every list or tuple column, with an unbound-local error. In convolution mode the column argument is ignored (lines 108-112) and the call succeeds. The model takes the column as a ready sequence, as in the `ndarray` branch.
- Toeplitz.ToeplitzErrors: equality on the element type `T` is reflexive, so numpy's NaN comparison at line 133 is not modelled. Outside convolution mode the source raises `ValueError` when entry 0 of the row is NaN, even without a column, because line 117 makes the column the row and `nan != nan` holds. It fails the same way on a given column whose entry 0 is NaN. The model reports no error in these cases, so its "exactly" holds only for reflexive element values.
- Toeplitz.ToeplitzShape: the docstring (lines 44-46) calls the matrix square when `dims` is absent. The code builds a `len(row_vec)` x `len(col_vec)` matrix, and the model follows the code.
- Toeplitz.ToeplitzShape: a matrix as a sequence of rows with no rows has no column count, so the lemma states the column count row by row. The array returned by `ToeplitzFromVector` carries both sides as `Length0` and `Length1`.

## Findings

| source | as written | input that shows it | evidently intended | confidence | as-written member | corrected member |
|---|---|---|---|---|---|---|
| segmentation/region_growing/region_growing.py:106-120 | with `num_sigma < 1` a pass can reject every pixel of its support. The mask becomes empty, the next pass takes the mean and deviation of no pixels (NaN), and the stopping test can never hold | image `[[0, 1]]`, seed at (0, 0), `num_sigma = 0` (accepted by the `-num_sigma` option): the first pass has mean 1/2 and variance 1/4 and accepts neither pixel | growth ends once the region has vanished | medium; not executed | RegionGrowing.RegionCanVanish | RegionGrowing.VanishingRun |
