# Korpuskulum membrane-side evaluation, modelled in Dafny

Korpuskulum places picked particles relative to a segmented membrane in a
cryo-electron tomogram. The volume is a stack of Z slices. For every slice
that holds both membrane and particles, the tool does three things:

- It finds the membrane pixels nearest each particle.
- It records the scaled displacement from that pixel to the particle.
- It labels the particle's side of the membrane. The label is the sign of
  the displacement projected on a normal, and the normal comes from a
  straight-line fit of the membrane pixels.

`main` then keeps the particles within a distance range and writes two
coordinate files: side 1 and side 0.

This project models that computation:

- **`get_distribution`** (korpuskulum/eval.py) is the module `Eval`. The
  method `Eval.GetDistribution` keeps the source's loop. It is proved
  against the specification function `Eval.Distribution` through a loop
  invariant. The pure per-slice pieces are functions: membrane mask,
  particle filter, first nearest pixel, normal, side label.
- **The line fit** is the module `MaskFit`. It holds the closed-form
  least-squares slope of column against row.
- **`load_coords`** (korpuskulum/io.py) is the module `CoordIO`: the axis
  permutation and the column reordering.
- **The computations in `main`** (korpuskulum/main.py) are the module
  `Pipeline`:
  - `unique_rows`, whose lexsort order, sort and deduplication are in the
    module `RowOrder`;
  - the choice of slices to evaluate;
  - the concatenation of the per-slice results;
  - the side split and the distance-range filter;
  - the column order of the saved files;
  - the whole computation for one (membrane, coordinate file) pair.
- **The selections that decide what `plotting.py` draws** are the module
  `Plotting`: the Rice-rule bin count, the polar criterion and the side
  I / side O masks. `Pipeline.PlotAndSplit` uses them to decide when a
  plot raises, which stops `main` before the side files are written.

Types:

- Integers are unbounded.
- Pixel sizes, fit slopes and distances are `real`.
- A membrane volume is `seq<seq<seq<int>>>`, indexed by Z, then row, then
  column.
- A particle is `Coord(z, x, y)`, the (Z, X, Y) row that `load_coords`
  produces.
- A membrane pixel is `Pixel(row, col)`.

Where Python raises, the model returns `None` or `Failure`.

np.polyfit, pairwise_distances and np.linalg.norm are floating-point
library calls, so the model treats them as follows:

- **The slope** used by `Eval` is a parameter `fit` that maps a mask to a
  real. `MaskFit.LeastSquaresSlope` gives the closed form that np.polyfit
  computes, and `Pipeline.StraightMembraneLabels` ties it to the side
  labels.
- **A fit that raises.** When every pixel of a mask lies in row 0, the x
  column np.polyfit builds is all zeros. np.polyfit scales that column by
  its norm, 0, and the least-squares solve then raises LinAlgError. The
  line sits in the `else` clause of the `try`, so nothing catches it. The
  model returns `FitDidNotConverge` for that slice.
- **The nearest pixel** is the first mask index with the least squared
  integer distance. Squaring is monotone, and np.argmin takes the first
  index on ties.
- **The vector norm** in `Pipeline.ProcessPair` is a parameter `norm`,
  required to be a Euclidean length (`Pipeline.IsEuclideanNorm`): never
  negative, with square d0² + d1². Its floating-point rounding is not
  modelled.
- **A histogram with no bins.** `get_num_hist_bins` gives 0 bins for an
  empty selection. Then `np.histogram2d` in the polar plot indexes the
  last of no bin edges, and `plt.hist` in the distance plot rejects 0
  bins. Either way `main` raises before it saves the sides; the model
  returns `PlotRaised`.

Where the code and its documentation disagree, the model follows the code:

- **Empty slice list.** The docstring of `get_distribution` says an empty
  slice list means the whole stack. In the code, the assignment of the
  whole range sits in the `if` branch and the loop sits in the `else`
  branch, so an empty list returns `[]`.
- **Slice with no particles.** A listed slice holding no particle raises
  an IndexError at korpuskulum/eval.py:48, outside the `try`. It is not
  skipped as a degenerate slice.
- **Axes of the fit.** The fit unpacks the mask's transpose as (rows,
  columns). It therefore fits column as a function of row, not row
  against column.
- **Sign of the normal.** The normal is built as (-slope, 1). Its second
  component is the literal 1, so the sign flip always fires and the
  normal is always (slope, -1).
- **Zero dot product.** A zero dot product gives side label 1, since the
  test is `>= 0`. This includes every particle when the pixel size is 0.
- **tests/test_io.py.** It expects the numerical order [2, 1, 0] for
  "zxy" and [0, 2, 1] for "xyz". The code computes [0, 1, 2] and
  [2, 0, 1], which is what `CoordIO.NumericalOrderExamples` states.
- **Module name.** main.py calls `get_distribution` through the module
  name `evaluate`. The model takes korpuskulum/eval.py to be that module.

## Model

| member | source | states |
|---|---|---|
| Axes.SqDistZero | korpuskulum/eval.py:51-55 | the squared pixel distance is never negative and is zero exactly for the same pixel |
| Eval.PyIndex | korpuskulum/eval.py:46 | `seg_map[slice_no]` succeeds exactly for -len <= slice_no < len, and then names slice i, or i + len for a negative i, which is in range |
| Eval.MembranePixels | korpuskulum/eval.py:46 | the mask holds exactly the in-bounds (row, col) positions whose value is 1, each once, in row-major order as np.argwhere lists them |
| Eval.Projection | korpuskulum/eval.py:48 | the pixel compared with the mask is (column 2, column 1) of the particle's (Z, X, Y) row, and with the particle's Z it gives the particle back |
| Eval.ParticlesInSlice | korpuskulum/eval.py:47 | the retained particles are exactly the input particles whose Z equals the slice number, and there are no more of them than input particles |
| Eval.ParticlesInSliceSplit | korpuskulum/eval.py:47 | the filter distributes over concatenation, so it keeps the input order |
| Eval.ParticlesInSliceIdempotent | korpuskulum/eval.py:47 | filtering the retained particles again by the same slice returns them unchanged |
| Eval.Nearest | korpuskulum/eval.py:55-56 | for a non-empty mask, the index np.argmin picks is the first mask index at the least distance from the particle's (y, x) projection |
| Eval.FirstNearestUnique | korpuskulum/eval.py:56 | there is only one first-nearest index, so argmin's choice is determined |
| Eval.NearestDisplacement | korpuskulum/eval.py:57 | the displacement is (projection - nearest mask pixel) * pixel_size_nm, for the first-nearest pixel |
| Eval.DisplacementZeroIff | korpuskulum/eval.py:57 | the displacement is zero when the pixel size is 0, and otherwise exactly when the particle projects onto the pixel |
| Eval.NearestOnMask | korpuskulum/eval.py:55-56 | a pixel of the mask is its own nearest mask pixel |
| Eval.OnMembraneZeroVector | korpuskulum/eval.py:55-57 | a particle whose projection lies on a membrane pixel gets the zero displacement |
| Eval.SurfaceNormal | korpuskulum/eval.py:61-63 | after the sign step the normal's second component is not positive, and the normal is always (slope, -1) |
| Eval.Orientation | korpuskulum/eval.py:65 | `(dot >= 0).astype(int)` is 0 or 1 |
| Eval.OrientationNormalFlip | korpuskulum/eval.py:61-65 | negating the normal swaps the labels of every vector off the membrane line; a vector on the line is labelled 1 either way |
| Eval.SideLabel | korpuskulum/eval.py:65 | the label is 0 or 1, and it is 1 exactly when d0 * slope - d1 >= 0, the dot product with the normal |
| Eval.ZeroVectorLabelledOne | korpuskulum/eval.py:65 | a zero displacement is labelled 1, whatever the slope |
| Eval.ZeroPixelSizeAllOne | korpuskulum/eval.py:57-65 | with pixel size 0, every particle of the slice is labelled 1 |
| Eval.SliceDistribution | korpuskulum/eval.py:55-68 | one slice's entry: the four parts have one element per retained particle; every slice label is slice_no; each vector is the displacement to the first-nearest pixel; each orientation is 0 or 1, with 1 exactly when the dot product is >= 0 |
| Eval.EvaluateSlice | korpuskulum/eval.py:46-68 | one pass of the loop body raises exactly when the slice is out of range, holds no particle, or has membrane in row 0 only, with the exception met first; it yields no entry exactly when the mask is empty |
| Eval.RowsAllZeroIff | korpuskulum/eval.py:60 | the row-0 test that makes np.polyfit raise holds exactly when every mask pixel lies in row 0 |
| Eval.RowZeroMembraneRaises | korpuskulum/eval.py:60 | a one-slice stack whose membrane is the two pixels of row 0, with one particle in it, raises at np.polyfit whatever `fit` is |
| Eval.GetDistribution | korpuskulum/eval.py:22-71 | the loop returns what `Distribution` specifies for the slice list, and [] for an empty slice list |
| Eval.DistributionFailureSticks | korpuskulum/eval.py:45-48 | once a slice raises, the evaluation of any longer prefix of the list raises the same error, so returning from the loop is sound |
| Eval.KeptSlices | korpuskulum/eval.py:45-53 | the slices that yield an entry are exactly the listed slices whose membrane mask is not empty, and there are no more of them than listed slices |
| Eval.KeptSlicesSplit | korpuskulum/eval.py:45-53 | the kept slices of a concatenated list are the kept slices of each part, one after the other, so list order is kept |
| Eval.KeptSlicesCount | korpuskulum/eval.py:45-53 | a slice number listed k times with a non-empty mask is kept k times, and one with an empty mask never |
| Eval.FirstFailing | korpuskulum/eval.py:45-60 | the first listed slice that is out of range, holds no particle, or has membrane in row 0 only, with every earlier slice passing; None exactly when no slice fails |
| Eval.DistributionFailsIff | korpuskulum/eval.py:45-60 | the evaluation raises exactly when Eval.FirstFailing finds a failing slice (an IndexError, or np.polyfit's LinAlgError), and then with that slice's error |
| Eval.DistributionEntries | korpuskulum/eval.py:45-68 | on success the result has one entry per listed slice with a non-empty mask, in list order; slices with an empty mask are skipped |
| Eval.EntryAt | korpuskulum/eval.py:57-68 | on success the i-th entry is aligned and has one slice label, which is a listed slice with membrane; its retained particles are exactly that slice's particles, at least one |
| Eval.EntriesAligned | korpuskulum/eval.py:57-68 | on success there are at most as many entries as listed slices, and every entry has the properties of Eval.EntryAt |
| MaskFit.LeastSquaresSlope | korpuskulum/eval.py:60 | the closed-form least-squares slope of column on row is defined exactly when the mask spans more than one row |
| MaskFit.SpreadZeroIff | korpuskulum/eval.py:60 | the slope's denominator n * Sxx - Sx^2 is never negative, and it is zero exactly when all pixels share one row |
| MaskFit.ExactLineSlope | korpuskulum/eval.py:60 | pixels lying on the line q * col = num * row + off (q != 0), over at least two rows, are fitted with slope exactly num / q: x is the row and y is the column. Every line through two pixels in different rows has such integer coefficients |
| CoordIO.Lower | korpuskulum/io.py:35 | lowering keeps the length, so a position in the lowered string is a position in the order string |
| CoordIO.Index | korpuskulum/io.py:35 | `str.index` fails exactly when the character is absent, and otherwise returns its first position |
| CoordIO.NumericalOrder | korpuskulum/io.py:35 | numerical_order fails exactly when the lowered order string lacks z, x or y; otherwise entry k is the first position of "zxy"[k] in it |
| CoordIO.NumericalOrderExamples | korpuskulum/io.py:35 | "zxy" gives [0, 1, 2], "xyz" gives [2, 0, 1], and "ZXY" reads like "zxy" |
| CoordIO.AxisOrderGivesPermutation | korpuskulum/io.py:35 | a case-insensitive permutation of "zxy" yields a permutation of {0, 1, 2} |
| CoordIO.ReorderColumns | korpuskulum/io.py:36 | column indexing fails exactly when an index is not a column; otherwise it keeps the row count, and output [i][k] is input [i][order[k]] |
| CoordIO.LoadCoords | korpuskulum/io.py:31-38 | loading fails exactly when numerical_order fails or names a missing column; otherwise each row becomes the coordinate (row[o0], row[o1], row[o2]), and the order is returned with it |
| RowOrder.LexLessTransitive | korpuskulum/main.py:42 | the lexsort order (last column first) is transitive |
| RowOrder.LexLessTotal | korpuskulum/main.py:42 | any two rows of one width are equal or ordered one way or the other |
| RowOrder.LexLessAsymmetric | korpuskulum/main.py:42 | the lexsort order is asymmetric, and ordered rows differ |
| RowOrder.Insert | korpuskulum/main.py:42-43 | inserting a row into sorted rows keeps them sorted and adds exactly that row |
| RowOrder.Sort | korpuskulum/main.py:42-43 | `array_in[np.lexsort(array_in.T)]` is a permutation of the rows in lexsort order |
| RowOrder.DropRepeats | korpuskulum/main.py:44-45 | the np.diff mask keeps every row that occurs and no other, never adds rows, keeps the first and the last row, and leaves no two equal neighbours |
| RowOrder.DropRepeatsSorted | korpuskulum/main.py:44-45 | on sorted rows, the np.diff mask keeps every row that occurs and no other, strictly ascending, and ends with the last row |
| RowOrder.SortStrictlySorted | korpuskulum/main.py:42-43 | strictly sorted rows are their own lexsort |
| RowOrder.DropRepeatsStrictlySorted | korpuskulum/main.py:44-45 | strictly sorted rows have no repeats to drop |
| Pipeline.UniqueRows | korpuskulum/main.py:41-47 | unique_rows raises exactly for an empty array or one without columns; otherwise it returns exactly the input's rows, strictly ascending in lexsort order, hence each once |
| Pipeline.UniqueRowsIdempotent | korpuskulum/main.py:41-47 | applying unique_rows to its own output returns it unchanged |
| Pipeline.NonEmptySlices | korpuskulum/main.py:135 | seg_nonempty holds exactly the slice numbers whose voxel sum is not zero, ascending |
| Pipeline.WithParticles | korpuskulum/main.py:141-142 | keeping the slices that hold a particle preserves ascending order |
| Pipeline.EvalSlices | korpuskulum/main.py:141-142 | eval_slice_idx is strictly ascending. It holds exactly the slices with a non-zero voxel sum that are the Z of some particle |
| Pipeline.EvalSlicesFailIff | korpuskulum/main.py:141-148 | on the slices main hands it, get_distribution raises exactly when one of them has membrane in row 0 only, and then with np.polyfit's error |
| Pipeline.Aggregate | korpuskulum/main.py:149-152 | np.vstack and np.concatenate raise exactly when the list of entries is empty |
| Pipeline.ConcatenateConsistent | korpuskulum/main.py:149-152 | stacking consistent entries gives four aligned arrays, each slice number beside a coordinate of that Z, and the stacked coordinates are those of the entries |
| Pipeline.StackNonEmpty | korpuskulum/main.py:149-152 | a successful evaluation with at least one entry stacks at least one distance vector |
| Pipeline.DistributionConsistent | korpuskulum/eval.py:47-68 | every entry of a successful evaluation labels each particle with the particle's own Z |
| Pipeline.StackOfDistribution | korpuskulum/main.py:143-152 | the stack of a successful evaluation is consistent; each of its coordinates is a loaded particle in a slice with membrane |
| Pipeline.InRangeMask | korpuskulum/main.py:182-183 | the range mask holds exactly min(range) <= min_dist <= max(range) |
| Pipeline.SideMasks | korpuskulum/main.py:181-187 | the side_1 and side_0 masks never overlap, together select exactly the in-range rows, and select label 1 and label not 1 respectively |
| Pipeline.MinDist | korpuskulum/main.py:155 | one distance per stacked vector; each is never negative, and is 0 exactly when the particle's displacement vector is zero |
| Pipeline.EuclideanNormZeroIff | korpuskulum/main.py:155 | a Euclidean length is never negative and is 0 exactly for the zero vector |
| Pipeline.MembraneParticleZeroDistance | korpuskulum/eval.py:55-57 | a particle projecting onto a membrane pixel of its slice gets the zero vector in that slice's entry, and min_dist 0 |
| Pipeline.ZeroVectorNotPolar | korpuskulum/main.py:155-167 | a stacked zero vector has min_dist 0, so the polar plot's criterion 0.1 < d never selects it |
| Pipeline.SelectRowsMembers | korpuskulum/main.py:181-187 | boolean-mask indexing selects every row whose mask entry is true, and only such rows |
| Pipeline.SelectRowsEmptyIff | korpuskulum/main.py:181-187 | a mask selects nothing exactly when it holds no true entry |
| Pipeline.SelectRowsSubsequence | korpuskulum/main.py:181-187 | boolean-mask indexing yields an order-preserving subsequence |
| Pipeline.SelectRowsPartition | korpuskulum/main.py:181-187 | two non-overlapping masks that together cover a third split that mask's selection between them |
| Pipeline.SplitSidesPartition | korpuskulum/main.py:181-187 | side_1 and side_0 are order-preserving subsequences of trimmed_coords and together hold exactly the in-range rows |
| Pipeline.SplitSidesMembers | korpuskulum/main.py:181-187 | side_1 holds exactly the coordinates of rows labelled 1 within the range, side_0 exactly those of rows labelled otherwise within it |
| Pipeline.SplitSidesSwap | korpuskulum/main.py:181-187 | swapping the two values of the distance range changes neither side |
| Pipeline.PlottedSidesAreSavedSides | korpuskulum/main.py:170-187 | the side I and side O histograms select the same particles as side_1 and side_0 |
| Pipeline.DefaultBinsZeroIff | korpuskulum/plotting.py:25-40 | with the default multiplier 2, a histogram gets 0 bins exactly when its selection is empty |
| Pipeline.PlotAndSplitOutcome | korpuskulum/main.py:165-187 | for a non-empty stack, the polar plot raises exactly when no distance exceeds 0.1; the plots succeed exactly when some distance exceeds 0.1 and both sides are non-empty, and then the result is the two sides; any failure is a plot's |
| Pipeline.StraightMembraneLabels | korpuskulum/eval.py:60-65 | for a straight membrane q * col = num * row + off over at least two rows, np.polyfit's slope gives label 1 exactly when d0 * num / q - d1 >= 0 |
| Pipeline.StackSidesWithinStack | korpuskulum/main.py:155-187 | every saved coordinate is one of the stack's retained coordinates |
| Pipeline.SavedRowsAsWritten | korpuskulum/main.py:190-194 | `side[:, restoration_order]`: output column k is stored column restoration_order[k], and it fails exactly when an index exceeds the three columns |
| Pipeline.AsWrittenColumns | korpuskulum/main.py:190-194 | after loading with order p and saving as written, column k holds file column p[p[k]] |
| Pipeline.AsWrittenRestoresSelfInverse | korpuskulum/main.py:190-194 | when p is self-inverse, saving as written restores every file's rows |
| Pipeline.AsWrittenBreaksOtherOrders | korpuskulum/main.py:190-194 | when p is not self-inverse, no file holding a row of three distinct values is restored |
| Pipeline.XyzLoad | korpuskulum/io.py:35-36 | the "xyz" row [1, 2, 3] is stored as (Z, X, Y) = (3, 1, 2) with order [2, 0, 1] |
| Pipeline.XyzNotRestored | korpuskulum/main.py:190-194 | that row is saved as [2, 3, 1], not as the file's [1, 2, 3] |
| Pipeline.Inverse | korpuskulum/main.py:96 | the inverse of a permutation of {0, 1, 2} undoes it on both sides |
| Pipeline.SavedRows | korpuskulum/main.py:190-194 | the corrected save is defined exactly for a permutation, and puts stored column k back at file column p[k] |
| Pipeline.SavedRowsRoundTrip | korpuskulum/main.py:190-194 | for any order that permutes "zxy", loading a file and saving with the corrected save returns the file's rows |
| Pipeline.ProcessPairOutcome | korpuskulum/main.py:134-187 | for one pair: loading fails exactly when load_coords raises (a bad order string or too few columns); get_distribution raises exactly when an evaluated slice has membrane in row 0 only, and then at np.polyfit; np.vstack raises exactly when otherwise no evaluated slice has membrane; on success both sides are non-empty, and every saved coordinate is a loaded particle in a slice with membrane |
| Plotting.CeilCbrt | korpuskulum/plotting.py:38 | ceil(cbrt(n)) is the c with (c - 1)^3 < n <= c^3, and 0 for n = 0 |
| Plotting.CeilCbrtUnique | korpuskulum/plotting.py:38 | those bounds have exactly one solution |
| Plotting.CeilCbrtMonotone | korpuskulum/plotting.py:38 | ceil(cbrt(n)) does not decrease as n grows |
| Plotting.NumHistBins | korpuskulum/plotting.py:25-40 | the Rice-rule count multiplier * ceil(cbrt(n)), with Plotting.CeilCbrt's cube-root bounds; so an empty array gets 0 bins, and a non-empty one at least `multiplier` bins when the multiplier is positive |
| Plotting.NumHistBinsMonotone | korpuskulum/plotting.py:38 | with a non-negative multiplier, the bin count does not decrease as the array grows |
| Plotting.NumHistBinsExamples | korpuskulum/plotting.py:38 | with multiplier 2: 1 value gives 2 bins, 8 give 4, 9 give 6, 27 give 6, 28 give 8 |
| Plotting.MaxOf | korpuskulum/plotting.py:63-64 | `dist_array.max()` is an element at least every element |
| Plotting.PolarCriteria | korpuskulum/plotting.py:63-69 | the polar selection fails exactly when there is no cutoff and the array is empty; with a cutoff it is 0.1 < d <= cutoff |
| Plotting.PolarCriteriaDefault | korpuskulum/plotting.py:63-69 | without a cutoff, the selection is exactly d > 0.1 |
| Plotting.MinDistMasks | korpuskulum/plotting.py:118-132 | the side I and side O masks never overlap, their union is dist_low <= d <= dist_high, and they select label 1 and label not 1 |

## Findings

| source | as written | input that shows it | evidently intended | confidence | as-written member | corrected member |
|---|---|---|---|---|---|---|
| korpuskulum/main.py:190-194 | the saved side files index the stored (Z, X, Y) columns with `restoration_order`, which is the same `numerical_order` used to load them | `--order xyz` with the file row `1 2 3`: it is stored as (3, 1, 2) and saved as `2 3 1` | the help text of `--order` (korpuskulum/main.py:96) promises output in the input's column order, so the stored columns should go back through the inverse permutation and be saved as `1 2 3` | not executed; follows from the indexing alone, and orders "zxy", "zyx", "yxz" and "xzy" are self-inverse and unaffected | Pipeline.SavedRowsAsWritten, Pipeline.XyzNotRestored, Pipeline.AsWrittenBreaksOtherOrders | Pipeline.SavedRows, Pipeline.SavedRowsRoundTrip |

## Left out

- File and process I/O are not modelled: TIFF reading in `load_membrane`, `np.loadtxt` and its `astype(int)`, `np.savetxt`, folder creation, the STAR conversion table, the Typer CLI and the progress bar. `CoordIO.LoadCoords` starts from the integer rows np.loadtxt would return. A one-row file, which np.loadtxt reads as a 1-D array, is not modelled.
- The loops of `main` over membranes and coordinate files are not modelled. `Pipeline.ProcessPair` is the body for one pair, without the file output; of the plotting calls it keeps only whether they raise.
- `io.parse_membrane_input`, `io.parse_coords_input`, `io.export_conversion_table` and the progress-bar module are not part of this model. korpuskulum/config.py and korpuskulum/objects.py only copy arguments into a record, and they are not modelled either.
- `np.polyfit` is a parameter `fit` of `Eval`, except that a mask in row 0 only raises (`FitDidNotConverge`). For a mask spanning at least two rows, `MaskFit.LeastSquaresSlope` is its exact least-squares value.
- MaskFit.LeastSquaresSlope: returns None for a mask in a single row. For row 0 numpy raises, which `Eval` models; for any other single row numpy returns some value from a rank-deficient least-squares solve, with a warning, and `fit` stands for that value.
- sklearn's floating-point `pairwise_distances` and its minimum are replaced by exact squared integer distances. This model does not capture ties that rounding would break differently.
- `np.arctan2` (the polar angles) and the rounding of `np.cbrt` are not modelled. `Plotting.CeilCbrt` is the exact integer ceiling of the cube root.
- Pipeline.MinDist: `np.linalg.norm` is the parameter `norm`, constrained only to be an exact Euclidean length; its floating-point rounding is not modelled.
- Plotting.NumHistBins: takes an integer multiplier. The source accepts a float multiplier; the default, 2, is an integer.
- Matplotlib rendering is not modelled: the counts of `histogram2d` and `hist`, `linspace`'s bin edges beyond their number, `pcolormesh` and `savefig`. Only the 0-bin failure of each histogram is.
- CoordIO.Lower: lowers ASCII letters one for one. Python's `str.lower` also lowers other alphabets, and for some characters it changes the length: 'İ' (U+0130) becomes two code points, which shifts the positions `str.index` finds after it. An order string holding such a character is read differently by the model.
- The segmentation volume is modelled as integers. A float volume whose values merely compare equal to 1 is not distinguished.
