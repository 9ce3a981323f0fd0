# Perturbation bookkeeping of Lime4video's `VideoPerturbationAnalyzer`

Lime4video explains a black-box video classifier with a 3D version of LIME.
It segments the video volume into spatio-temporal superpixels and draws random
on/off activation vectors over those regions. Each vector becomes a boolean mask.
The masked regions of a copy of the video are blacked out, and the model scores
every perturbed copy. A linear surrogate is then fitted to the (activation, score)
pairs, and its coefficients are min-max normalised into per-region importances.

This project models the integer and list logic of `lime_3d/lime_3d.py` that sits
between the library calls:

- `volumes.dfy` (module `Volumes`): pixels, volumes, masks, and blacking out a volume in place.
  A volume of shape frames x height x width is stored flattened in C order.
  Every operation here works cell by cell, so "the same shape" means "the same length".
- `masks.dfy` (module `Masks`): `_generate_repeted_perturbed_matrices`. The labelling
  (`segments`) is an input. The random bits are an input stream `draw`, where
  `draw(k)` is the outcome of the k-th `random.randint(0, 1) == 1`. Each mask is
  built in an array by `mask |= (segments == idx)`.
- `dataset.dfy` (module `Dataset`): `_generate_dataset` without distances and weights.
  `model_function` is a `ScoringFunction` object. It holds an opaque function `f`
  and a log `calls` of every volume it was applied to.
- `surrogate.dfy` (module `Surrogate`): the normalisation on line 82 of `_train_model`, over `real`.
- `flatten.dfy` (module `Flatten`): `_flatten_matrix`.
- `analyzer.dfy` (module `Analyzer`): lines 22-23 of `explain_instance`, composed.

The masking loop is modelled as written. `cluster_size` counts the distinct
labels, but the loop only covers the IDs `0 .. cluster_size - 1`. Nothing requires
the labelling to use exactly those IDs. `Masks.UncoveredRegionExists` states what
happens when it does not, for example with a labelling that starts at 1. Some
cell then carries an ID the loop never covers, so `Masks.OutOfRangeNeverMasked`
applies and that region is never blacked out. Also, some covered ID labels no cell,
so by `Masks.AbsentIdIgnored` its activation bit changes no mask. A region-ID
range of exactly `0 .. R - 1` would give the law "mask cell == bit of its region"
(`Masks.MaskFollowsRegionBit`). The model does not assume that range, because the
code does not enforce it.

The normalisation divides by `max - min` without a guard. The model therefore
requires the coefficients not to be all equal, and does not substitute a
fallback vector.

## Model

| member | source | states |
|---|---|---|
| `Volumes.Perturbed` | lime_3d/lime_3d.py:59-60 | the perturbed copy has the video's shape; every masked cell is `[0, 0, 0]` and every other cell keeps its pixel |
| `Volumes.BlackOut` | lime_3d/lime_3d.py:60 | afterwards the array is the old contents with every masked cell black in all three channels and every other cell unchanged |
| `Volumes.EmptyMaskIsIdentity` | lime_3d/lime_3d.py:59-60 | an all-false mask leaves the copy equal to the original video |
| `Volumes.PerturbedChangesOnlyMasked` | lime_3d/lime_3d.py:59-60 | a cell of the perturbed copy differs from the original only if the mask selects it, and a selected cell is `[0, 0, 0]` |
| `Masks.ClusterSize` | lime_3d/lime_3d.py:32 | `cluster_size`, the number of distinct labels: at most the number of cells, and zero exactly for an empty labelling |
| `Masks.Draws` | lime_3d/lime_3d.py:35-39 | the `n` bits consumed from position `start` of the random stream: `n` of them, bit `k` being draw `start + k` |
| `Masks.MaskOf` | lime_3d/lime_3d.py:37-42 | the mask has the labelling's shape; a cell is set iff some covered ID `idx < len(activation)` has its bit on and labels that cell |
| `Masks.OrInLabel` | lime_3d/lime_3d.py:42 | the in-place OR with `segments == idx`: each cell becomes its old value or "labelled `idx`", in place |
| `Masks.MaskOfSnoc` | lime_3d/lime_3d.py:38-42 | appending bit `b` for the next ID ORs into the mask exactly the cells of that ID when `b` is on; this is the loop's step |
| `Masks.BlackOutStep` | lime_3d/lime_3d.py:38-42 | one step of the region loop as seen on the perturbed video (line 60): blacking out the mask grown by bit `b` equals blacking out the previous mask and then, when `b` is on, the cells of ID `len(activation)`; with `b` off the perturbed video is unchanged |
| `Masks.GenerateMasks` | lime_3d/lime_3d.py:32-47 | exactly `num_matrix` masks and activation vectors, index-aligned; vector `i` has `cluster_size` bits, taken from the `i`-th block of `cluster_size` random draws; mask `i` is the mask of vector `i` |
| `Masks.OutOfRangeNeverMasked` | lime_3d/lime_3d.py:38-42 | a cell whose ID is negative or at least the vector's length is never masked |
| `Masks.AllOffMasksNothing` | lime_3d/lime_3d.py:37-42 | an activation vector with every bit off gives an all-false mask |
| `Masks.MaskFollowsRegionBit` | lime_3d/lime_3d.py:37-42 | when every ID is below the vector's length, a cell is masked exactly when its region's bit is on |
| `Masks.AbsentIdIgnored` | lime_3d/lime_3d.py:38-42 | flipping the bit of an ID that labels no cell leaves the mask unchanged |
| `Masks.UncoveredRegionExists` | lime_3d/lime_3d.py:32-42 | when the IDs are not exactly `0 .. cluster_size - 1`, some cell has an ID the loop never covers, and some covered ID labels no cell |
| `Masks.AllOnMasksEverything` | lime_3d/lime_3d.py:32-42 | when the IDs are exactly `0 .. cluster_size - 1`, the all-on vector masks every cell |
| `Dataset.ScoringFunction.Call` | lime_3d/lime_3d.py:61 | returns `f` of its argument and appends the argument to the call log |
| `Dataset.PerturbedCopy` | lime_3d/lime_3d.py:59-60 | a fresh array holding the original with the masked cells black; the original array is unchanged |
| `Dataset.GenerateDataset` | lime_3d/lime_3d.py:52-70 | `X` is the activation list unchanged; `Y` has one entry per mask, in mask order, each the model's output on that mask's perturbed copy; the model is called on the unperturbed video first, then on each perturbed copy in order, so `len(masks) + 1` times |
| `Analyzer.PerturbationDataset` | lime_3d/lime_3d.py:18-23 | `num_matrix` index-aligned rows; row `i` pairs the `i`-th activation vector (`cluster_size` bits) with the model's output on the video blacked out by that vector's mask; `num_matrix + 1` model calls, the first on the original video |
| `Surrogate.MinOf` | lime_3d/lime_3d.py:82 | `np.min`: an element of the coefficients that is at most every coefficient |
| `Surrogate.MaxOf` | lime_3d/lime_3d.py:82 | `np.max`: an element of the coefficients that is at least every coefficient |
| `Surrogate.Scale` | lime_3d/lime_3d.py:82 | one scaled coefficient lies in `[0, 1]`, is 0 iff it is the minimum and 1 iff it is the maximum |
| `Surrogate.Normalise` | lime_3d/lime_3d.py:82 | one value per coefficient, each in `[0, 1]`, provided the coefficients are not all equal |
| `Surrogate.ScaleMonotone` | lime_3d/lime_3d.py:82 | scaling is strictly increasing |
| `Surrogate.NormaliseEndpoints` | lime_3d/lime_3d.py:82 | a normalised value is 0 iff its coefficient is the minimum, and 1 iff its coefficient is the maximum |
| `Surrogate.NormalisedRange` | lime_3d/lime_3d.py:82 | some normalised value is 0 and some is 1; with every value in `[0, 1]`, they are the vector's minimum and maximum |
| `Surrogate.NormalisePreservesOrder` | lime_3d/lime_3d.py:82 | for any two coefficients, `<` and `==` hold before normalisation iff they hold after |
| `Flatten.Sampled` | lime_3d/lime_3d.py:87 | the visited matrices are those at indices `0, 100, 200, ...` below the length, in order, `ceil(len / 100)` of them |
| `Flatten.FlattenMatrix` | lime_3d/lime_3d.py:85-92 | the result is the elements of every row of every visited matrix, in order |
| `Flatten.ConcatLength` | lime_3d/lime_3d.py:88-90 | concatenating the rows of a matrix keeps every element: the length is the sum of the row lengths |
| `Flatten.Flattened` | lime_3d/lime_3d.py:85-92 | the list `_flatten_matrix` returns; its length is the total element count of the matrices at indices `0, 100, 200, ...` |
| `Flatten.OnlySampledMatter` | lime_3d/lime_3d.py:87 | two lists of matrices that agree at every index divisible by 100 flatten to the same list, so the other matrices contribute nothing |

## Left out

- `segmentation.slic` (line 30) is a library clustering routine. Its labelling is an input, `segments`, of the same length as the video.
- `random.randint` (line 39) is the input stream `draw`. The model keeps the order of consumption, one draw per region per sample.
- `_preprocess_video` and `np.stack` (lines 21, 28, 49-50, 56): the video is given already stacked and flattened. `lime_3d.utils` is not part of this model.
- Cosine distances and kernel weights (lines 63-66, 72-76) are floating point and transcendental, and call sklearn. `Dataset.GenerateDataset` does not return `weights`.
- `LinearRegression.fit` (line 80) is a foreign library. The coefficients are a given sequence of reals.
- `Surrogate.Normalise`: when all coefficients are equal, numpy divides by zero and returns NaN values. That case is excluded by precondition. An empty coefficient vector, where `np.min` raises, is excluded too.
- Pixel channels are integers. Frames holding floats are not modelled; only the zero written into masked cells matters here.
- Masks are returned as values, snapshots of the arrays they were built in. Nothing writes to them afterwards, so aliasing between the returned list and the arrays is not modelled.
- The baseline score (line 54) is computed and then only printed. It is modelled as the first entry of the call log.
- `_create_proof_of_concept_video`, `np.percentile` and `proof_of_concept_video` (lines 120-122), and `_create_output_video` (lines 104-118): percentile arithmetic and video I/O.
- `_train_linear_model` and `_generate_heatmaps` (lines 94-102) are dead code. They use attributes that are never set.
- `print` and `tqdm` calls: output only.
- `Dataset.ScoringFunction`: `f` is total and deterministic. A `model_function` that raises aborts `_generate_dataset` with no partial dataset, which the model does not represent.
- `tester.py` is a driver script that wires a torch model to the analyzer. It is not part of this model.
