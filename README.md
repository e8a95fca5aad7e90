# Boolean mask images

A model of menpo's `BooleanImage` (`menpo/image/boolean.py`). A boolean
mask image is a rectangular n-dimensional grid of booleans. Its True pixels
form the "masked region". The image can count its True and False pixels,
list their indices, invert itself in place or into a copy, bound its True
(or False) region by a box, be built blank or from a flat vector, and
rebuild itself after a warp.

The project has three modules:

- `Shapes` (`shapes.dfy`): the index space that the base `Image` class
  provides. `n_pixels` is the product of the shape. Pixels are stored in
  row-major (C) order. `Unflatten`/`Flatten` convert between a flat position
  and a multi-index, and `Indices` is the base class's `indices` property
  (every multi-index, in row-major order). Both round trips are proved.
- `Masks` (`masks.dfy`): the value of a mask (`Mask`: shape plus row-major
  pixels) and everything computed from it without changing it: `n_true`,
  `n_false`, `all_true`, `true_indices`, `false_indices`, `bounds_true`, the
  masked assignment `pixels[mask] = values` (`Scatter`) with its read-back
  (`Gather`), `blank`, the warped-mask builders, and the order guard of
  `warp_to`. Python's `ValueError`s become `Failure` values of `Result`.
- `BooleanImages` (`boolean_image.dfy`): the class `BooleanImage`. It holds
  a `const shape` and an `array<bool>` of pixels. `Value()` gives the mask it
  currently holds. The methods that allocate or mutate images live here
  (constructors, `Blank`, `Copy`, `FromVector`, `InvertInplace`, `Invert`,
  `BoundsFalse`, `AssignMasked`, `BuildWarpedImage`). `FromData` and
  `FromBools` state the new pixels directly in terms of their data; every
  other method states its result or new state in terms of the `Masks`
  functions.

`invert_inplace` rebinds `self.pixels` to the new array that numpy's `~`
allocates. The model does the same: `InvertInplace` assigns a fresh array to
the field, so it modifies `this` and not the old array. The masked
assignment at line 369 writes into the existing array, and `AssignMasked`
does too: it modifies `pixels`, using a parallel `forall` statement as the
counterpart of the vectorised numpy write.

## Model

| member | source | states |
|---|---|---|
| `Shapes.Unflatten` | menpo/image/boolean.py:146 | the row-major multi-index of a flat pixel position is a legal index of the shape |
| `Shapes.Flatten` | menpo/image/boolean.py:146 | the row-major flat position of a legal multi-index lies below `n_pixels` (it inverts `Unflatten`; see the round-trip lemmas behind `IndicesEnumerate`) |
| `Shapes.Indices` | menpo/image/boolean.py:142-143 | the base class's `indices`: `n_pixels` entries, each a legal multi-index of the shape |
| `Shapes.IndicesEnumerate` | menpo/image/boolean.py:142-143 | the base class's `indices` has `n_pixels` entries, holds every legal multi-index exactly at its row-major position, and holds nothing else |
| `Masks.Count` | menpo/image/boolean.py:90-97 | the number of pixels equal to a value never exceeds the number of pixels |
| `Masks.CountPartition` | menpo/image/boolean.py:90-106 | the True count plus the False count is the pixel count |
| `Masks.NTrue` | menpo/image/boolean.py:90-97 | `n_true` (the sum of the pixels) is at most `n_pixels` and equals the number of positions `nonzero` lists |
| `Masks.NFalse` | menpo/image/boolean.py:99-106 | `n_pixels - n_true` is exactly the number of False pixels, and `n_true + n_false == n_pixels` |
| `Masks.AllTrue` | menpo/image/boolean.py:108-115 | `all_true` (`np.all` over the pixels) holds iff no pixel is False |
| `Masks.AllTrueIffFull` | menpo/image/boolean.py:108-115 | `all_true` holds iff `n_true == n_pixels`, iff `n_false == 0` |
| `Masks.Positions` | menpo/image/boolean.py:146 | `nonzero` yields one in-range position per pixel with the given value, and each listed pixel has that value |
| `Masks.PositionsExact` | menpo/image/boolean.py:146 | a position is listed by `nonzero` iff its pixel has the value asked for |
| `Masks.PositionsIncreasing` | menpo/image/boolean.py:146 | `nonzero` lists positions in strictly increasing row-major order |
| `Masks.TrueIndices` | menpo/image/boolean.py:135-146 | `true_indices`: `indices` when the mask is all True, otherwise the multi-indices of `nonzero`; it has `n_true` entries, each a legal multi-index |
| `Masks.FalseIndices` | menpo/image/boolean.py:148-156 | `false_indices`: the multi-indices of `nonzero` of `~pixels`; it has `n_false` entries, each a legal multi-index |
| `Masks.TrueIndicesNonzero` | menpo/image/boolean.py:142-146 | the all-True shortcut that returns `indices` gives the same list as the general `nonzero` route |
| `Masks.TrueIndicesExact` | menpo/image/boolean.py:135-146 | `true_indices` has `n_true` entries in row-major order, and a legal index is listed iff its pixel is True |
| `Masks.FalseIndicesExact` | menpo/image/boolean.py:148-156 | `false_indices` has `n_false` entries in row-major order, and a legal index is listed iff its pixel is False |
| `Masks.IndicesPartition` | menpo/image/boolean.py:135-156 | the True and False indices partition the image's index space |
| `Masks.AllTrueIndices` | menpo/image/boolean.py:108-146 | `all_true` holds iff `true_indices` contains every legal index; then it equals `indices` and `false_indices` is empty |
| `Masks.Negate` | menpo/image/boolean.py:216-221 | numpy's `~`: same length, every pixel flipped |
| `Masks.Invert` | menpo/image/boolean.py:216-221 | the inverted mask has the same shape and every pixel flipped |
| `Masks.InvertInvolutive` | menpo/image/boolean.py:216-221 | inverting twice restores the mask, and inversion keeps the shape |
| `Masks.CountNegate` | menpo/image/boolean.py:216-221 | negation turns the count of each value into the count of the other |
| `Masks.PositionsNegate` | menpo/image/boolean.py:216-221 | the True positions of the negation are the False positions of the original |
| `Masks.InvertCounts` | menpo/image/boolean.py:223-237 | the inverse's `n_true` is the original's `n_false`, and the reverse |
| `Masks.TrueIndicesOfInverse` | menpo/image/boolean.py:313-314 | the True indices of the inverted copy are the False indices of the original |
| `Masks.MinAt` | menpo/image/boolean.py:274 | the per-axis minimum is at most every coordinate on that axis and is one of them |
| `Masks.MaxAt` | menpo/image/boolean.py:273 | the per-axis maximum is at least every coordinate on that axis and is one of them |
| `Masks.BoundsTrue` | menpo/image/boolean.py:239-278 | `bounds_true`: raises only the empty-reduction error; unconstrained, `mins` and `maxes` have one entry per axis and `mins[d] + 2 * boundary <= maxes[d]` on every axis |
| `Masks.BoundsTrueFails` | menpo/image/boolean.py:272-274 | `bounds_true` raises (a reduction over no index) exactly when there is no True pixel, whatever the constraint flag |
| `Masks.TrueIndicesBetween` | menpo/image/boolean.py:272-274 | on each axis, every True pixel lies between the minimum and maximum of `true_indices` |
| `Masks.TrueIndicesExtremesAttained` | menpo/image/boolean.py:272-274 | on each axis, both extremes of `true_indices` are coordinates of True pixels |
| `Masks.BoundsTrueTight` | menpo/image/boolean.py:239-278 | unconstrained, `mins[d] + boundary` and `maxes[d] - boundary` are the least and greatest coordinate of a True pixel on axis d |
| `Masks.BoundsTrueEnclose` | menpo/image/boolean.py:239-278 | unconstrained with `boundary >= 0`, every True pixel lies in `[mins, maxes]` |
| `Masks.BoundsFalseTight` | menpo/image/boolean.py:280-314 | `bounds_false` raises exactly when there is no False pixel; unconstrained, it is tight around the False pixels |
| `Masks.Gather` | menpo/image/boolean.py:369 | reading the cells under a mask yields one value per True cell of the mask |
| `Masks.AssignMasked` | menpo/image/boolean.py:369 | `pixels[mask] = values` with the mask itself as index: fails iff the number of values is neither `n_true` nor 1, naming both; on success the shape is kept and False pixels stay False |
| `Masks.ScatterGather` | menpo/image/boolean.py:369 | after `target[mask] = values`, reading the masked cells back yields the values, and unmasked cells are unchanged |
| `Masks.ScatterAllTrue` | menpo/image/boolean.py:366-369 | under an all-True mask the assignment replaces the pixels by the values, in row-major order |
| `Masks.Broadcast` | menpo/image/boolean.py:369 | the assigned values are stretched to exactly one per selected cell |
| `Masks.Blank` | menpo/image/boolean.py:70-78 | `blank` fails, with the rounding error, iff `round` is not ceil, round or floor; otherwise it keeps the requested shape |
| `Masks.BlankSpec` | menpo/image/boolean.py:70-78 | `blank` fails iff `round` is not ceil, round or floor; a filled blank is all True with `n_true == n_pixels`; an unfilled one has `n_true == 0` |
| `Masks.BuildWarped` | menpo/image/boolean.py:359-370 | as written: assignment into an all-True blank of the template's shape; a failure names `n_pixels` as the number of cells; a success has the template's shape |
| `Masks.WarpedFromTemplate` | menpo/image/boolean.py:359-370 | corrected: assignment into the template's own True cells; a failure names the template's `n_true` as the number of cells; a success has the template's shape |
| `Masks.BuildWarpedSpec` | menpo/image/boolean.py:359-370 | as written: succeeds iff there is one sampled value per template pixel or a single value; the result has the template's shape and holds the samples in row-major order (or the single value everywhere) |
| `Masks.WarpedFromTemplateSpec` | menpo/image/boolean.py:359-370 | corrected: succeeds iff there is one sampled value per True template pixel (or one value); reading the True cells back yields the samples, and a single value lands on every True cell; the template's False cells stay False; it agrees with the as-written builder on all-True templates |
| `Masks.BuildWarpedRejectsPartialTemplate` | menpo/image/boolean.py:366-369 | as written, a template with more than one but not every pixel True, sampled once per True pixel, is refused, while the corrected builder accepts it |
| `Masks.BuildWarpedCounterexamples` | menpo/image/boolean.py:366-369 | the discrepancy on concrete templates of shape (1, 3) and (1, 2) |
| `Masks.WarpOrder` | menpo/image/boolean.py:348-354 | a missing order defaults to 0; any order other than 0 raises naming that order; the order used is always 0 |
| `BooleanImages.BooleanImage.Value` | menpo/image/boolean.py:80-88 | the mask of a valid image is a valid mask |
| `BooleanImages.BooleanImage.FromData` | menpo/image/boolean.py:29-41 | non-boolean mask data is coerced: each pixel is True iff its datum is non-zero, in a fresh array of the given shape |
| `BooleanImages.BooleanImage.FromBools` | menpo/image/boolean.py:29-41 | boolean mask data is copied unchanged into a fresh array of the given shape |
| `BooleanImages.BooleanImage.Blank` | menpo/image/boolean.py:43-78 | fails with the rounding-mode error iff `round` is invalid; otherwise a fresh image holding the blank mask |
| `BooleanImages.BooleanImage.Copy` | menpo/image/boolean.py:163-181 | a fresh image with its own fresh array, the same shape and the same pixels |
| `BooleanImages.BooleanImage.FromVector` | menpo/image/boolean.py:183-214 | fails iff the vector's length differs from `n_pixels`; otherwise a fresh image of the receiver's shape whose pixels are the vector |
| `BooleanImages.BooleanImage.InvertInplace` | menpo/image/boolean.py:216-221 | the pixels are rebound to a fresh array holding their negation; the shape is unchanged |
| `BooleanImages.BooleanImage.Invert` | menpo/image/boolean.py:223-237 | a fresh image holding the negated pixels; the receiver is unchanged |
| `BooleanImages.BooleanImage.BoundsFalse` | menpo/image/boolean.py:280-314 | equals `bounds_true` of the inverted mask with the same boundary and constraint |
| `BooleanImages.BooleanImage.AssignMasked` | menpo/image/boolean.py:369 | `pixels[mask] = values` in place: accepted iff there is one value per True pixel or a single value, giving the scattered mask; otherwise the pixels are unchanged |
| `BooleanImages.BooleanImage.BuildWarpedImage` | menpo/image/boolean.py:359-370 | the corrected builder: a fresh copy of the template whose True pixels hold the samples, failing exactly when the corrected builder fails |

## Findings

| source | as written | input that shows it | evidently intended | confidence | as-written member | corrected member |
|---|---|---|---|---|---|---|
| menpo/image/boolean.py:366-369 | the warped mask starts as an all-True blank of the template's shape. It therefore needs one sampled value per pixel of the template. | A template of shape (1, 3) with pixels [True, True, False] is sampled at its 2 True pixels (lines 326-329: the transform is used for each True pixel of the template). The assignment into 3 True cells then raises. A template of shape (1, 2) with pixels [True, False] gives 1 sample, which is broadcast over both cells, so the template's False pixel comes out sampled. | Write the samples into the template's own True cells and leave its False cells False. This is the same as the as-written builder when the template is all True. | medium; not executed; depends on the base class sampling only the template's True pixels, as the docstring at lines 326-329 says | `Masks.BuildWarpedCounterexamples` | `Masks.WarpedFromTemplateSpec` |

## Left out

- `proportion_true`, `proportion_false` and `__str__` use floating-point division and percentage formatting. They are not modelled.
- `blank` with floating-point shapes is not modelled. Shapes are `seq<nat>`, so `np.ceil`/`np.round`/`np.floor` would leave them unchanged. Only the validation of `round` is kept.
- The `copy` flag and the C-contiguity warning in `__init__` concern numpy memory layout, not values. The model always copies into a fresh array. The same applies to the `copy` flag of `from_vector`.
- Landmarks are opaque objects that `copy` and `from_vector` pass through. They are not part of this model.
- `warp_to`'s delegation to the base class's `warp_to` and the interpolation itself are not part of this model. Only the order guard (`Masks.WarpOrder`) is. The sampled values the interpolator would produce are a parameter of `BuildWarpedImage` (a single channel). The corrected builder expects one value per True pixel of the template; the as-written `Masks.BuildWarped` expects one per pixel.
- `constrain_points_to_bounds` belongs to the base class and is not part of this model. `BoundsTrue` takes it as the function parameter `constrain` and applies it to `mins` and `maxes` when `constrainToBounds` is set.
- Masks.BoundsTrueTight: states the bounds only for `constrainToBounds == false`. With the flag set, the result is `constrain` applied to those bounds, and nothing more is known without the base class.
- Masks.BoundsFalseTight: states the unconstrained case only, for the same reason.
- The base `Image` class is not part of this model. The model assumes four things about it: `n_pixels` is the product of the shape; `indices` lists every multi-index in row-major order; pixels are stored in row-major order; and it refuses masks with no spatial axis, which the model writes as `|shape| >= 1` in `Valid()`.
- BooleanImages.BooleanImage.BuildWarpedImage: follows the corrected builder (see Findings), not the all-True blank the code starts from. The as-written behaviour is `Masks.BuildWarped`.
- `BuildWarpedImage` is static, because `_build_warped_image` never reads `self`.
- Explicitly passing `order=None` to `warp_to` is not modelled. `Option` cannot tell it apart from a missing order; the source would raise for it.
- numpy reductions and indices are unbounded integers here. No integer width is modelled, because indices and counts stay within the image's size.
