# Multi-scale sliding-window face detection, modelled in Dafny

This project models the detection core of `pyramid_default.py`. That file holds a
multi-scale, fixed-window face detector with four stages:

- **Image pyramid** (`pyramid`). It yields the original image first. It then repeatedly
  divides both dimensions by `scale`, truncates them, and resizes. It stops the first time
  a level falls below the minimum size. The detector uses the default minimum of 30 × 30.
- **Sliding window** (`sliding_window`). It yields every stride offset, rows (`y`) in the
  outer loop and columns (`x`) in the inner loop. The patch is clipped at the bottom and
  right edges, the way array slicing clips it.
- **Detection collector** (`pyramid_sliding_window_detection`). It skips clipped windows
  and asks the classifier about every full-size window. It records `(x, y, p)` when
  `p >= prob_threshold`. Each level's list is tagged with the scale factor
  `originalHeight / levelHeight`. A second pass then rewrites every entry in place into
  the box `(x·f, y·f, (x+winW)·f, (y+winH)·f, p)`. `clean_faces` flattens the per-level
  lists.
- **Non-maximum suppression** (`non_max_supp`). It sorts by score, highest first. It then
  repeatedly pops the **last** element, so the box kept at each step is the
  **lowest**-scored box still remaining. Every remaining box whose overlap with the kept
  box is at or above `iou_threshold` is discarded. The model keeps this behaviour as the
  code has it.

Modules and files:

| file | module | source part |
|---|---|---|
| `pyramid.dfy` | `Pyramid` | `pyramid` and the per-level scale factor |
| `sliding_window.dfy` | `SlidingWindow` | `sliding_window` |
| `suppression.dfy` | `Suppression` | `non_max_supp` and the stable descending sort |
| `detection.dfy` | `Detection` | `pyramid_sliding_window_detection`, `clean_faces` |

An image is modelled by its size only. The classifier followed by the softmax is a
parameter: a total function from (level index, x, y) to the positive-class probability.
The overlap measure (`intersection_over_union` from `iou.py`, which is not part of this
model) is a parameter `(Rect, Rect) -> real`. The two module-level thresholds
(`iou_threshold = 0.2`, `prob_threshold = 0.999`) are parameters of the pipeline.

The Python list that first holds `(x, y, p)` triples and then 5-tuples is modelled by
`Detection.Entry`, with one case for each shape (`Raw` and `Scaled`). The in-place rewrite
is an index-by-index update of that list inside nested loops. An image of height 0 makes
the scale factor of the first level divide by zero. The model returns
`Err(ZeroDivision)` in that case, before the classifier is ever called.

The suppression loop keeps the lowest-scored remaining box first, not the highest, and the
model keeps that order (`Suppression.TwoBoxes` shows it on two boxes). The collector
decides whether a window is clipped by comparing the patch's shape with `(winH, winW)`,
and so does the model; `SlidingWindow.Extent` proves that the patch has that shape
exactly when the window lies inside the level.

## Model

| member | source | states |
|---|---|---|
| `Pyramid.Trunc` | pyramid_default.py:16-17 | `int()` of a non-negative quotient is its floor: `n <= r < n + 1` |
| `Pyramid.Shrink` | pyramid_default.py:16-19 | the next level is never larger in either dimension, and is strictly smaller in every positive dimension (for `scale > 1`) |
| `Pyramid.Below` | pyramid_default.py:14-26 | every generated level fits the minimum; the first is the shrunk input, each next one is the shrunk previous one; the shrunk last one does not fit (generation stops the first time) |
| `Pyramid.Levels` | pyramid_default.py:10-26 | the first level is the original; each later level is the shrunk previous level and fits the minimum; the level after the last would not fit |
| `Pyramid.SmallImageSingleLevel` | pyramid_default.py:21-24 | an original already under the minimum yields exactly one level, itself |
| `Pyramid.LevelsStrictlyDecrease` | pyramid_default.py:16-19 | with positive minimums, a later level is strictly smaller than any earlier one in both dimensions and has positive size |
| `Pyramid.Factor` | pyramid_default.py:47 | the scale factor is positive, and it is 1 when the level has the original height |
| `Pyramid.FactorsIncrease` | pyramid_default.py:47 | the factor of the first level is 1 and it strictly increases from any level to any later one |
| `SlidingWindow.Offsets` | pyramid_default.py:31-32 | `range(0, n, step)`: the i-th offset is `i·step`, all are below `n`, and their number `k` satisfies `k·step >= n > (k-1)·step` (a ceiling) |
| `SlidingWindow.OffsetsCount` | pyramid_default.py:31-32 | the number of offsets is `(n + step - 1) / step`, the ceiling of `n / step` |
| `SlidingWindow.Extent` | pyramid_default.py:34 | a clipped slice has at most the requested size and equals it exactly when the window fits inside the axis; otherwise it reaches the edge |
| `SlidingWindow.Rows` | pyramid_default.py:31-34 | the nested loops yield one window per pair of row and column offsets, so the number of windows is the product of the two offset counts |
| `SlidingWindow.Windows` | pyramid_default.py:29-34 | the number of windows is the length of `range(0, H, s)` times the length of `range(0, W, s)`, and there are none exactly when the image has no rows or no columns |
| `SlidingWindow.WindowsRowMajor` | pyramid_default.py:29-34 | exactly `ceil(H/s)·ceil(W/s)` windows; the one at index `i·ceil(W/s) + j` has offset `(j·s, i·s)` and patch extent `min(winW, W-x) × min(winH, H-y)` (row-major, `y` outer) |
| `SlidingWindow.WindowInside` | pyramid_default.py:29-34 | every yielded window starts inside the image and its patch has the clipped extent at its offset |
| `Detection.Candidates` | pyramid_default.py:49-68 | one level's candidates number at most its windows, are raw triples, and each has `p >= threshold` |
| `Detection.CandidatesExactly` | pyramid_default.py:49-68 | an entry is recorded iff it is `(x, y, classify(x, y))` for a full-size window of the scan whose probability reaches the threshold |
| `Detection.LevelCalls` | pyramid_default.py:51-59 | one level's classifier calls are at most one per window and all at that level |
| `Detection.LevelCallsExactly` | pyramid_default.py:51-59 | the classifier is called on a window of a level's scan if and only if the window has the full window size |
| `Detection.ScanCallsExactly` | pyramid_default.py:45-59 | over all scanned levels, the classifier is called at `(level, x, y)` if and only if that level's scan has a full-size window at `(x, y)` |
| `Detection.ScanLevel` | pyramid_default.py:46-69 | the loop over one level's windows records exactly that level's candidates and calls the classifier exactly once per full-size window, each lying inside the level |
| `Detection.LevelHeights` | pyramid_default.py:45-47 | every level the detector scans has a positive height, so the scale factor is defined |
| `Detection.RawGroups` | pyramid_default.py:44-72 | there is one group per pyramid level |
| `Detection.CollectCandidates` | pyramid_default.py:44-72 | the nested loops build one group per level, holding its scale factor and its candidates in scan order; the classifier calls are exactly the full-size windows of every level, in scan order, each inside its level |
| `Detection.GroupFactorsIncrease` | pyramid_default.py:47 | the first group's factor is 1 and the factors strictly increase from group to group |
| `Detection.ScaleEntry` | pyramid_default.py:82-89 | the box keeps the probability; its width and height are `winW·f` and `winH·f`; at `f = 1` it is `(x, y, x+winW, y+winH, p)` |
| `Detection.RescaleGroups` | pyramid_default.py:77-89 | the in-place pass keeps the number of groups, each group's factor and length, and turns entry `i` of group `j` into `(x·f, y·f, (x+winW)·f, (y+winH)·f, p)` with `f` the group's factor |
| `Detection.Rescaled` | pyramid_default.py:77-89 | rescaling keeps the groups, their factors and their lengths; every entry becomes a box whose score is the entry's probability |
| `Detection.OriginalLevelBoxes` | pyramid_default.py:77-89 | at the original level the box of `(x, y, p)` is `(x, y, x+winW, y+winH, p)` |
| `Detection.Concat` | pyramid_default.py:118-126 | every entry of the flattened list comes from some group |
| `Detection.ConcatAppend` | pyramid_default.py:118-126 | flattening keeps level order: the flattening of `a + b` is that of `a` followed by that of `b` |
| `Detection.NonEmpty` | pyramid_default.py:122-123 | the non-empty groups are no more than all groups, and each holds a detection |
| `Detection.ConcatCountAndEmpty` | pyramid_default.py:118-126 | the flattened length is the sum of the group lengths, and dropping the empty groups does not change the result |
| `Detection.ConcatHas` | pyramid_default.py:118-126 | every detection of every group appears in the flattened list |
| `Detection.CleanFaces` | pyramid_default.py:118-126 | the loop that skips empty groups and appends the rest yields exactly the in-order concatenation of all groups |
| `Detection.AllBoxes` | pyramid_default.py:44-93 | every box handed to suppression scores at least the probability threshold |
| `Detection.AllBoxesSound` | pyramid_default.py:44-93 | every box handed to suppression is the scaled box of a full-size window at some level whose probability reaches the threshold |
| `Detection.AllBoxesComplete` | pyramid_default.py:44-93 | the scaled box of every full-size window whose probability reaches the threshold is handed to suppression |
| `Detection.Detections` | pyramid_default.py:37-96 | the returned boxes are drawn from the collected boxes, each at most as often, and no two overlap at or above the suppression threshold |
| `Detection.PyramidSlidingWindowDetection` | pyramid_default.py:37-96 | fails with a division by zero exactly when the image has height 0, and then calls nothing; otherwise returns the suppressed boxes of all levels, pairwise below the overlap threshold, and the classifier calls are exactly those of every level's scan, in order; every classifier call is on a window inside its level |
| `Detection.DetectionsSound` | pyramid_default.py:37-96 | every returned box is the scaled box of a full-size window at some level whose probability reaches the threshold |
| `Detection.DetectionsComplete` | pyramid_default.py:37-96 | the box of every full-size window whose probability reaches the threshold is returned, or a returned box overlaps it at or above the suppression threshold |
| `Suppression.Insert` | pyramid_default.py:101 | inserting into a list sorted by decreasing score keeps it sorted and adds exactly that box |
| `Suppression.SortByScoreDesc` | pyramid_default.py:101 | the result is sorted by decreasing score and is a permutation of the input |
| `Suppression.Survivors` | pyramid_default.py:106-113 | the comprehension keeps a box if and only if its overlap with the chosen box is below the threshold, keeps nothing else, and keeps a sorted list sorted |
| `Suppression.SurvivorsCount` | pyramid_default.py:106-113 | every copy of a box below the threshold is kept and every copy of any other box is dropped |
| `Suppression.Greedy` | pyramid_default.py:103-114 | the kept boxes are a sub-multiset of the remaining ones, and the first kept is the last element of the list |
| `Suppression.PopAndFilter` | pyramid_default.py:103-114 | the `while`/`pop` loop, with the kept list growing at its end, computes exactly the greedy suppression of the list it starts from |
| `Suppression.Suppressed` | pyramid_default.py:99-115 | for a non-empty input the result is non-empty and its first box is an input box with the lowest score of the whole input |
| `Suppression.NonMaxSupp` | pyramid_default.py:99-115 | sorting and then the loop give the suppression of the input; the output is a sub-multiset of the input, is non-empty for non-empty input, is pairwise below the threshold and has non-decreasing scores |
| `Suppression.SuppressedProperties` | pyramid_default.py:99-115 | suppression returns a sub-multiset of its input, non-empty for non-empty input, pairwise below the threshold, by non-decreasing score |
| `Suppression.GreedyPairwise` | pyramid_default.py:106-114 | for kept boxes `i < j`, `overlap(kept[i], kept[j]) < threshold` |
| `Suppression.GreedyLowestFirst` | pyramid_default.py:101-104 | on a list sorted by decreasing score, the box kept first has the lowest score of all, and kept scores never decrease |
| `Suppression.GreedyCovers` | pyramid_default.py:106-113 | a box that is not kept overlaps some kept box at or above the threshold |
| `Suppression.GreedyKeepsLowOverlap` | pyramid_default.py:103-114 | on a list with no overlap at or above the threshold, the loop keeps every box (last first) |
| `Suppression.SortLowOverlap` | pyramid_default.py:101 | sorting keeps a list free of overlaps at or above the threshold |
| `Suppression.SuppressionIdempotent` | pyramid_default.py:99-115 | with a symmetric overlap measure, suppressing the output again returns the same boxes, each as often |
| `Suppression.TwoBoxes` | pyramid_default.py:99-115 | with two boxes of different scores, the lower-scored one is always kept; the higher-scored one survives only when the overlap of the kept box with it is below the threshold |

`Pyramid.Fits` and `Detection.ScanCalls` have no contract of their own. The rows of
`Pyramid.Below` and `Pyramid.Levels` state what `Fits` decides (the stop test at
`pyramid_default.py:23`). The rows of `Detection.ScanCallsExactly`,
`Detection.CollectCandidates` and `Detection.PyramidSlidingWindowDetection` state what
`ScanCalls` holds. `SlidingWindow.Row` builds one row for `SlidingWindow.Rows` and is a helper.

## Left out

- Pixel data and resampling: only sizes are modelled, and the resize primitive returns exactly the requested size. The resize primitive's own failure on a zero-sized target is not modelled.
- The classifier network and the softmax are replaced by an abstract probability function of (level, x, y). No tensor shapes and no floating-point evaluation are modelled.
- `intersection_over_union` (`iou.py`) is not part of this model. It is a parameter. Symmetry is used only as the explicit precondition of `Suppression.SuppressionIdempotent`.
- Floating-point rounding: quotients and scale factors are exact reals, and `int()` on a non-negative quotient is its floor.
- The `print` calls and the unused copy of the input image have no effect on the result and are left out.
- The module-level thresholds are parameters rather than globals.
- The generators are finite sequences. Laziness is not modelled: the model computes every pyramid level before scanning, which gives the same results.
- `Pyramid.Levels` requires `scale > 1` and a positive minimum in at least one dimension. Every other case is excluded, and each behaves differently in the source:
  - `scale == 0`: the division at `pyramid_default.py:16` raises `ZeroDivisionError` once the first level has been scanned.
  - `scale < 0`: the computed sizes are negative or zero, and the resize primitive fails.
  - `0 < scale <= 1`: a level never shrinks, so the loop never ends once the first computed level fits; if it does not fit, only the original is produced.
  - `scale > 1` with a zero minimum in both dimensions: under the resize abstraction a level of size zero keeps fitting and shrinking to itself, so the loop never ends.
- `SlidingWindow.Offsets` requires a positive step. A zero step makes `range` raise an error, and a negative step yields nothing; neither case is modelled.
- Window sizes are natural numbers. Negative sizes, which slicing would interpret from the end, are not modelled.
- `Detection.RescaleGroups` requires every entry to still be a raw triple, which is what the collector produces. Rescaling an already rescaled 5-tuple is not modelled.
- `Suppression.SortByScoreDesc` is a stable insertion sort, as Python's `sorted` is stable. The stability itself is not stated as a property.
- `Suppression.SuppressionIdempotent`: states that the second run returns the same boxes with the same multiplicities, not in the same order. The second run keeps every box and emits them from the lowest score up, which can differ from the first run's order among equal scores.
- `Suppression.GreedyCovers`: states that some kept box overlaps each discarded box. It does not say that this box was chosen before the discarded box was removed.
- `Suppression.GreedyLowestFirst`: states the minimum property for the box kept first and non-decreasing scores after it. The same lemma applied to the list that remains at each later step gives the per-step minimum; no separate statement is made for it.
