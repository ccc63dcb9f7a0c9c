# Frame ranking and stacking buffer arithmetic

A Dafny model of two stages of a lucky-imaging stacking pipeline.

**Frame ranking** (`ranking.dfy`, `rank_frames.dfy`). The ranker holds a quality value for every
video frame. It does the following:

- It sorts the frame indices by descending quality with a stable sort, so equal qualities keep
  ascending frame order.
- It builds the inverse permutation, which gives the rank of each frame.
- It takes the best frame and divides all qualities by the best one.
- It can restrict these tables to a subset of the frames and later restore them.
- It finds the best `number_frames` frames whose indices all lie in one window of `region_size`
  consecutive frames. For that choice it reports the quality loss against the unrestricted best
  frames and the mean position of the chosen frames on the time line.

The ranker is the class `RankFrames.RankFrames`. Its two table sets, for the full frame list and
for the current list, are `RankTables` values. The sort, the inverse, the window choice and the
sums are pure functions in the module `Ranking`.

**Stacking** (`weights.dfy`, `grids.dfy`, `background_tiles.dfy`, `shift_statistics.dfy`,
`stack_frames.dfy`). Every alignment point owns a rectangular patch of the drizzled image and a
stacking buffer of the patch's shape. The stacking stage works as follows:

- Along each axis a patch's blending weight is a triangular ramp. It is 1 at the alignment point
  and falls towards the patch borders, except on a side that touches the image border.
- The 2-D weight of a pixel is the smaller of its two 1-D weights.
- The weights of all patches, for a full stack, are added into a weight buffer that starts at
  1e-30.
- Pixels still below 1e-10 are stacking holes. When there are holes, the image may be cut into
  squares, and the squares that contain pixels needing the background are listed.
- For each frame and each alignment point that uses the frame, the measured warp shift is
  counted in a histogram of rounded shift lengths, or in a failure counter.
- The frame's patch, shifted by the total shift and clipped to the frame, is added into the
  point's stacking buffer. The widest overshoot on each side is recorded as a border width.
- Finally the buffers are merged with the weights, divided by the weight buffer, and blended
  with a background where the weight is low. The result is trimmed by the border widths.
- A text table of the shift histogram is produced for the protocol.

The stacking state is the class `StackFrames.StackFrames`. It has:

- 2-D `array2<real>` buffers that its methods update in place;
- a `seq` of stacking buffers, one per alignment point;
- an `array<nat>` histogram.

Buffer operations are proved against specification functions that give each cell's value in
terms of the old state. These functions are `AccumulatedWeight`, `Contribution`/`Stacked`,
`MergedSum`, `Normalised`, `FinalPixel` and `Tiles`. Lemmas then prove what the program and its documentation promise
about those functions.

The normalisation `frame_ranks /= max` divides a Python list by the best quality, a numpy
scalar. Its reflected division turns the list into an array and divides every element, and the
model divides every quality the same way.

Scores, frames and warp shifts are inputs. Values are exact reals, and histogram buckets are
exact integers (`RoundedRoot` is round(sqrt(n)) computed in integers).

Where the code and its description differ, the model follows the code:

- The background squares end at `min(low + size, dim - 1)`, so the last image row and column
  never belong to a square, and a square of zero height or width is skipped.

## Model

| member | source | states |
|---|---|---|
| Ranking.Insert | src/rank_frames.py:129-130 | inserting a frame into a ranking-ordered list keeps it ranking-ordered and adds exactly that frame |
| Ranking.RankOrder | src/rank_frames.py:129-130 | the sorted index list is in ranking order (descending quality, ties by ascending index) and a permutation of lo..hi-1 |
| Ranking.SortedArrangementUnique | src/rank_frames.py:129-130 | two ranking-ordered lists of the same frames are equal, so the stable sort's result is unique |
| Ranking.RankOrderIsTheStableSort | src/rank_frames.py:129-130 | any ranking-ordered permutation of lo..hi-1 is RankOrder, i.e. sorted(..., reverse=True) |
| Ranking.FirstIsBest | src/rank_frames.py:141-142 | the first sorted frame has the maximal quality and is the earliest frame with it |
| Ranking.IndexOf | src/rank_frames.py:134-135 | list.index: the first position holding x, and x is found whenever it occurs |
| Ranking.RankIndices | src/rank_frames.py:134-135 | every frame's rank points back at it: sorted[rank[i]] == i |
| Ranking.RankIndicesInverse | src/rank_frames.py:134-135 | rank[sorted[k]] == k, and the rank list is itself a permutation |
| Ranking.NormalisedRange | src/rank_frames.py:141-143 | after division by a positive maximum the best frame has quality 1 and every quality lies in [0, 1] |
| Ranking.NormalisedKeepsOrder | src/rank_frames.py:143 | dividing by a positive value leaves the ranking order of every pair of frames unchanged |
| Ranking.RankSumNonNegative | src/rank_frames.py:233 | a sum of non-negative qualities is non-negative and at least its first term |
| Ranking.RankSumMonotone | src/rank_frames.py:240-241 | sums of equally long lists compare like their terms |
| Ranking.RankDominated | src/rank_frames.py:240-241 | the i-th frame of any ranking-ordered selection is no better than the i-th best frame overall |
| Ranking.TopSumDominates | src/rank_frames.py:240-242 | no ranking-ordered selection of k frames has a larger quality sum than the global top k |
| Ranking.WindowBest | src/rank_frames.py:230-232 | the window's top count frames: in ranking order, inside the window, and ahead of every window frame left out |
| Ranking.IndexSumBounds | src/rank_frames.py:246 | the sum of indices in [lo, hi) lies between lo and hi-1 times the count |
| RankFrames.RankFrames.constructor | src/rank_frames.py:63-75 | a ranker for frameCount frames starts with empty tables |
| RankFrames.RankFrames.FrameScore | src/rank_frames.py:80-152 | unknown method raises NotSupportedError and changes nothing; otherwise the sorted list is RankOrder of the scores and the rank list is its inverse; no frames is IndexError, which leaves the quality list empty and the best frame, number and current tables unchanged; a best score of 0 (all scores 0) is reported as ZeroMaximum; on success the tables are consistent, the maximum is the best frame's score, the qualities are the scores divided by it, and current equals original |
| RankFrames.RankFrames.SetIndexTranslation | src/rank_frames.py:154-184 | number is the translation's length; the current tables are the original qualities of the kept frames, re-sorted, inverted and normalised by the best kept frame; the original tables are unchanged; an empty translation is IndexError, and a non-empty selection whose qualities are all 0 is ZeroMaximum |
| RankFrames.RankFrames.ResetIndexTranslation | src/rank_frames.py:186-198 | the current tables and number become the original ones again, which are unchanged, so set followed by reset returns to the state frame_score left |
| RankFrames.RankFrames.FindBestFrames | src/rank_frames.py:200-248 | ArgumentError when number_frames > region_size or region_size > number; ZeroDivisionError for zero frames; otherwise the indices are the top frames of the earliest window with the maximal positive quality sum, with loss in [0, 100) against the global top sum and a time-line position in [0, 100) |
| RankFrames.SearchWindows | src/rank_frames.py:228-236 | the sliding-window loop keeps the earliest window with the largest positive sum (strict >), or none when no sum is positive |
| RankFrames.NoPositiveScore | src/rank_frames.py:141-143 | a zero best score means no score is positive |
| RankFrames.GlobalSum | src/rank_frames.py:240-242 | the global top-k quality sum is 0 for k = 0 and at least 1 otherwise |
| RankFrames.LossWithinBounds | src/rank_frames.py:240-242 | the global top sum is at least any window's sum, so the unrounded quality loss lies in [0, 100) |
| RankFrames.PositionWithinBounds | src/rank_frames.py:246 | the mean index of a window's frames gives a time-line position in [0, 100) |
| RankFrames.NormalisedTables | src/rank_frames.py:141-143 | dividing non-negative scores by the best one yields consistent tables with the same sorted list and inverse |
| RankFrames.BestWindowPositive | src/rank_frames.py:228-236 | some window has a positive sum once a frame is asked for, so find_best_frames always chooses a window |
| RankFrames.WindowWithPositive | src/rank_frames.py:230-234 | a window holding a frame of positive quality has a positive top-frame sum |
| RankFrames.LossBounds | src/rank_frames.py:242 | 100 * (global - chosen) / global lies in [0, 100) when 0 < chosen <= global |
| RankFrames.PositionBounds | src/rank_frames.py:246 | 100 * mean / number lies in [0, 100) when the mean is at most number - 1 |
| Weights.OneDimWeight | src/stack_frames.py:658-700 | the ramp has the patch's length, every weight lies in (0, 1], and the centre weight is 1 |
| Weights.RampWeight | src/stack_frames.py:683-698 | each ramp entry lies in (0, 1] and is 1 at the centre offset |
| Weights.OneDimWeightEnds | src/stack_frames.py:670-672 | without extension the ramp starts at 1/(c+1) and ends at 1/(high - centre) |
| Weights.OneDimWeightRises | src/stack_frames.py:683-688 | below the centre the weights rise strictly, or are all 1 when the low side is extended |
| Weights.OneDimWeightFalls | src/stack_frames.py:693-698 | from the centre on the weights fall strictly, or are all 1 when the high side is extended |
| Weights.OneDimWeightAtLeast | src/stack_frames.py:676-698 | no weight of a patch of at most bound cells is below 1/bound |
| Weights.PatchWeights | src/stack_frames.py:186-197 | the outer minimum has one row per y weight and one column per x weight |
| Weights.PatchWeightsAreMinimum | src/stack_frames.py:186-197 | each 2-D weight is at most both 1-D weights and equals one of them |
| Weights.ExtendFlags | src/stack_frames.py:180-183 | a side is extended exactly when the patch bound is 0 or the drizzled dimension |
| Weights.APWeights | src/stack_frames.py:171-197 | weights_yx has the patch's shape, lies in (0, 1], and is 1 at the alignment point |
| Weights.APWeightsFlatAtRowBorder | src/stack_frames.py:177-191 | a patch on the top or bottom image border repeats the centre row towards that border |
| Weights.APWeightsFlatAtColumnBorder | src/stack_frames.py:177-197 | a patch on the left or right image border repeats the centre column towards that border |
| Weights.APWeightsPeakAtCentre | src/stack_frames.py:186-197 | no weight exceeds the weight at the alignment point |
| Weights.APWeightsAtLeast | src/stack_frames.py:186-197 | no 2-D weight of a patch with sides at most bound is below 1/bound |
| Weights.WeightsAtLeast | src/stack_frames.py:171-197 | the weights of all points are at least 1/bound when every patch side is at most bound |
| Weights.CoverageSign | src/stack_frames.py:208-213 | a pixel's summed weight is non-negative, and positive exactly when a patch covers it |
| Weights.CoverageAtLeast | src/stack_frames.py:208-213 | a covered pixel's summed weight is at least the least weight |
| Grids.CountBelowZero | src/stack_frames.py:213 | count_nonzero(a < t) is 0 exactly when no cell is below t |
| Grids.CountBelowAtMostArea | src/stack_frames.py:233-235 | the count never exceeds the number of cells |
| Grids.CountCellsBelow | src/stack_frames.py:265-271 | the counting loop returns count_nonzero(a[y0:y1, x0:x1] < t) |
| Grids.AddBlock | src/stack_frames.py:208-210 | buf[y0:y0+h, x0:x0+w] += k * m: each cell grows by k times the placed block and nothing else changes |
| Grids.AddRegion | src/stack_frames.py:558-559 | target rectangle cells grow by the matching source cells; all other cells are unchanged |
| Grids.AddProduct | src/stack_frames.py:587-589 | the patch rectangle grows by stacking_buffer * weights_yx; all other cells are unchanged |
| Grids.DivideCells | src/stack_frames.py:596-597 | every cell is divided by the matching weight cell |
| Grids.Clip01 | src/stack_frames.py:615 | clip(v, 0, 1) lies in [0, 1] and keeps values already in it |
| Grids.BlendEnds | src/stack_frames.py:623-624 | weight 0 shows the background, weight 1 the stacked value, and a weight in between a value between them |
| Grids.BlendWithBackground | src/stack_frames.py:612-624 | a fresh buffer whose every cell is (stacked - background) * clip(weight / scale, 0, 1) + background |
| Grids.SliceBounds | src/stack_frames.py:631-633 | numpy slice bounds always select a range inside [0, n] |
| Grids.SliceBoundsInRange | src/stack_frames.py:631-633 | within range a slice keeps exactly the requested rows |
| Grids.CutOut | src/stack_frames.py:631-633 | a fresh copy of a[y0:y1, x0:x1] |
| ShiftStatistics.RoundedRoot | src/stack_frames.py:391 | the rounded root never exceeds its argument |
| ShiftStatistics.RoundedRootIsRounded | src/stack_frames.py:391 | (r - 1/2)^2 < n < (r + 1/2)^2, i.e. r is round(sqrt(n)) |
| ShiftStatistics.RoundedRootUnique | src/stack_frames.py:391 | the rounded root is the only value with that property |
| ShiftStatistics.RoundedRootOfSquare | src/stack_frames.py:391 | a shift of exact length k falls in bucket k |
| ShiftStatistics.Failures | src/stack_frames.py:392-393 | there are no more failures than measurements |
| ShiftStatistics.SumBucketsCountsSuccesses | src/stack_frames.py:481 | the histogram sum counts the successful measurements in the summed buckets |
| ShiftStatistics.EveryMeasurementCounted | src/stack_frames.py:390-393 | successes in range plus failures make up all measurements |
| ShiftStatistics.HistogramConservation | src/stack_frames.py:481-482 | sum(shift_distribution) + shift_failure_counter equals the number of measurements |
| ShiftStatistics.FailurePercent | src/stack_frames.py:483-488 | -1 exactly when there are no entries; otherwise in [0, 100], 0 exactly without failures and 100 exactly when all failed |
| ShiftStatistics.ShiftTableColumns | src/stack_frames.py:711-713 | the column count is one past the last non-zero bucket, and every later bucket is 0 |
| ShiftStatistics.ColumnsIffNonZero | src/stack_frames.py:711 | the table has columns exactly when max(shift_distribution) > 0 |
| ShiftStatistics.Decimal | src/stack_frames.py:722 | the digits of a number are decimal digits |
| ShiftStatistics.DecimalRoundTrip | src/stack_frames.py:722 | reading the printed digits back gives the number |
| ShiftStatistics.DecimalLength | src/stack_frames.py:722 | a number below 10^k has at most k digits |
| ShiftStatistics.PadLeft | src/stack_frames.py:722 | {:7d} right-aligns with spaces and never truncates |
| ShiftStatistics.HeadersAligned | src/stack_frames.py:716-718 | the three header strings are equally wide |
| ShiftStatistics.CellsAligned | src/stack_frames.py:721-723 | shift cells and rule segments are nine characters each, so the lines are equally long |
| ShiftStatistics.TableLines | src/stack_frames.py:716-729 | the loop builds the shift line, the rule line and the bucket percentages for n columns |
| ShiftStatistics.BucketPercentsStep | src/stack_frames.py:724 | one more column appends that bucket's percentage |
| ShiftStatistics.BucketPercentsSum | src/stack_frames.py:724 | the printed percentages sum to 100 times the summed buckets over the total |
| ShiftStatistics.PrintedBucketShare | src/stack_frames.py:711-724 | the printed percentages account for all successful measurements |
| ShiftStatistics.PercentagesComplete | src/stack_frames.py:720-734 | the bucket percentages and the failure percentage add up to 100 |
| ShiftStatistics.SumBucketsAtLeast | src/stack_frames.py:481-482 | a non-zero bucket makes the entry total positive |
| BackgroundTiles.TileHigh | src/stack_frames.py:249-251 | the square ends at min(low + size, dim - 1) |
| BackgroundTiles.RowTilesSound | src/stack_frames.py:256-277 | every square listed for a row is a tile of that row that needs the background |
| BackgroundTiles.TilesSound | src/stack_frames.py:247-277 | every listed patch starts on a multiple of the size, is non-empty, ends by dim - 1, and holds a pixel below the threshold |
| BackgroundTiles.RowTilesComplete | src/stack_frames.py:256-277 | every tile of a row that needs the background is listed |
| BackgroundTiles.TilesComplete | src/stack_frames.py:247-277 | every square of the tiling that holds a pixel below the threshold is listed |
| BackgroundTiles.TilesSuffix | src/stack_frames.py:247-255 | a square listed from a later row of squares is listed from an earlier one |
| BackgroundTiles.ListBackgroundPatches | src/stack_frames.py:244-277 | the nested tiling loop returns exactly Tiles, in row-major order |
| BackgroundTiles.ListRowPatches | src/stack_frames.py:256-277 | the inner loop returns exactly the row's listed squares |
| BackgroundTiles.PatchNeedsBackground | src/stack_frames.py:265-271 | the drizzled region holds a pixel below the threshold |
| StackFrames.NoHolesIffCovered | src/stack_frames.py:213-216 | the hole count is 0 exactly when the patches cover every pixel |
| StackFrames.HoleIffUncovered | src/stack_frames.py:213 | a pixel is a hole exactly when no patch covers it |
| StackFrames.AddWeightsOf | src/stack_frames.py:208-210 | adding one point's weights times the stack size advances the buffer from n to n + 1 points |
| StackFrames.RecordedKeepsCounted | src/stack_frames.py:390-393 | after recording, the histogram and failure counter still count exactly the measurements |
| StackFrames.BordersCoverOvershoots | src/stack_frames.py:532-551 | the border widths never shrink and are at least every overshoot so far |
| StackFrames.FlattenLength | src/stack_frames.py:367-393 | there is one measurement per (frame, alignment point) pair |
| StackFrames.TrimBounds | src/stack_frames.py:630-633 | the kept ranges lie in the image and are [low, dim - high) when the borders fit |
| StackFrames.MergedUniform | src/stack_frames.py:561-597 | if every buffer holds v, the merged pixel is v times its summed weight, so normalisation gives a uniform brightness |
| StackFrames.AccumulatedPositive | src/stack_frames.py:591-597 | the accumulated weight is at least 1e-30, so the division is defined |
| StackFrames.StackFrames.constructor | src/stack_frames.py:108-138 | zero image and stacking buffers of the right shapes, weight buffer at 1e-30, no background, zero borders |
| StackFrames.StackFrames.ComputeAPWeights | src/stack_frames.py:171-197 | every point's weights_yx is APWeights of that point |
| StackFrames.StackFrames.AccumulateWeights | src/stack_frames.py:207-210 | the weight buffer holds 1e-30 plus stack_size times the summed weights at every pixel |
| StackFrames.StackFrames.PrepareForStackBlending | src/stack_frames.py:154-279 | weights computed and accumulated, hole count, zero background buffer, and background squares listed when the share is below the fraction |
| StackFrames.StackFrames.FindHoles | src/stack_frames.py:212-244 | the hole count is count_nonzero(weights < 1e-10); with holes the background is a fresh zero image |
| StackFrames.StackFrames.ChooseBackgroundPatches | src/stack_frames.py:233-277 | when the pixels needing background are below the fraction, the patches are Tiles; otherwise unchanged |
| StackFrames.StackFrames.StartShiftStatistics | src/stack_frames.py:293-296 | a zero histogram of search_width * drizzle * 2 buckets and a zero failure counter |
| StackFrames.StackFrames.RecordShift | src/stack_frames.py:390-393 | a success increments its bucket, a failure the counter; a bucket past the end is IndexError with nothing changed |
| StackFrames.StackFrames.IncrementBucket | src/stack_frames.py:391 | shift_distribution[bucket] += 1 |
| StackFrames.StackFrames.StackFrame | src/stack_frames.py:368-454 | every used point's shift is recorded, borders widened against the frame's own size, and each buffer cell grows by the frame's contribution; IndexError exactly when a shift falls past the histogram |
| StackFrames.StackFrames.Stack | src/stack_frames.py:281-488 | the blending preparation, then all frames stacked with conserved shift statistics, failure percent and borders |
| StackFrames.StackFrames.StackWithStatistics | src/stack_frames.py:293-488 | entries total equals the number of (frame, point) pairs, and the failure percent is FailurePercent of the counters |
| StackFrames.StackFrames.StackEach | src/stack_frames.py:338-455 | the frame loop adds every frame's contributions and stops at the first IndexError |
| StackFrames.StackFrames.StackPoint | src/stack_frames.py:373-454 | one point: the shift is recorded and the shifted patch added, or IndexError |
| StackFrames.StackFrames.RemapInto | src/stack_frames.py:447-454 | only the used point's buffer changes, by the shifted frame pixels |
| StackFrames.StackFrames.MergeAlignmentPointBuffers | src/stack_frames.py:561-633 | the result has the trimmed shape and each cell is the final (normalised, blended) value of its untrimmed pixel |
| StackFrames.StackFrames.Trim | src/stack_frames.py:630-633 | the image buffer becomes its TrimBounds rectangle: the rows and columns the recorded borders leave inside the image |
| StackFrames.StackFrames.MergeAndBlend | src/stack_frames.py:574-624 | every pixel holds the normalised merge, blended with the background when there are holes |
| StackFrames.StackFrames.MergeAndNormalise | src/stack_frames.py:574-597 | every pixel holds the weighted merge divided by the accumulated weight |
| StackFrames.StackFrames.MergeBuffers | src/stack_frames.py:574-589 | every pixel holds the sum over points of stacking buffer times weights |
| StackFrames.StackFrames.MergePoint | src/stack_frames.py:583-589 | adding one point's weighted buffer advances the merge from a to a + 1 points |
| StackFrames.StackFrames.Normalise | src/stack_frames.py:591-597 | every pixel is divided by its accumulated weight |
| StackFrames.StackFrames.FinishShiftStatistics | src/stack_frames.py:480-488 | entries total is the histogram sum plus failures, equals the measurements recorded, and sets the failure percent |
| StackFrames.StackFrames.PrintShiftTable | src/stack_frames.py:702-736 | no buckets is ValueError; an all-zero histogram gives the empty string; otherwise columns run to the last non-zero bucket with their percentages and the failure percent |
| StackFrames.StackFrames.LastNonZero | src/stack_frames.py:711-713 | one past the last non-zero bucket, or 0 |
| StackFrames.StackFrames.RemapRigid | src/stack_frames.py:508-559 | each buffer cell grows by the frame pixel at the shifted position when it exists, and each border becomes the max of its old value and the overshoot past the frame's own height and width (frame.shape) |
| StackFrames.StackFrames.ClipAxis | src/stack_frames.py:527-553 | the source range is clipped to [0, size), empty when the shifted patch only touches an end, and the borders take the overshoot |

## Left out

- The quality kernels (local contrast, Laplace, Sobel, meanStdDev) and brightness normalisation: frame_score receives the per-frame scores as input. They are taken as non-negative, which the contrast and standard-deviation kernels guarantee.
- RankFrames.RankFrames.FrameScore: a best score of 0 is reported as the error ZeroMaximum; the program would divide by 0, give NaN qualities (numpy warns only) and go on. Also, it requires a ranker whose quality list is still empty. A second call would append to a list already divided into an array. Index translation of the frames object and progress signals are left out.
- RankFrames.RankFrames.SetIndexTranslation: a selection whose best quality is 0 is reported as the error ZeroMaximum; the program would give NaN qualities and go on.
- RankFrames.RankFrames.FindBestFrames: number_frames and region_size are natural numbers. A negative value, which Python accepts and slices from the end, is not modelled. Also, the loss and the position are unrounded. Python's round(..., 1) is not modelled. The StatisticsError of mean([]) cannot occur once a window is chosen, so it has no branch.
- ShiftStatistics.FailurePercent: unrounded. Python's round(..., 3) is not modelled.
- StackFrames.StackFrames.PrintShiftTable: the percent line is returned as the list of percentages, and the failure line as the failure percentage. The {:7.3f} formatting of the percentages and of the failure line is not modelled.
- StackFrames.StackFrames.Stack: like StackEach, StackFrame and StackPoint, it requires (through AllFit and PatchesMeetFrame) that every used shifted patch meets or touches its frame, which drops the source's ValueError for a patch wholly outside the frame, as explained under RemapRigid. Its ensures omit the background decision of HolesFound, which PrepareForStackBlending states.
- StackFrames.StackFrames.StackFrame: after an IndexError the model only states that the shift statistics stay consistent. The partial buffers are not described.
- StackFrames.StackFrames.RemapRigid: requires the shifted patch to meet or touch the frame on both axes, which drops the source's ValueError for a patch wholly outside the frame. For such a patch one of the two slices is empty while the other, through a negative stop, is not, so the in-place add raises ValueError (it adds nothing only when both are empty or numpy broadcasting matches them). A patch that only touches a frame edge is modelled: it adds nothing and widens that border to the patch's height or width.
- StackFrames.StackFrames.PrepareForStackBlending: requires a positive background patch size in every case. The program reaches range(0, dim_y, size), which raises ValueError for size 0, only when there are stacking holes and the background share is below the fraction (src/stack_frames.py:216-218, 240-247). With size 0 it would succeed whenever there are no holes or the share is large; the model does not cover those calls.
- StackFrames.StackFrames.MergeAlignmentPointBuffers: requires a non-zero blend limit (threshold * stack size) when there are holes; numpy would produce inf/nan there. The background is given already drizzled and divided by the stack size. The final division by 255 or 65535, the clip and img_as_uint are not modelled.
- StackFrames.HoleIffUncovered: stated for patches with sides of at most 10^9 pixels. This makes 1e-30 + stack_size * weight clear the 1e-10 threshold.
- Colour (three-channel) buffers, float32 rounding, and the drizzle and background resampling with cv2.resize: only monochrome buffers of exact reals are modelled. Each frame is given already drizzled, at its own full size; patches are clipped against that size and trimmed against the intersection of all frames.
- Background accumulation from the best frames (averaged_background += frame[...]) and its division by the stack size.
- Computing the warp shifts (compute_shift_alignment_point, the multi-level correlation weight matrix) and the global shifts: the shifts are inputs, already in drizzled pixels and rounded to integers.
- The debug visualisation, timers, progress signals, median brightness, half_stacked_image_buffer_resolution and the __main__ drivers.
