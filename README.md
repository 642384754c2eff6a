# Privacy redaction pipeline: a Dafny model

The service anonymises photographs. It finds faces and licence plates and
blurs them. A large image (either side above 2000 pixels) is cut into
overlapping 1024-pixel tiles, with a stride of 819. Each tile is sent to the
two detectors. The boxes they report are shifted back into image coordinates,
face boxes before plate boxes for each tile. Boxes that overlap are merged by
a greedy non-maximum suppression, and every remaining box is blurred in a copy
of the image. The processed image is stored under a key derived from the
input key.

This project models that core in Dafny and proves its contracts:

- `Common`: pixels, images as an `array2<Pixel>` and as a `seq` of rows,
  integer boxes, and exact ratios that stand for the float parameters.
- `Slicing`: `ImageUtils.slice_image`.
- `Merging`: `ImageUtils.merge_boxes`.
- `PrivacyBlurrer`: `PrivacyBlurrer.apply_blur`.
- `JobProcessor`: `JobProcessor.process_image_data` and the decode check and
  output key of `process_job`.

Each imperative routine is a method over the pixel buffer or the box list. It
is proved equal to a specification function, and the properties are lemmas
about that function. The face and plate detectors are function parameters of
type `Grid -> seq<Box>`. `cv2.GaussianBlur` is a function parameter whose only
required property is that it returns a region of the shape it is given
(`PrivacyBlurrer.PreservesShape`).

Three behaviours of the code that a reader might not expect are modelled as written:

- Clamping in `apply_blur` does not reduce w after `x = max(0, x)`, nor h after `y = max(0, y)`. A box that starts left of the image therefore covers [0, min(w, W)), not only its part inside the image. Even a box wholly left of the image is blurred: [-100, 10, 50, 20] on a 100×100 image blurs columns [0, 50). The model does the same (`PrivacyBlurrer.ClampLeftEdge`, `PrivacyBlurrer.ClampBoxLeftOfImage`).
- Detections are collected tile by tile: each tile contributes its faces, then its plates. Face boxes of a later tile come after plate boxes of an earlier tile (`JobProcessor.LargeImageDetections`).
- The output name replaces every ".jpg" in the file name, case-sensitively, not only a final extension (`JobProcessor.RenameEveryOccurrence`).

## Model

| member | source | states |
|---|---|---|
| Common.ToGrid | app/utils/image_utils.py:24 | the value of a pixel buffer: its rows and columns, pixel for pixel |
| Common.Crop | app/services/privacy_blurrer.py:24 | `image[y:y+h, x:x+w]` for a box inside the image has h rows of w pixels, and pixel (r, c) is image pixel (y+r, x+c) |
| Common.Paste | app/services/privacy_blurrer.py:35 | `image[y:y+h, x:x+w] = roi` keeps the shape; inside the box the pixel comes from roi, outside it is unchanged |
| Slicing.TruncDiv | app/utils/image_utils.py:12 | Python `int()` of a quotient truncates toward zero, for both signs |
| Slicing.Step | app/utils/image_utils.py:12 | the stride `int(tile_size * (1 - overlap))` is positive iff tile_size·(1 - overlap) ≥ 1, and is at most tile_size when overlap ≥ 0 |
| Slicing.StepAtMostTile | app/utils/image_utils.py:12 | for overlap ≥ 0 the truncated stride never exceeds tile_size, so neighbouring tiles leave no gap |
| Slicing.SliceImage | app/utils/image_utils.py:6-27 | a zero stride is an error (Python's `range` raises); a negative stride gives no tiles; a positive stride gives exactly the row-major tile grid `GridTiles` |
| Slicing.TileAt | app/utils/image_utils.py:18-24 | the tile at (x, y): rows [y, min(y+tile, h)) and columns [x, min(x+tile, w)) of the image, clipped at the edge and never padded, with its offset |
| Slicing.GridTiles | app/utils/image_utils.py:15-25 | the list `slice_image` builds: one tile per grid offset, in the order the two loops visit them |
| Slicing.CutTiles | app/utils/image_utils.py:15-25 | the outer loop over y produces exactly `GridTiles` of the image |
| Slicing.CutRow | app/utils/image_utils.py:16-25 | one pass of the inner loop over x appends exactly the tiles of grid row y, left to right, all inside the image |
| Slicing.RowTiles | app/utils/image_utils.py:16-25 | the tiles of the grid row at y, left to right |
| Slicing.TilesOfAppend | app/utils/image_utils.py:15-25 | cutting at two runs of offsets gives the tiles of the first run followed by those of the second |
| Slicing.TilesOfAt | app/utils/image_utils.py:24-25 | the tile list holds, in order, the tile cut at each offset |
| Slicing.TilesOf | app/utils/image_utils.py:24-25 | the tiles cut at a run of offsets, one per offset, in order |
| Slicing.RowOffsets | app/utils/image_utils.py:16 | the x values of `range(x, w, step)` for one row y, in order |
| Slicing.OffsetsFrom | app/utils/image_utils.py:15-16 | the offsets of the rows `range(y, h, step)`, each row's x offsets in turn |
| Slicing.GridOffsets | app/utils/image_utils.py:15-16 | the offsets of the two nested loops over the whole image, from row 0 |
| Slicing.RowOffsetsBounds | app/utils/image_utils.py:16 | the x offsets of one row stay below the width, in that row |
| Slicing.OffsetsFromBounds | app/utils/image_utils.py:15-16 | every offset of the walk lies inside the image |
| Slicing.OffsetsFromLength | app/utils/image_utils.py:15-16 | the walk from row y has ceil((h-y)/step)·ceil(w/step) offsets |
| Slicing.OffsetsFromAt | app/utils/image_utils.py:15-16 | offset number r·cols + c of the walk is (c·step, y + r·step) |
| Slicing.GridOffsetsAt | app/utils/image_utils.py:15-16 | offset k of the walk is ((k mod cols)·step, (k div cols)·step) |
| Slicing.GridOffsetsOrdered | app/utils/image_utils.py:15-16 | offsets come in row-major order: y first, then x |
| Slicing.TileAtContents | app/utils/image_utils.py:18-24 | the tile at (x, y) spans [x, min(x+tile, w)) by [y, min(y+tile, h)) and holds the image's pixels there |
| Slicing.TileCount | app/utils/image_utils.py:15-25 | there are ceil(h/step)·ceil(w/step) tiles |
| Slicing.TileGridComplete | app/utils/image_utils.py:15-25 | every grid point (c·step, r·step) inside the image is the offset of tile r·cols + c |
| Slicing.TileOffsets | app/utils/image_utils.py:15-25 | tile k lies at ((k mod cols)·step, (k div cols)·step), inside the image |
| Slicing.TileContents | app/utils/image_utils.py:18-24 | every tile lies inside the image, is clipped at the edge and never padded, measures 1 to tile_size a side, and holds the image's pixels at its offset |
| Slicing.TilesCover | app/utils/image_utils.py:15-24 | when step ≤ tile_size, every pixel of the image lies in some tile |
| Slicing.TilesRowMajor | app/utils/image_utils.py:15-25 | an earlier tile is in an earlier grid row, or further left in the same row |
| Slicing.DefaultStep | app/utils/image_utils.py:12 | the defaults give a stride of 819 (overlap 0.2) and 1024 (overlap 0) |
| Slicing.SliceFourTiles | tests/unit/test_image_utils.py:4-14 | a 2048×2048 image in 1024-pixel tiles without overlap gives 4 tiles, at (0,0), (1024,0), (0,1024) and (1024,1024) |
| Slicing.SingleTile | app/utils/image_utils.py:15-25 | an image no larger than one stride and one tile is a single tile at (0, 0): the image itself |
| Merging.ToCorners | app/utils/image_utils.py:41 | [x, y, w, h] to [x1, y1, x2, y2] keeps the extent, and converting back gives the same box |
| Merging.FromCorners | app/utils/image_utils.py:75-76 | the conversion back to [x, y, w, h] keeps the far corner |
| Merging.CornersRoundTrip | app/utils/image_utils.py:41-76 | corners to box and back give the same corners |
| Merging.Area | app/utils/image_utils.py:52 | the inclusive-pixel area (x2 - x1 + 1)·(y2 - y1 + 1), positive for a box of non-negative extent |
| Merging.Inter | app/utils/image_utils.py:60-66 | the inclusive intersection area (each side clamped at zero) is non-negative |
| Merging.Exceeds | app/utils/image_utils.py:68-70 | `overlap > iou_threshold` in numpy arithmetic: for a non-zero area the exact quotient comparison; for a zero area, division gives inf (above every threshold) when the intersection is positive and nan (above none) when it is zero |
| Merging.ExceedsQuotient | app/utils/image_utils.py:68-70 | for a non-zero area, `Exceeds` holds iff inter / area > num / den as exact quotients, for both signs of the area |
| Merging.Suppresses | app/utils/image_utils.py:60-70 | the pick suppresses a candidate when their intersection, over the candidate's own area, exceeds the threshold |
| Merging.InsertByY2 | app/utils/image_utils.py:53 | inserting an index into the y2-ordered list adds exactly that index |
| Merging.InsertByY2Sorted | app/utils/image_utils.py:53 | insertion keeps the list ordered by y2, ties by index |
| Merging.ArgsortPrefix | app/utils/image_utils.py:53 | the first n indices, each exactly once, ordered by y2 |
| Merging.IsArgsort | app/utils/image_utils.py:53 | what any `np.argsort(y2)` may return: every index exactly once, in non-decreasing y2, equal keys in any order |
| Merging.Argsort | app/utils/image_utils.py:53 | `np.argsort(y2)`: a permutation of the indices in non-decreasing y2 |
| Merging.Survivors | app/utils/image_utils.py:60-70 | the indices kept after a pick are exactly those whose overlap with the pick does not exceed the threshold, in their old order |
| Merging.SurvivorsAppend | app/utils/image_utils.py:70 | filtering two runs of candidates gives the survivors of the first run followed by those of the second, so deletion keeps relative order |
| Merging.SurvivorsSnoc | app/utils/image_utils.py:70 | one more candidate at the end is kept at the end when the pick does not suppress it, and dropped otherwise |
| Merging.SurvivorsAscending | app/utils/image_utils.py:70 | deleting indices keeps the remaining ones ordered by y2 |
| Merging.SurvivorsDistinct | app/utils/image_utils.py:70 | deleting indices keeps them distinct |
| Merging.SurvivorsAll | app/utils/image_utils.py:68-70 | when nothing exceeds the threshold, only the pick itself is deleted |
| Merging.Nms | app/utils/image_utils.py:55-70 | the picks are drawn from the candidates, at most as many as the candidates, and there are none only when there are no candidates |
| Merging.Suppress | app/utils/image_utils.py:55-70 | the `while` loop computes exactly `Nms`; it ends because every pass deletes at least the pick |
| Merging.NmsFirst | app/utils/image_utils.py:53-58 | the first pick is the last index of the order; when the order is ascending in y2, no candidate has a larger y2 than it |
| Merging.NmsDistinct | app/utils/image_utils.py:55-70 | no index is picked twice |
| Merging.NmsDescendingAt | app/utils/image_utils.py:53-58 | picks come in non-increasing y2 |
| Merging.NmsDescending | app/utils/image_utils.py:53-58 | picks come in non-increasing y2, for every pair |
| Merging.NmsSeparatedAt | app/utils/image_utils.py:60-70 | a later pick does not exceed the threshold against an earlier one |
| Merging.NmsSeparated | app/utils/image_utils.py:60-70 | for every pair of picks, the later one's overlap with the earlier one, over its own area, is at most the threshold |
| Merging.NmsCovers | app/utils/image_utils.py:55-70 | every candidate is picked, or some pick suppresses it |
| Merging.NoneSuppressedPrefix | app/utils/image_utils.py:60-70 | if no index suppresses any other, the same holds after removing the last index |
| Merging.NmsKeepsAll | app/utils/image_utils.py:55-70 | when no candidate suppresses another, every candidate is picked, from the last to the first |
| Merging.DuplicateSuppressed | app/utils/image_utils.py:52-68 | a box overlaps itself completely, so a duplicate is suppressed at any threshold below 1 |
| Merging.CornersOf | app/utils/image_utils.py:39-41 | the corner form of every box, in order |
| Merging.MergePicks | app/utils/image_utils.py:46-70 | the indices `merge_boxes` picks, all valid indices into the input boxes |
| Merging.MergeSpec | app/utils/image_utils.py:30-78 | the result lists the input box at each pick, in pick order |
| Merging.CornersList | app/utils/image_utils.py:39-41 | the first loop converts every box to corner form |
| Merging.BoxesOfPicks | app/utils/image_utils.py:73-76 | the last loop converts the picked corners back to boxes, in pick order |
| Merging.MergeBoxes | app/utils/image_utils.py:30-78 | `merge_boxes` returns exactly `MergeSpec` (no boxes give none) |
| Merging.MergeSize | app/utils/image_utils.py:35-70 | the result is empty iff the input is, and is never longer than the input |
| Merging.MergeFromInputs | app/utils/image_utils.py:41-76 | every output box is exactly an input box, and no input is output twice |
| Merging.MergeDescending | app/utils/image_utils.py:53-58 | the output is in non-increasing order of bottom edge y + h |
| Merging.MergeFirstMax | app/utils/image_utils.py:53-58 | for a non-empty input, the first merged box has the largest bottom edge y + h of all input boxes |
| Merging.MergeSeparated | app/utils/image_utils.py:60-70 | no output box exceeds the threshold against an output box earlier in the list |
| Merging.MergeCovers | app/utils/image_utils.py:55-70 | every input box is in the output, or some output box exceeds the threshold against it |
| Merging.BoxesApartOrder | app/utils/image_utils.py:53-70 | when no box exceeds the threshold against another, no index in the sorted order suppresses a later one |
| Merging.MergeKeepsAll | app/utils/image_utils.py:30-78 | when no box exceeds the threshold against another, all boxes are kept |
| Merging.MergeOverlappingPair | tests/unit/test_image_utils.py:16-23 | [100,100,50,50] and [105,105,45,45] at 0.5 merge into the single box [105,105,45,45] |
| Merging.MergeSeparatePair | tests/unit/test_image_utils.py:25-31 | [100,100,50,50] and [300,300,50,50] at 0.5 both stay, the lower box first |
| PrivacyBlurrer.Clamp | app/services/privacy_blurrer.py:16-22 | a box is skipped exactly when w ≤ 0, h ≤ 0, or it starts at or beyond the right or bottom edge; otherwise the region starts at (max(0,x), max(0,y)), is non-empty and lies inside the image |
| PrivacyBlurrer.ClampInside | app/services/privacy_blurrer.py:16-19 | a box that starts inside the image is clamped to exactly its part in the image |
| PrivacyBlurrer.ClampLeftEdge | app/services/privacy_blurrer.py:16-18 | a box that starts left of the image is not narrowed by the shift: the region is [0, min(w, W)) |
| PrivacyBlurrer.ClampBoxLeftOfImage | app/services/privacy_blurrer.py:16-22 | a box wholly left of the image, [-100, 10, 50, 20] on 100×100, is not skipped: it blurs columns [0, 50) of rows [10, 30) |
| PrivacyBlurrer.BeyondEdgeSkipped | app/services/privacy_blurrer.py:18-22 | a box at or beyond the right or bottom edge is skipped |
| PrivacyBlurrer.Kernel | app/services/privacy_blurrer.py:27-32 | the kernel side is odd and at least 3, and `(n//3)\|1` is the smallest odd number ≥ n//3 |
| PrivacyBlurrer.RedactBox | app/services/privacy_blurrer.py:16-35 | one pass keeps the image's shape and leaves the image as it was for a skipped box |
| PrivacyBlurrer.RedactBoxAt | app/services/privacy_blurrer.py:24-35 | after one pass, a pixel in the clamped region is the blur of the current region there; every other pixel is unchanged |
| PrivacyBlurrer.Redact | app/services/privacy_blurrer.py:13-35 | redacting all boxes keeps the image's shape |
| PrivacyBlurrer.RedactOutside | app/services/privacy_blurrer.py:24-35 | a pixel outside the clamped region of every box keeps its input value |
| PrivacyBlurrer.RedactSkipped | app/services/privacy_blurrer.py:21-22 | a skipped box changes nothing |
| PrivacyBlurrer.RedactLast | app/services/privacy_blurrer.py:13-35 | the last box reads the image left by the earlier ones, so overlapping boxes compound |
| PrivacyBlurrer.RedactPrefix | app/services/privacy_blurrer.py:13 | boxes are applied in list order, one at a time |
| PrivacyBlurrer.WriteRow | app/services/privacy_blurrer.py:35 | one row of the slice assignment writes exactly that row segment |
| PrivacyBlurrer.WriteRegion | app/services/privacy_blurrer.py:35 | the slice assignment writes exactly the region, and nothing else |
| PrivacyBlurrer.BlurBox | app/services/privacy_blurrer.py:15-35 | one pass of the loop updates the buffer to `RedactBox` of its old value |
| PrivacyBlurrer.Copy | app/services/privacy_blurrer.py:11 | `image.copy()` is a fresh buffer with the same pixels |
| PrivacyBlurrer.BlurAll | app/services/privacy_blurrer.py:13-35 | the loop leaves the buffer equal to `Redact` of its old value |
| PrivacyBlurrer.ApplyBlur | app/services/privacy_blurrer.py:6-37 | the result is a fresh image of the input's dimensions, equal to `Redact` of the input; the input is not changed |
| JobProcessor.UseTiling | app/services/job_processor.py:25 | an image is tiled exactly when its width or its height exceeds 2000 |
| JobProcessor.Shift | app/services/job_processor.py:32-38 | a tile-local box is moved by the tile's offset; its width and height are unchanged |
| JobProcessor.ShiftAll | app/services/job_processor.py:31-33 | every box of a detector's result is shifted, in order |
| JobProcessor.TileDetections | app/services/job_processor.py:29-38 | one tile contributes its face boxes, then its plate boxes, each shifted by the tile's offset |
| JobProcessor.TiledDetections | app/services/job_processor.py:28-38 | the boxes of a run of tiles, tile after tile in slicing order |
| JobProcessor.Detections | app/services/job_processor.py:24-41 | `all_boxes`: the tiled detections of the 1024-pixel, stride-819 grid for a large image; otherwise the whole image's faces then plates |
| JobProcessor.FinalBoxes | app/services/job_processor.py:44 | the merged boxes are drawn from the detections, are no more than the detections, and are empty only when there are no detections |
| JobProcessor.TiledDetectionsAppend | app/services/job_processor.py:28-38 | the detections of consecutive tile runs concatenate |
| JobProcessor.TiledDetectionsBlock | app/services/job_processor.py:28-38 | tile k's detections form one block, between those of the tiles before and those after |
| JobProcessor.TiledDetectionsStep | app/services/job_processor.py:28-38 | one more tile appends its own detections |
| JobProcessor.TiledDetectionsLength | app/services/job_processor.py:28-38 | there is one detection per reported box: the sum over tiles of face count plus plate count |
| JobProcessor.LargeImageDetections | app/services/job_processor.py:25-38 | a large image's detections are its tiles' detections in slicing order, each tile's faces then its plates, with the summed length |
| JobProcessor.LargeImageDetectionCount | app/services/job_processor.py:25-38 | every large image has one detection per box the detectors report, summed over all its tiles |
| JobProcessor.SmallImageDetections | app/services/job_processor.py:25-41 | an image no larger than 2000×2000 gets one face pass and one plate pass over the whole image, faces first and unshifted |
| JobProcessor.RemapSamePixels | app/services/job_processor.py:27-38 | a box a detector reports inside a tile lies in the image once shifted, and covers the same pixels there |
| JobProcessor.UnflaggedPixelKept | app/services/job_processor.py:44-48 | a pixel outside the clamped region of every detection keeps its value in the processed image |
| JobProcessor.ShiftAllStep | app/services/job_processor.py:32-33 | one more box appends its shifted copy |
| JobProcessor.AppendShifted | app/services/job_processor.py:32-38 | the inner loops append the shifted boxes in order |
| JobProcessor.AppendTile | app/services/job_processor.py:29-38 | one tile appends its faces, then its plates, shifted |
| JobProcessor.CollectTiled | app/services/job_processor.py:28-38 | the loop over the tiles collects exactly `TiledDetections` |
| JobProcessor.CollectBoxes | app/services/job_processor.py:19-41 | `all_boxes` is exactly `Detections`: tiled when a side exceeds 2000, whole-image otherwise |
| JobProcessor.ProcessImageData | app/services/job_processor.py:18-49 | the result is a fresh image of the input's size, blurred at the merged boxes; the count is the number of merged boxes |
| JobProcessor.LastSegment | app/services/job_processor.py:74 | `key.split('/')[-1]` is the longest suffix of the key without '/' |
| JobProcessor.ReplaceAll | app/services/job_processor.py:75 | `str.replace`: every non-overlapping occurrence of the pattern, scanned from the left, is replaced |
| JobProcessor.OccursInTail | app/services/job_processor.py:75 | an occurrence of the pattern after the first character is an occurrence in the whole string |
| JobProcessor.ReplaceAbsent | app/services/job_processor.py:75 | `replace` changes nothing when the pattern does not occur |
| JobProcessor.ReplaceLonger | app/services/job_processor.py:75 | with a longer replacement, `replace` never shortens the string, and lengthens it when the pattern occurs |
| JobProcessor.ReplaceIdentity | app/services/job_processor.py:75 | with a longer replacement, `replace` leaves the string as it was iff the pattern does not occur |
| JobProcessor.ReplaceAvoids | app/services/job_processor.py:75 | a character absent from the string and from the replacement is absent from the result |
| JobProcessor.AnonymizedName | app/services/job_processor.py:75 | the renamed file name contains no '/' |
| JobProcessor.OutputKey | app/services/job_processor.py:71-75 | when overwriting, the output key is the input key; otherwise it is the prefix followed by a name without '/' |
| JobProcessor.OutputKeyNoJpg | app/services/job_processor.py:74-75 | a file name without ".jpg" is stored under the prefix unchanged |
| JobProcessor.OutputKeyRenamed | app/services/job_processor.py:74-75 | a file name with ".jpg" is renamed, so its key is longer than prefix + name |
| JobProcessor.LastSegmentOf | app/services/job_processor.py:74 | the last segment of "dir/name" is name |
| JobProcessor.OutputKeyOf | app/services/job_processor.py:74-75 | "dir/name" is stored as the prefix followed by the renamed name |
| JobProcessor.RenameExample | app/services/job_processor.py:75 | "b.jpg" becomes "b_anonymized.jpg" |
| JobProcessor.RenameEveryOccurrence | app/services/job_processor.py:75 | every ".jpg" is replaced, not only the extension: ".jpg.jpg" becomes "_anonymized.jpg_anonymized.jpg" |
| JobProcessor.ProcessJob | app/services/job_processor.py:50-83 | a failed decode is an error; otherwise the report is "success", with the output key and the number of merged boxes |

## Left out

- Floats. `overlap` and `iou_threshold` are exact ratios. The stride is `int()` of the exact product. The overlap test `inter / area > thr` is done by cross-multiplication, which `Merging.ExceedsQuotient` relates to the exact quotient. That includes numpy's results for a zero or negative area: division by zero gives infinity, which exceeds the threshold, or NaN when both are zero, which does not. A threshold or overlap whose float rounding differs from the exact ratio is not modelled.
- Integer width. numpy's int64 box arithmetic and `int()` conversions are unbounded integers here; overflow is not modelled.
- Numpy's argsort order for equal y2. `np.argsort` uses an unstable sort by default, so for equal y2 the order is unspecified. All `Nms…` lemmas hold for every order that sorts the indices by y2 (`Merging.IsArgsort`). `Merging.Argsort` is one fixed stable choice, and `MergeSpec` and the two test lemmas use it.
- The detectors (`InferenceEngine.detect_faces`, `detect_plates`) are function parameters. Their models, the lazy loading, and their float-to-int box conversion are not part of this model.
- `cv2.GaussianBlur` is a function parameter required to return a region of the shape it is given. Its arithmetic is not modelled.
- I/O and plumbing are not modelled: S3 download and upload, `cv2.imdecode`, `imencode`, `imread` and `imwrite`, the uuid job id, and logging. `JobProcessor.ProcessJob` takes the decoded image, or its absence, as a parameter and does not return the encoded bytes. `process_local_job` is left out because it is the same processing between a file read and a file write.
- The HTTP routes, configuration and schemas are not part of this model.
- Slicing.SliceImage: the stride is not required to be positive. A zero stride returns `Err(ZeroStep)`, for the `ValueError` Python's `range` raises. A negative stride yields no tiles, as `range` does.
