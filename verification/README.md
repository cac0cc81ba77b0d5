# YOLOv3 detection post-processing, modelled in Dafny

The service runs a YOLOv3 network on an image resized to 512 by 512. It then
turns the three raw output tensors into labelled bounding boxes.

The repository has two versions of that post-processing:

- `src/decode.py` keeps boxes in corner form `[label, confidence, xmin, xmax, ymin, ymax]`.
- `yolo/decode.py` keeps them in centre form `[label, confidence, x, y, w, h]`.

Both run the same four steps:

- `calc_area` / `calc_overlap`: intersection over union of two boxes.
- `non_max_supression`: a stable descending sort on `(confidence, field 3)`,
  then the greedy loop. The loop keeps the front box and drops every later box
  that it overlaps by more than `max_overlap`.
- `scale_boxes`: stretches the boxes from the network's square back to the
  original image size.
- `decode_pred`: walks every scale, anchor and grid cell, and keeps the cells
  whose sigmoid objectness is above the threshold. For each kept cell it
  computes the centre from the cell index plus a sigmoid offset, the size from
  the anchor prior times `exp`, and the label from an arg-max over the 80
  class scores.

`src/process.py` chains them: decode at size 512 with threshold 0.5, suppress
with bound 0.25, then scale to the image.

The project is organised as follows:

| file | module | contents |
|---|---|---|
| `geometry.dfy` | `Geometry` | rectangles, clamped area, intersection, union and IoU; invariance of IoU under a positive stretch and under swapping the axes |
| `suppression.dfy` | `Suppression` | the two algorithms of `non_max_supression`, generic over the box type, the rank and the overlap test: a stable insertion sort and the suppression loop; an independent greedy-scan reference; transport along a map |
| `decoding.dfy` | `Decoding` | the shared walk of `decode_pred`, producing centre-form detections |
| `src_decode.dfy` | `SrcDecode` | the corner-form variant |
| `yolo_decode.dfy` | `YoloDecode` | the centre-form variant |
| `pipeline.dfy` | `Pipeline` | the `process_img` composition, and the facts tying the two variants together |
| `image.dfy` | `Image` | the image dimensions PIL reports, which `scale_boxes` stretches to |
| `examples_decode.dfy` | `DecodeExamples` | the worked cases of `tests/test_decode.py` |
| `walk_example.dfy` | `WalkExample` | one small grid decoded by hand in both variants |

Modelling decisions:

- Numbers are reals. `np.exp` is a parameter `exp` of the subset type
  `Decoding.Exp`: any function that is positive everywhere. `sigmoid` is
  defined from it.
- The label file that `get_labels` reads is a parameter `labels`.
- `decode_pred` is modelled under the precondition `Decoding.WellFormed`. It
  asks for at most three tensors, a non-empty grid in each, at least 255
  channels per cell and at least 80 labels. This is a sufficient condition
  under which no index in `decode_pred` can fail. It is stronger than what
  the code needs. The YOLOv3 output `process_img` decodes meets it: three
  tensors, 255 channels, the 80 COCO labels. Of the inputs it excludes, two
  always raise: an empty grid, because `int(yolo_size / 0)` fails, and fewer
  than 175 channels, because the third anchor block `pred[:, :, 170:255]`
  then has fewer than 5 channels and `anchor[:, :, 4]` fails
  (`src/decode.py:129-130`). The others run, or raise only on some contents;
  "## Left out" lists them. A
  numpy array is never ragged, so the requirement that every row of the grid
  has the same length only describes the array's shape. `scale_boxes` divides
  by `size`, so it requires `size != 0`.
- `calc_overlap` divides by the union area. `Overlap` therefore requires a
  positive union.
- Inside the suppression loop a zero union counts as "does not exceed"
  (`Geometry.OverlapExceeds`). A union is zero only when both boxes have no
  area. What the source then does depends on the boxes. `calc_area` clips
  each side with the builtin `max(d, 0)`, which returns the integer `0` for a
  negative side. When both boxes are inverted on both axes, all three areas
  are that integer `0`, and `area_in/(...)` raises `ZeroDivisionError`, even
  on numpy input. In the other zero-union cases on numpy floats the quotient
  is NaN, and `NaN > max_overlap` is false, which the model matches.
  "## Left out" records the raising case. `decode_pred` never produces a
  zero-area box, because every box it emits has positive width and height,
  so `Pipeline.ProcessBoxes` never meets either case.

The walk of `decode_pred` is modelled in two steps. First it collects the
slots (scale, anchor block, `cell_x`, `cell_y`) whose objectness clears the
threshold. It visits them in the order of the source's nested loops:
`product(range(n_preds), range(n_anchors))`, then
`product(range(n_cells_x), range(n_cells_y))`. Then it maps each slot to its
detection. `Emit` has no side effects, so appending inside the loop gives the
same list. `Decoding.QualifyingSlots` states that the collected list is in
walk order and holds each qualifying slot exactly once. `Decoding.WalkOrderUnique`
shows that these two facts fix the list. `Decoding.DecodeCentresInWalkOrder`
then fixes the output entry by entry.

The two variants are not interchangeable on ties. `src/decode.py` breaks a
confidence tie on `xmax`, which is `y + w/2`. `yolo/decode.py` breaks it on the
centre `y`. `Pipeline.VariantsMayBreakTiesApart` gives two detections that the
two sorts order oppositely. When confidences differ, the orders agree
(`Pipeline.VariantsAgreeOnRankUnlessTied`). They also agree on the overlap, on
the scaling and on the decoded boxes.

## Model

| member | source | states |
|---|---|---|
| Geometry.Extent | src/decode.py:24-25 | a clamped side is never negative and is zero exactly when the edges are not in increasing order |
| Geometry.Area | src/decode.py:22-27 | an area is never negative, and is zero exactly when the rectangle is flat or inverted along an axis |
| Geometry.AreaOfOrderedEdges | src/decode.py:22-27 | with edges in order the area is width times height |
| Geometry.IntersectionEdges | src/decode.py:44-48 | each edge of the intersection lies inside both rectangles and is an edge of one of them |
| Geometry.Intersection | src/decode.py:44-48 | no contract of its own: the larger lower edges and the smaller upper edges; `Geometry.IntersectionEdges`, `Geometry.IntersectionAreaBound` and `Geometry.ScaledIntersection` state its facts |
| Geometry.IntersectionAreaBound | src/decode.py:50-53 | the intersection area is at most either rectangle's area |
| Geometry.UnionAreaBounds | src/decode.py:50-55 | the union is at least either area, and is positive exactly when one of the rectangles has area |
| Geometry.UnionArea | src/decode.py:50-55 | no contract of its own: `area_1 + area_2 - area_in`; `Geometry.UnionAreaBounds` and `Geometry.ScaledUnionArea` state its facts |
| Geometry.Iou | src/decode.py:30-55 | the overlap lies in [0, 1] and is 0 exactly when the intersection has no area |
| Geometry.IouSymmetric | src/decode.py:44-55 | the overlap does not depend on the order of the two boxes |
| Geometry.ExceedsSymmetric | src/decode.py:74-76 | the `overlap > max_overlap` test is symmetric |
| Geometry.OverlapExceeds | src/decode.py:72-76 | no contract of its own: `overlap > max_overlap`, with a zero union read as "does not exceed" (see "## Left out"); `Geometry.ExceedsSymmetric` and `Geometry.ExceedsScaleInvariant` state its facts |
| Geometry.IouSelf | src/decode.py:44-55 | a rectangle with area overlaps itself with 1 |
| Geometry.IouSeparated | src/decode.py:44-55 | rectangles that are apart, or only share an edge, overlap with 0 |
| Geometry.IouOneIffSame | src/decode.py:44-55 | two rectangles with area overlap with 1 exactly when they are the same rectangle |
| Geometry.ScaledArea | src/decode.py:96-99 | stretching the axes by positive factors multiplies the area by their product |
| Geometry.ScaledIntersection | src/decode.py:44-48 | the intersection of stretched rectangles is the stretched intersection |
| Geometry.ScaledUnionArea | src/decode.py:50-55 | the union of stretched rectangles is the stretched union |
| Geometry.IouScaleInvariant | src/decode.py:30-55 | a positive stretch keeps the union's sign and leaves the overlap unchanged |
| Geometry.ExceedsScaleInvariant | src/decode.py:74-76 | a positive stretch neither creates nor removes an exceeding pair |
| Geometry.IouTransposeInvariant | yolo/decode.py:33-55 | swapping the two axes of both rectangles keeps the union, the overlap and the exceeding test |
| Suppression.SubsequenceSorted | src/decode.py:80 | deleting boxes from a sorted list leaves it sorted |
| Suppression.Insert | src/decode.py:61 | inserting adds exactly the one box and keeps all others |
| Suppression.InsertSorted | src/decode.py:61 | inserting into a descending list keeps it descending |
| Suppression.SortByRank | src/decode.py:61 | the sort outputs a permutation of its input in descending rank order |
| Suppression.SortStable | src/decode.py:61 | for every rank, the boxes of that rank come out in their input order: the sort is stable, as Python's `sorted(..., reverse=True)` is |
| Suppression.Survivors | src/decode.py:71-80 | a box survives a round exactly when it was in the list and the front box does not exceed it |
| Suppression.SurvivorsSubsequence | src/decode.py:80 | the survivors keep their relative order |
| Suppression.Suppress | src/decode.py:64-82 | the loop on a non-empty list keeps the front box first, and keeps only boxes of its input |
| Suppression.SuppressSubsequence | src/decode.py:64-82 | the kept boxes are an ordered selection of the sorted input |
| Suppression.SuppressPairwise | src/decode.py:65-80 | no kept box exceeds a box kept after it |
| Suppression.SuppressCovers | src/decode.py:65-80 | every dropped box is exceeded by a kept box that ranks at least as high |
| Suppression.NonMaxSuppression | src/decode.py:58-82 | the result is empty iff the input is, selects from the sorted input in order, is sorted, starts with a best-ranked box, is pairwise non-exceeding, and covers every dropped box |
| Suppression.GreedyScanSplits | src/decode.py:65-82 | a greedy scan that has already kept some boxes equals those boxes followed by the loop run on the boxes they leave unblocked |
| Suppression.SuppressIsGreedy | src/decode.py:65-82 | the loop keeps exactly the boxes of the one-pass greedy scan: a box is kept iff no box kept before it exceeds it |
| Suppression.InsertMap | src/decode.py:61 | inserting commutes with a map that keeps the rank order |
| Suppression.SortMap | src/decode.py:61 | sorting commutes with a map that keeps the rank order |
| Suppression.SurvivorsMap | src/decode.py:71-80 | one round commutes with a map that keeps the exceeding test |
| Suppression.SuppressMap | src/decode.py:64-82 | the loop commutes with such a map |
| Suppression.NmsCommutesWithMap | src/decode.py:58-82 | suppression commutes with any map that keeps both the rank order and the exceeding test |
| Decoding.Sigmoid | src/decode.py:17-19 | a sigmoid of any input lies strictly between 0 and 1 |
| Decoding.AnchorsPositive | src/decode.py:110-114 | the anchor table has three rows of three anchors, each with positive sides |
| Decoding.CellSize | src/decode.py:126-127 | `int(yolo_size / n_cells)` truncates toward zero: for a non-negative size, `c * n <= size < (c + 1) * n`, and mirrored for a negative one |
| Decoding.ArgMax | src/decode.py:148 | the index returned holds a largest score, and every earlier score is strictly smaller (the first maximum, as `np.argmax`) |
| Decoding.ArgMaxUnique | src/decode.py:148 | any first-maximum index is the one returned |
| Decoding.ClassScores | src/decode.py:129 | the class slice holds the 80 channels after the objectness channel of the slot's anchor block |
| Decoding.CellCentre | src/decode.py:138-139 | a centre lies strictly inside its grid cell whenever the cell size is positive |
| Decoding.AnchorScaled | src/decode.py:142-145 | width and height are positive |
| Decoding.Objectness | src/decode.py:130-134 | the confidence of a slot lies strictly between 0 and 1 |
| Decoding.Qualifies | src/decode.py:136 | no slot passes a threshold of 1 or more, and every slot passes a negative threshold; `Decoding.ThresholdIsStrict` and `WalkExample.OnlyBusyQualifies` state the strictness of the test |
| Decoding.SlotLabel | src/decode.py:148 | the label is the entry of `labels` at a first-maximum class score |
| Decoding.EmitFacts | src/decode.py:136-148 | the detection of a slot has the slot's objectness as confidence, positive extents, the arg-max label, and a centre inside the slot's cell |
| Decoding.Emit | src/decode.py:136-148 | no contract of its own, to keep its body out of the walk proofs; `Decoding.EmitFacts` states its facts and `WalkExample.BusyDetection` pins one value |
| Decoding.WalkOrderUnique | src/decode.py:120-132 | two lists in walk order (scale, then anchor, then `cell_x`, then `cell_y`, each slot once) that hold the same slots are the same list |
| Decoding.RowSlots | src/decode.py:132-136 | the inner `cell_y` loop finds exactly the qualifying cells of one row, in walk order |
| Decoding.GridSlots | src/decode.py:132-136 | the `product(range(n_cells_x), range(n_cells_y))` loop finds exactly the qualifying cells of one anchor block, in walk order |
| Decoding.ScaleSlots | src/decode.py:120-136 | the anchor blocks of one scale give exactly its qualifying slots, in walk order |
| Decoding.ScalesSlots | src/decode.py:120-136 | the `product(range(n_preds), range(n_anchors))` loop gives exactly the qualifying slots of the visited scales, in walk order |
| Decoding.QualifyingSlots | src/decode.py:120-136 | every slot that clears the threshold, each once, in walk order, and no other slot |
| Decoding.DecodeCentres | yolo/decode.py:106-153 | a detection is emitted exactly when some slot of the walk clears the threshold and yields it |
| Decoding.DecodeCentresInWalkOrder | yolo/decode.py:120-151 | one detection per qualifying slot, appended in walk order: the i-th detection is what the i-th qualifying slot yields |
| Decoding.DecodedDetectionFacts | yolo/decode.py:134-151 | every emitted detection has confidence strictly above the threshold and below 1, positive extents, and a label from `labels` at the arg-max |
| Decoding.ThresholdIsStrict | src/decode.py:136 | a slot whose confidence equals the threshold is skipped |
| SrcDecode.Area | src/decode.py:22-27 | a box's area is never negative, and is zero exactly when the box is flat or inverted |
| SrcDecode.Edges | src/decode.py:31-42 | no contract of its own: fields 2 to 5 as the rectangle `calc_overlap` reads; `Pipeline.CornerEdgesAreTransposed` and `SrcDecode.OverlapOneIffSameEdges` state its facts |
| SrcDecode.Overlap | src/decode.py:30-55 | the overlap lies in [0, 1] and is 0 exactly when the boxes' intersection has no area |
| SrcDecode.OverlapDefined | src/decode.py:55 | the division is defined as soon as one box has area |
| SrcDecode.OverlapSymmetric | src/decode.py:30-55 | the overlap is symmetric |
| SrcDecode.OverlapOneIffSameEdges | src/decode.py:30-55 | boxes with area overlap with 1 exactly when their four edges agree |
| SrcDecode.OverlapSeparated | src/decode.py:44-55 | boxes that are apart or touch along an edge overlap with 0 |
| SrcDecode.NonMaxSuppression | src/decode.py:58-82 | the corner-form suppression keeps a sorted, pairwise non-exceeding selection of the boxes that starts with a best box, and covers each dropped box by a kept box ranked at least as high |
| SrcDecode.NonMaxSuppressionIsGreedy | src/decode.py:65-82 | the corner-form suppression equals the one-pass greedy scan over the sorted boxes |
| SrcDecode.NonMaxSuppressionOverlaps | src/decode.py:72-77 | for boxes with area, kept pairs overlap by at most `max_overlap`, and each dropped box overlaps some kept box by more |
| SrcDecode.ScaleBoxes | src/decode.py:85-103 | same length and order; labels and confidences unchanged; the x edges stretched by `img_size[0]/size` and the y edges by `img_size[1]/size` |
| SrcDecode.ScaleBoxesRoundTrip | src/decode.py:85-103 | scaling to a square image and back restores every box |
| SrcDecode.ScaleBoxesKeepsOverlap | src/decode.py:85-103 | for an image with positive sides, scaling leaves the overlap of every pair unchanged |
| SrcDecode.ScaleBoxesIsMap | src/decode.py:92-101 | scaling applies the same stretch to each box |
| SrcDecode.ScaleBox | src/decode.py:94-99 | no contract of its own: the x edges times `sx`, the y edges times `sy`; `SrcDecode.ScaleBoxes`, `SrcDecode.ScaleBoxesIsMap` and `SrcDecode.ScaleBoxesRoundTrip` state its facts |
| SrcDecode.ScaleX | src/decode.py:87 | the factor times `size` gives back the image width `img_size[0]`, and it is positive for positive sides |
| SrcDecode.ScaleY | src/decode.py:88 | the factor times `size` gives back the image height `img_size[1]`, and it is positive for positive sides |
| SrcDecode.ScalerKeepsRank | src/decode.py:61 | a positive stretch keeps the (confidence, xmax) order |
| SrcDecode.RankOf | src/decode.py:61 | no contract of its own: the key `itemgetter(1, 3)`; `SrcDecode.ScalerKeepsRank`, `Pipeline.VariantsAgreeOnRankUnlessTied` and `Pipeline.VariantsMayBreakTiesApart` state its facts |
| SrcDecode.ScalerKeepsExceeds | src/decode.py:74-76 | a positive stretch keeps which box exceeds which |
| SrcDecode.NonMaxSuppressionCommutesWithScale | src/decode.py:58-103 | for an image with positive sides, suppressing then scaling equals scaling then suppressing |
| SrcDecode.ToCorner | src/decode.py:151-154 | the corner box keeps label and confidence; its x span is centred on `y` with width `w`, and its y span is centred on `x` with width `h` |
| SrcDecode.CornerRoundTrip | src/decode.py:151-154 | the corner conversion and its inverse reading undo each other |
| SrcDecode.ToCornerMembers | src/decode.py:151-157 | a box is among the converted detections exactly when its centre-form reading is among the detections |
| SrcDecode.DecodePred | src/decode.py:106-159 | a box is emitted exactly when its centre-form reading is produced by some slot; every emitted box is above the threshold, has confidence below 1, and is proper on both axes |
| SrcDecode.DecodePredInWalkOrder | src/decode.py:120-157 | one corner box per qualifying slot, in walk order: the i-th box is the i-th qualifying slot's detection converted to corners |
| YoloDecode.Area | yolo/decode.py:30-53 | the area of a centre-form box is never negative, and is zero exactly when `w` or `h` is not positive |
| YoloDecode.EdgesDetermineGeometry | yolo/decode.py:33-42 | the derived edges are equal exactly when centre and extents are |
| YoloDecode.Edges | yolo/decode.py:33-42 | no contract of its own: x plus or minus half of field 5, y plus or minus half of field 4; `YoloDecode.EdgesDetermineGeometry` and `Pipeline.CornerEdgesAreTransposed` state its facts |
| YoloDecode.Overlap | yolo/decode.py:30-55 | the overlap lies in [0, 1] and is 0 exactly when the derived rectangles' intersection has no area |
| YoloDecode.OverlapDefined | yolo/decode.py:55 | the division is defined as soon as one box has area |
| YoloDecode.OverlapSymmetric | yolo/decode.py:30-55 | the overlap is symmetric |
| YoloDecode.OverlapOneIffSameGeometry | yolo/decode.py:30-55 | boxes with positive extents overlap with 1 exactly when they share centre and extents |
| YoloDecode.OverlapSeparated | yolo/decode.py:33-55 | boxes whose derived spans are apart on one axis overlap with 0 |
| YoloDecode.NonMaxSuppression | yolo/decode.py:58-82 | the centre-form suppression keeps a sorted, pairwise non-exceeding selection of the boxes that starts with a best box, and covers each dropped box |
| YoloDecode.NonMaxSuppressionIsGreedy | yolo/decode.py:65-82 | the centre-form suppression equals the greedy scan |
| YoloDecode.NonMaxSuppressionOverlaps | yolo/decode.py:72-77 | for boxes with area, kept pairs overlap by at most `max_overlap`, and each dropped box overlaps some kept box by more |
| YoloDecode.ScaleBoxes | yolo/decode.py:85-103 | same length and order; labels and confidences unchanged; the derived rectangle is stretched by `img_size[1]/size` along x and by `img_size[0]/size` along y |
| YoloDecode.ScaleBoxesRoundTrip | yolo/decode.py:85-103 | scaling to a square image and back restores every box |
| YoloDecode.ScaleBoxesKeepsOverlap | yolo/decode.py:85-103 | for an image with positive sides, scaling leaves every pair's overlap unchanged |
| YoloDecode.ScaleBoxesIsMap | yolo/decode.py:92-101 | scaling applies the same stretch to each box |
| YoloDecode.ScaleBox | yolo/decode.py:94-99 | no contract of its own: x and h times `sx`, y and w times `sy`; `YoloDecode.ScaleBoxes`, `YoloDecode.ScaleBoxesIsMap` and `Pipeline.VariantsAgreeOnScaling` state its facts |
| YoloDecode.ScaleX | yolo/decode.py:87 | the factor times `size` gives back `img_size[1]`, and it is positive for positive sides |
| YoloDecode.ScaleY | yolo/decode.py:88 | the factor times `size` gives back `img_size[0]`, and it is positive for positive sides |
| YoloDecode.ScalerKeepsRank | yolo/decode.py:61 | a positive stretch keeps the (confidence, y) order |
| YoloDecode.RankOf | yolo/decode.py:61 | no contract of its own: the key `itemgetter(1, 3)`, confidence then the y centre; `YoloDecode.ScalerKeepsRank` and `Pipeline.VariantsAgreeOnRankUnlessTied` state its facts |
| YoloDecode.ScalerKeepsExceeds | yolo/decode.py:74-76 | a positive stretch keeps which box exceeds which |
| YoloDecode.NonMaxSuppressionCommutesWithScale | yolo/decode.py:58-103 | for an image with positive sides, suppressing then scaling equals scaling then suppressing |
| YoloDecode.DecodePred | yolo/decode.py:106-153 | a detection is emitted exactly when some slot produces it; each is above the threshold with confidence below 1, positive extents and a label from `labels` |
| YoloDecode.DecodePredInWalkOrder | yolo/decode.py:120-151 | one detection per qualifying slot, in walk order: the i-th detection is what the i-th qualifying slot yields |
| Pipeline.ProcessBoxes | src/process.py:49-56 | the output is no longer than the decoded list, and every confidence is above 0.5. For an image with positive sides: every box is proper, no kept pair overlaps by more than 0.25, and the output is what suppression would keep if the scaling came first |
| Pipeline.ScaledConfidences | src/decode.py:94-101 | every scaled box carries the confidence of a suppressed box |
| Pipeline.ScaledBoxesProper | src/decode.py:96-99 | a positive stretch keeps every proper box proper, with positive area |
| Pipeline.CornerEdgesAreTransposed | src/decode.py:151-154 | the corner box of a detection has the edges the centre-form overlap derives, with the axes swapped |
| Pipeline.VariantsAgreeOnOverlap | yolo/decode.py:30-55 | the two variants measure the same union and overlap for the same two detections, and agree on the exceeding test |
| Pipeline.VariantsAgreeOnScaling | yolo/decode.py:85-103 | converting to corners then scaling with the corner-form `scale_boxes` equals scaling with the centre-form one then converting |
| Pipeline.ScaleCommutesWithCorner | src/decode.py:96-99 | for one detection, stretching its corner box equals converting the stretched detection |
| Pipeline.VariantsAgreeOnDecoding | src/decode.py:150-157 | the corner-form `decode_pred` emits the centre-form detections, converted, in the same order |
| Pipeline.VariantsAgreeOnRankUnlessTied | yolo/decode.py:61 | with different confidences both sort keys order two detections alike |
| Pipeline.VariantsMayBreakTiesApart | src/decode.py:61 | on a confidence tie the two sort keys can order two detections oppositely |
| DecodeExamples.AreaUnitSquare | tests/test_decode.py:15 | area of (0, 1, 0, 1) is 1 |
| DecodeExamples.AreaSquareOfTwo | tests/test_decode.py:16 | area of (0, 2, 0, 2) is 4 |
| DecodeExamples.AreaOffsetSquare | tests/test_decode.py:17 | area of (5, 10, 10, 15) is 25 |
| DecodeExamples.AreaRectangle | tests/test_decode.py:18 | area of (0, 1, 2, 5) is 3 |
| DecodeExamples.AreaPoint | tests/test_decode.py:19 | a point has area 0 |
| DecodeExamples.AreaFlat | tests/test_decode.py:20 | a flat rectangle has area 0 |
| DecodeExamples.AreaInverted | tests/test_decode.py:21 | an inverted rectangle has area 0 |
| DecodeExamples.OverlapPartial | tests/test_decode.py:34-38 | two 10-by-10 boxes offset by 5 on both axes overlap with 25/175 |
| DecodeExamples.OverlapDisjoint | tests/test_decode.py:39-43 | disjoint boxes overlap with 0 |
| DecodeExamples.OverlapHalf | tests/test_decode.py:44-48 | a box and its left half overlap with 0.5 |
| DecodeExamples.OverlapIdentical | tests/test_decode.py:49-53 | identical boxes overlap with 1 |
| DecodeExamples.OverlapCorner | tests/test_decode.py:54-58 | boxes meeting at a corner overlap with 0 |
| DecodeExamples.SuppressionDropsNested | tests/test_decode.py:71-76 | the nested lower-confidence box is dropped |
| DecodeExamples.SuppressionDropsNestedReordered | tests/test_decode.py:77-82 | the nested box is dropped when listed first, too |
| DecodeExamples.SuppressionKeepsDisjoint | tests/test_decode.py:83-89 | a non-overlapping box is kept, after the better one |
| DecodeExamples.ScaleToImage | tests/test_decode.py:102-109 | from a 500 square to a 1500-by-1000 image, x edges triple and y edges double |
| WalkExample.OnlyBusyQualifies | src/decode.py:130-136 | of the six slots of a one-row, two-cell grid, only the one with positive objectness clears 0.5; the others sit exactly at 0.5 and are skipped |
| WalkExample.BusyLabel | src/decode.py:148 | the label is the entry at the first largest class score |
| WalkExample.BusyDetection | src/decode.py:138-145 | channel 0 sets `x` through `cell_size_x`, channel 1 sets `y` through `cell_size_y`, channels 2 and 3 scale width and height of anchor 1 of the first table row |
| WalkExample.DecodesOneDetection | yolo/decode.py:120-151 | the centre-form decoder emits exactly that one detection |
| WalkExample.DecodesOneCornerBox | src/decode.py:120-157 | the corner-form decoder emits exactly that one box: x edges `y ± w/2`, y edges `x ± h/2` |

## Left out

- `get_labels`: it reads `classes/coco_classes.txt`. The label list is a parameter instead.
- Model inference, image loading, resizing, `np.squeeze` and `annotate_img` (`src/process.py:33-47`, `src/process.py:59`). These are I/O or calls into the network. `Pipeline.ProcessBoxes` starts from the network outputs and the image size.
- `app.py`, `src/annotate.py`, `yolo/annotate.py` and `yolo/model.py` are not part of this model.
- Floating point: all arithmetic is exact real arithmetic. Rounding, overflow of `np.exp`, and NaN are not modelled, apart from the zero-union reading described above.
- `np.exp` is left abstract, as any everywhere-positive function. Its values are not computed.
- Decoding.WellFormed: it is a sufficient precondition, stronger than what `decode_pred` needs. The model says nothing about these inputs, which the code accepts, or rejects only on some contents:
  - a fourth or later tensor: `anchors[n_pred]` is read only inside the `if` (`src/decode.py:136-143`), so such a tensor raises only when one of its cells qualifies;
  - 175 to 254 channels: the slice at `src/decode.py:129` truncates silently, so the last anchor block gets a shorter class slice. `np.argmax` still works, except on an empty slice;
  - fewer than 80 labels: `labels[...]` at `src/decode.py:148` raises only when an arg-max index is past the end of the list.
- Decoding.WellFormed: an empty grid, which makes `int(yolo_size / 0)` raise, is excluded by the precondition rather than modelled as an error. So are fewer than 175 channels, where `anchor[:, :, 4]` raises.
- Overlap: the `ZeroDivisionError` that plain Python numbers raise when both boxes have no area is excluded by the precondition `UnionArea > 0`. The tests pass plain integers.
- Geometry.OverlapExceeds: a zero union is read as "does not exceed". That matches the NaN that numpy floats give, but not the case where both boxes are inverted on both axes: all three areas are then the integer `0` from `max(d, 0)` (`src/decode.py:20-25`), and `src/decode.py:55` raises `ZeroDivisionError`. The raise is not modelled.
- SrcDecode.NonMaxSuppression: on a list holding two boxes that are both inverted on both axes (`xmax < xmin` and `ymax < ymin`), the source raises `ZeroDivisionError` from `calc_overlap`; the model keeps both and goes on. `decode_pred` never emits such boxes, so `Pipeline.ProcessBoxes` is not affected.
- YoloDecode.NonMaxSuppression: the same raise, for two boxes with negative width and negative height (`yolo/decode.py:20-25`, `yolo/decode.py:55`); the model keeps both and goes on.
- SrcDecode.ScaleBoxes: requires `size != 0`. The source raises `ZeroDivisionError` at `img_size[0]/size` (`src/decode.py:87`) on `size == 0`; that error is not modelled.
- YoloDecode.ScaleBoxes: requires `size != 0`. The source raises `ZeroDivisionError` at `img_size[1]/size` (`yolo/decode.py:87`) on `size == 0`; that error is not modelled.
