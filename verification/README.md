# Room detector post-processing, modelled in Dafny

The room detector runs a Mask R-CNN model on a blueprint image. It then
turns the raw detections into a list of rooms. This project models that
post-processing step in `backend/main.py`, with exact `real` numbers in
place of floats:

- **Confidence filter.** A detection scoring below `threshold` is skipped.
  Every other detection becomes a room record, in input order.
- **Overlap suppression** (`remove_overlapping_rooms`). The rooms are
  stably sorted by confidence, highest first. A room is kept only if its
  intersection-over-union (`compute_iou`) with every room kept before it
  is at most `overlap_threshold`.
- **Response assembly.** The surviving rooms are renumbered `room_001`,
  `room_002`, … in their kept order. `total_rooms` is the length of the list.

Modules, in dependency order:

- `Geometry` (geometry.dfy): boxes and IoU.
- `Seqs` (seqs.dfy): order-preserving selection.
- `Decimal` (decimal.dfy): zero-padded decimal rendering and reading it back.
- `Rooms` (rooms.dfy): detections, room records, 0..1000 normalization, room ids.
- `Ranking` (ranking.dfy): the stable descending sort.
- `Suppression` (suppression.dfy): overlap removal, both as a function and
  as the source's nested loops.
- `Pipeline` (pipeline.dfy): the filter, renumbering and the whole response.
- `Scenarios` (scenarios.dfy): concrete requests worked through the model.

Where the code differs from the behaviour one might expect, the model follows the code:

- The code does not check that `threshold` and `overlap_threshold` lie in
  [0, 1]. The model accepts any real for both.
- The code does not round normalized coordinates to integers and does not
  clamp them. It divides by the image size and multiplies by 1000. The
  model does the same, but it keeps the exact quotient where the code then
  rounds to one decimal (see "Left out").
- When a mask has no contour, the code leaves `vertices` empty. It does not
  fall back to the box corners.
- The code keeps `bbox_pixels` as floats, not integers.

One observation from the proofs, over exact real numbers: the `union > 0`
guard in `compute_iou` (backend/main.py:86) never fails once the overlap
is non-empty. In that
case the union is at least either box's area, and each area is at least
the overlap area, which is positive. This holds for any boxes, degenerate
or not (`Geometry.OverlapBounds`). So over the reals IoU always lies in [0, 1],
and it is 0 exactly when the boxes are disjoint. With IEEE doubles this
can fail: for boxes as tiny as (0, 0, 1e-200, 1e-200) the areas underflow
to 0.0, so the guard fires and the code returns 0.0 for overlapping boxes.

## Model

| member | source | states |
|---|---|---|
| `Geometry.Iou` | backend/main.py:71-86 | For every pair of boxes, IoU lies in [0, 1]. It is 0 exactly when the overlap is empty on some axis. It is 0 whenever the union is not positive. Otherwise IoU times the union area equals the overlap area. |
| `Geometry.OverlapBounds` | backend/main.py:78-86 | When two boxes meet, the overlap area is positive and no larger than either box's area or the union, so the union is positive. |
| `Geometry.IouSymmetric` | backend/main.py:71-86 | IoU(a, b) = IoU(b, a). |
| `Geometry.IouSelf` | backend/main.py:81-86 | A box with positive width and height has IoU exactly 1 with itself. |
| `Geometry.IouZeroWhenApart` | backend/main.py:73-79 | If min(x2) <= max(x1) or min(y2) <= max(y1), the IoU is 0. |
| `Geometry.IouOfDegenerateBox` | backend/main.py:78-79 | A box without positive width and height (flat or inverted) has IoU 0 with every box, in both argument orders. |
| `Rooms.Normalize` | backend/main.py:194-197 | Scaling the normalized value back by dimension/1000 gives the pixel value exactly. A coordinate inside the image lands in [0, 1000]. |
| `Rooms.NormalizeMonotone` | backend/main.py:194-197 | Normalization keeps strict order on each axis. |
| `Rooms.NormalizeBox` | backend/main.py:194-206 | Each normalized corner scales back to its pixel corner (x by width, y by height). A well-formed pixel box gives a well-formed normalized box. |
| `Rooms.ToRoom` | backend/main.py:199-216 | The room record keeps the detection's pixel box, score and polygon, and has no name hint. Before rounding, its normalized box and its pixel box are the same rectangle: scaling the normalized box back by the image size gives the pixel box. A well-formed pixel box gives a well-formed normalized box. |
| `Rooms.RoomId` | backend/main.py:223 | The id of 0-based position i is "room_" followed by decimal digits whose value is i + 1. There are exactly max(3, number of digits of i + 1) of them. |
| `Rooms.RoomIdUnique` | backend/main.py:223 | Those facts leave exactly one string. Any string with the prefix, all-digit suffix, value i + 1 and that width is the id. |
| `Rooms.RoomIdInjective` | backend/main.py:222-223 | Different positions get different ids. |
| `Rooms.RoomIdExamples` | backend/main.py:223 | Positions 0, 1, 41 and 999 get "room_001", "room_002", "room_042" and "room_1000". |
| `Decimal.Digits` | backend/main.py:223 | The plain decimal rendering is non-empty and all digits. It has no leading zero unless it is "0". Reading it back gives the number. |
| `Decimal.PadDecimal` | backend/main.py:223 | The padded rendering reads back to the number. Its length is max(width, number of digits). A number already that wide is not padded. |
| `Decimal.ValueInjective` | backend/main.py:223 | Two digit strings of the same length with the same value are the same string. |
| `Decimal.ValueLeadingZeros` | backend/main.py:223 | Leading zeros do not change the value a digit string denotes. |
| `Ranking.SortByConfidence` | backend/main.py:94 | The sorted rooms are a permutation of the input, ordered by non-increasing confidence. |
| `Ranking.SortStable` | backend/main.py:94 | For every confidence value, the sorted rooms with that confidence appear in input order. |
| `Ranking.StableSortUnique` | backend/main.py:94 | A sequence that is sorted by descending confidence and keeps each confidence group in input order equals the sort's output. |
| `Ranking.SortSorted` | backend/main.py:94 | Sorting an already sorted sequence returns it unchanged. |
| `Suppression.Sweep` | backend/main.py:97-105 | The outer loop only appends to the kept list: the rooms kept before are a prefix of the result, and it grows by at most one room per visited room. |
| `Suppression.Overlaps` | backend/main.py:98-103 | The scan with early exit reports an overlap exactly when some kept room has IoU above the threshold with the candidate. |
| `Suppression.ScanKept` | backend/main.py:98-103 | The inner loop with its `break` sets `overlaps` exactly when the kept rooms do not all have IoU <= threshold with the room. |
| `Suppression.RemoveOverlapping` | backend/main.py:89-107 | Empty input gives empty output. The output is a subsequence of the stably sorted input. Its multiset is contained in the input's, and it is no longer than the input. On non-empty input the most confident room is first. The output is sorted, and no two of its rooms have IoU above the threshold. |
| `Suppression.GreedyPass` | backend/main.py:95-107 | The outer loop over the sorted rooms, keeping each room the scan clears, computes exactly the greedy pass `Sweep` from an empty kept list. |
| `Suppression.RemoveOverlappingRooms` | backend/main.py:89-107 | The early return for an empty list, the sort and the nested loops compute exactly `RemoveOverlapping`, so the kept rooms pairwise respect the threshold. The IoU threshold defaults to 0.3. |
| `Suppression.SweepFromEmpty` | backend/main.py:95-107 | Starting from no kept rooms, on an input sorted by descending confidence (as the source always passes it), the greedy pass yields a sorted, pairwise non-overlapping subsequence of its input. A non-empty input keeps its first room. |
| `Suppression.SweepShape` | backend/main.py:97-105 | The greedy pass only appends to the kept list. What it appends is a subsequence of the rooms it visits. |
| `Suppression.KeptExactlyWhenAdmitted` | backend/main.py:97-105 | The i-th room in confidence order is kept exactly when its IoU with every room kept before it is <= threshold. |
| `Suppression.KeptAfterAll` | backend/main.py:97-107 | After the last room in confidence order, the kept list is the result of overlap removal. |
| `Suppression.SweepSnoc` | backend/main.py:97-105 | Adding one room at the end of the pass decides that room alone: it is appended exactly when the rooms kept so far admit it. |
| `Suppression.SweepKeepsNonOverlapping` | backend/main.py:97-105 | Rooms that already pairwise respect the threshold all survive the pass, in order. |
| `Suppression.RemoveOverlappingIdempotent` | backend/main.py:89-107 | Running overlap removal on its own output, with the same threshold, returns the output unchanged. |
| `Pipeline.ConfidenceFilter` | backend/main.py:174-177 | The passed detections are a subsequence of the input, and each scores at least the threshold. |
| `Pipeline.ConfidenceFilterCounts` | backend/main.py:174-177 | A detection scoring at least the threshold is passed as many times as it occurs in the input. Any other detection is passed zero times. |
| `Pipeline.ConfidenceFilterMembers` | backend/main.py:174-177 | A detection is passed on if and only if it is in the input and scores at least the threshold. |
| `Pipeline.ConfidenceFilterSnoc` | backend/main.py:174-177 | One more detection at the end is appended to the filtered list exactly when its score is not below the threshold. |
| `Pipeline.RoomsOf` | backend/main.py:199-216 | One room record per detection, in order: record i is `ToRoom` of detection i. |
| `Pipeline.Candidates` | backend/main.py:173-216 | The rooms handed to overlap removal are no more than the detections, and every one has confidence >= threshold. |
| `Pipeline.CandidatesSnoc` | backend/main.py:173-216 | One more detection adds its room record at the end when its score is not below the threshold, and nothing otherwise. |
| `Pipeline.CollectCandidates` | backend/main.py:173-216 | The detection loop with `continue` builds exactly the room records of the filtered detections, in order. Every one of them has confidence >= threshold. |
| `Pipeline.AssignIds` | backend/main.py:222-223 | Renumbering keeps the length. Position i gets `RoomId(i)`. Every other field is unchanged. |
| `Pipeline.AssignIdsDistinct` | backend/main.py:222-223 | After renumbering, no two rooms share an id. |
| `Pipeline.RenumberRooms` | backend/main.py:222-223 | The in-place renumbering loop computes exactly `AssignIds`. |
| `Pipeline.AssignIdsSorted` | backend/main.py:222-223 | Renumbering does not change confidences, so a list in non-increasing confidence order stays in it. |
| `Pipeline.AssignIdsNonOverlapping` | backend/main.py:219-223 | Renumbering does not change the pixel boxes, so non-overlap survives it. |
| `Pipeline.Detect` | backend/main.py:141-229 | The response carries the image size. `total_rooms` equals the number of rooms, which is at most the number of detections. No detections gives no rooms. The converse, and which room becomes room_001, are stated by `Pipeline.DetectKeepsBest`. Room i has id `RoomId(i)` and ids are distinct. Every room has confidence >= threshold. Each room's normalized box, before rounding, is its pixel box rescaled. No two rooms overlap beyond `overlap_threshold`. The rooms come in non-increasing confidence order, the order they are numbered in. The thresholds default to 0.7 and 0.3. |
| `Pipeline.DetectKeepsBest` | backend/main.py:94-105 | The response has rooms exactly when some detection scores at least the threshold. Then room_001 is the most confident candidate, renumbered: the first room in confidence order is never suppressed. |
| `Pipeline.DetectRoomsFromDetections` | backend/main.py:172-229 | Every room of the response is the room record of some input detection scoring at least the threshold, under its new id. |
| `Pipeline.DetectRooms` | backend/main.py:141-229 | The handler's pure steps in the source's order, with the same threshold defaults 0.7 and 0.3, produce exactly `Detect`. |
| `Scenarios.NoDetections` | backend/main.py:172-229 | No detections gives a response with zero rooms. |
| `Scenarios.RemovePair` | backend/main.py:89-107 | For two rooms in confidence order, the second is dropped exactly when its IoU with the first exceeds the threshold. |
| `Scenarios.TwoOverlappingBoxes` | backend/main.py:89-107 | Under the default thresholds, boxes (10,10,110,110) scoring 0.9 and (15,15,115,115) scoring 0.8 have IoU 9025/10975 > 0.3. Only the first survives, as room_001. |
| `Scenarios.TwoSeparateBoxes` | backend/main.py:172-229 | Disjoint boxes (0,0,50,50) and (500,500,550,550), both scoring 0.95 on a 1000 x 1000 image, both survive in input order. Their normalized boxes equal their pixel boxes, and their ids are room_001 and room_002. |

## Left out

- HTTP transport, CORS and the `/health` endpoint (backend/main.py:22-31, 131-160): transport glue with no logic of its own. The "model not loaded" and "could not decode image" error responses go with it.
- Model construction, weight loading, device selection and the global `MODEL`/`DEVICE` state (backend/main.py:33-36, 61-68, 110-128): calls into torch and torchvision.
- Image decoding, tensor conversion and inference (backend/main.py:154-170): cv2 and torch calls. The model takes the detections and the image size as inputs instead.
- Mask-to-polygon extraction (backend/main.py:183-191): entirely `cv2.findContours`, `contourArea`, `arcLength` and `approxPolyDP`. Each detection carries its polygon as an opaque `polygon` field, and the room's `vertices` passes it through unchanged.
- Rooms.NormalizeBox: does not model `round(..., 1)` on the normalized coordinates (backend/main.py:201-206), because it is IEEE float rounding. The exact quotient `pixel / dim * 1000` is kept instead.
- Rooms.ToRoom: its "normalized box is the pixel box rescaled" clause holds exactly only because the same `round(..., 1)` (backend/main.py:201-206) is not modelled. In the code each stored corner is that rescaled value rounded to one decimal.
- Pipeline.Detect: the same holds for its "normalized box is the pixel box rescaled" clause, for the same reason.
- Rooms.ToRoom: does not model `round(score, 3)` (backend/main.py:214), because it is float rounding. The room's confidence is the raw score, so the model sorts by the raw score where the code sorts by the rounded one. The two orders differ only where distinct scores round to the same value, such as 0.8001 and 0.8004. On such a tie the code keeps input order, while the model puts the higher raw score first. So on ties the model's order, the room that survives overlap removal and the room numbering can all differ from the code's.
- Pipeline.Detect: "every room has confidence >= threshold" holds in the source only for thresholds with at most three decimals. The filter compares the raw score (backend/main.py:176), but the stored confidence is `round(score, 3)` (backend/main.py:214). For example, threshold 0.7004 and score 0.70041 give a stored 0.7. For every threshold, each room comes from a detection whose raw score is >= threshold (`Pipeline.DetectRoomsFromDetections`).
- Pipeline.CollectCandidates: its bound "confidence >= threshold" depends on the same rounding, for the same reason.
- Pipeline.Candidates: its bound "confidence >= threshold" depends on the same rounding, for the same reason.
- The temporary `uuid`-based ids (backend/main.py:200): randomness, and always overwritten by renumbering. The model uses an empty placeholder id.
- Floats in general: every coordinate, score and threshold is an exact `real`. NaN, infinities, overflow and underflow are therefore not modelled. For example, areas of tiny boxes that underflow to 0.0 make `compute_iou` return 0.0 for overlapping boxes.
