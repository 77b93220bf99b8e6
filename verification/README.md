# UltraFace post-processing and string reversal, in Dafny

This project models the native face detector of a React Native app. It
covers the part that is plain computation and leaves the inference engine
and the image library outside. The detector has four parts:

- **Anchor generation.** `generateAnchors` builds the ordered list of
  normalised prior boxes `(cx, cy, w, h)`. Strides come first, then grid
  rows, then grid columns, then box sizes. The grid is `ceil(size / stride)`
  cells along each side, and every component is clipped into [0, 1]. The
  model is in `anchors.dfy`.
- **Decoding.** `detect` turns the two flat output tensors into candidate
  faces (`decode.dfy`). Anchor `i` is kept when its face score
  `scores[2i+1]` is above 0.95. Its box offsets are decoded with the
  variances 0.1 and 0.2, clipped to [0, 1] and truncated to pixels. The box
  is then made square on its larger side, its origin is clipped into the
  frame, and its score is clipped to at most 1.
- **Greedy non-maximum suppression.** `nms` sorts the candidates by
  descending score. It then repeatedly accepts the first remaining index
  and drops every remaining candidate whose IoU with it is above 0.3. The
  model in `nms.dfy` runs the same index rounds.
- **The lifecycle.** `init` and `detect` use the flag `initialized_` and the
  return codes 0, 10000, 10001 and 10002. The tensors are looked up by
  name first, then by position (`detector.dfy`).

The fixed configuration lives in `config.dfy`:

- the 320 x 240 input;
- the thresholds 0.95 and 0.3;
- the variances;
- the strides 8, 16, 32 and 64, with their box sizes;
- the per-channel mean 127 and norm 1/128.

The `Clip` macro and the integer conversions are in `numeric.dfy`. Sequence
vocabulary is in `seq_util.dfy`:

- `Flatten` is the output of nested appending loops;
- `Select` is the output of a loop that skips items;
- `StrictlyIncreasing` describes index lists.

`reverse.dfy` models `reverseString` of the sample module. It reverses the
UTF-8 bytes of the string.

Single-precision floats are modelled as reals, and `exp` is a function
parameter. The model engine's load result is a boolean parameter of
`init`. What inference produces for an image is a parameter of `detect`: a
list of named output tensors, in the order the engine lists them.

The suppression rounds are stated for any relation `drop` between the
accepted candidate and another one. `Drops(threshold)` instantiates that
relation with the source's IoU test. Of the suppression's properties, the
pairwise and drop-justification results hold for any score-sorted order of
the candidates.

In five places the code does something other than what a reader of its
interface would expect. The model follows the code in each:

- **Zero IoU denominator.** An IoU of two boxes without area would
  naturally be 0. The code divides anyway: 0/0 is NaN and x/0 is
  +infinity, and neither compares `<=` the threshold. The candidate is
  therefore dropped. `Nms.FlatBoxesDropped` states this for two boxes of
  zero area, wherever they lie.
- **Clipping.** One would expect every returned box to lie inside the
  frame. The `Clip` macro tests the lower bound first, so when the
  square's side exceeds a frame side the origin becomes 0 or a negative
  number. `Decode.TallSquareLeavesFrame` exhibits y = -50 in a 200 x 100
  image. `Decode.SquareFace` states exactly when the origin lies in the
  frame.
- **Pixel truncation.** The rectangle is truncated to whole pixels inside
  the decode loop, before it is made square, not when the faces are
  handed out.
- **Missing error codes.** There is no error code for a failure to create
  the inference session or for a tensor of the wrong length. The code
  never checks the session it creates, and it never checks the tensor
  lengths, which the model takes as a precondition (`Decode.Fits`,
  `Detector.Runnable`).
- **Retrying init.** A failed `init` ought to leave the detector
  uninitialized. The code leaves the flag as it was; see Findings.

## Model

| member | source | states |
|---|---|---|
| Numeric.Clip | shared/NativeFaceDetector.cpp:21 | A negative value becomes 0. With a non-negative bound the result lies in [0, bound] and equals the value when it already does. With a negative bound the result is 0 or the bound, because the lower test comes first. |
| Numeric.Trunc | shared/NativeFaceDetector.cpp:202-205 | `static_cast<int>` truncates toward zero: for v >= 0, n <= v < n + 1; for v < 0, n - 1 < v <= n. |
| Config.DefaultFaceInfo | shared/NativeFaceDetector.h:20 | A default `FaceInfo` has position, size and score all 0. |
| Anchors.GridSizeIsCeil | shared/NativeFaceDetector.cpp:240-241 | The number of grid cells along a side is the least whole number of strides that covers it, which is `ceil(size / stride)`. |
| Anchors.MakeAnchor | shared/NativeFaceDetector.cpp:245-256 | Every component of an anchor lies in [0, 1]. |
| Anchors.BuildAnchors | shared/NativeFaceDetector.cpp:228-264 | The triple loop, started from a cleared list, produces exactly the reference anchor list; earlier contents never leak in. |
| Anchors.GenerateLength | shared/NativeFaceDetector.cpp:237-259 | The list has sum over strides of ceil(W/s) * ceil(H/s) * (number of box sizes) entries. |
| Anchors.AnchorIndex | shared/NativeFaceDetector.cpp:237-256 | The anchor for stride i, row y, column x and box k is at position (anchors of strides before i) + (y * numX + x) * (boxes of i) + k, and equals the clipped ((x+0.5)s/W, (y+0.5)s/H, m/W, m/H). So the order is stride-major, then row-major, then box order. |
| Anchors.AnchorsInUnitRange | shared/NativeFaceDetector.cpp:251-256 | Every generated anchor lies in the unit range. |
| Detector.FixedAnchors | shared/NativeFaceDetector.cpp:100-108 | The anchors `init` builds for the fixed configuration number 4420, and every one lies in the unit range. |
| Anchors.FixedAnchorCount | shared/NativeFaceDetector.cpp:101-108 | With the 320 x 240 input, the four strides and the box-size lists of `init`, the list has 40·30·3 + 20·15·2 + 10·8·2 + 5·4·3 = 4420 anchors. |
| Decode.ToPixels | shared/NativeFaceDetector.cpp:202-205 | A clipped coordinate times a positive side truncates to an integer p in [0, side] with p <= c·side < p + 1. |
| Decode.ToPixelRect | shared/NativeFaceDetector.cpp:196-205 | Each field of the decoded pixel rectangle lies between 0 and the matching image dimension. |
| Decode.SquareFace | shared/NativeFaceDetector.cpp:208-216 | Width and height both equal the larger truncated side. The score lies in [0, 1], is unchanged there and is 1 above it. When the side fits a frame side, the origin lies in [0, side limit]; otherwise it is 0 or the negative bound. Without clipping the centre is kept. |
| Decode.DecodeAt | shared/NativeFaceDetector.cpp:193-217 | The face decoded from one anchor is square, its side lies between 0 and the image's larger side, and its score lies in [0, 1]. Along each frame side the square fits across, it lies inside the frame: 0 <= x and x + side <= width, and likewise for y and the height. |
| Decode.KeptIndices | shared/NativeFaceDetector.cpp:189-191 | The kept indices are ascending, every one has a face score above the threshold, and every index with such a score is among them. |
| Decode.DecodeLoop | shared/NativeFaceDetector.cpp:183-218 | The loop that skips low scores and appends decoded faces yields exactly the reference candidate list. |
| Decode.CandidatesIndexed | shared/NativeFaceDetector.cpp:189-217 | There is one candidate per kept anchor, in ascending anchor order, and the k-th candidate is the decode of the k-th kept anchor. |
| Decode.CandidateBounds | shared/NativeFaceDetector.cpp:189-217 | Every candidate is square, no larger than the image's larger side, and scores in [0, 1]. It lies inside the frame along every side it fits across. For a threshold below 1 its score stays above the threshold. |
| Decode.CentredAnchorExample | shared/NativeFaceDetector.cpp:196-216 | Anchor (0.5, 0.5, 0.1, 0.1) with zero offsets and face score 0.99 in a 200 x 100 image decodes to the single face (90, 40, 20, 20, 0.99). |
| Decode.TallSquareLeavesFrame | shared/NativeFaceDetector.cpp:208-214 | A square taller than the frame gets the negative origin y = -50: `Clip` does not keep every face inside the image. |
| Nms.InsertPermutes | shared/NativeFaceDetector.cpp:278-281 | Insertion adds exactly the one candidate to the multiset of the list. |
| Nms.InsertSorted | shared/NativeFaceDetector.cpp:278-281 | Inserting into a score-sorted list keeps it sorted, and the new head is the candidate or the old head. |
| Nms.SortSpec | shared/NativeFaceDetector.cpp:278-281 | The sort returns a permutation of the candidates that is non-increasing in score. |
| Nms.SortOfSorted | shared/NativeFaceDetector.cpp:278-281 | Under the model's stable sort, a list that is already sorted is returned unchanged, ties included. `std::sort` may reorder equal scores. |
| Nms.FlatBoxesDropped | shared/NativeFaceDetector.cpp:299-319 | Two boxes of zero area are always dropped against each other, wherever they lie, because their IoU is 0/0 and never compares `<=` the threshold. |
| Nms.FlatBoxKept | shared/NativeFaceDetector.cpp:299-319 | A box of zero area next to an accepted box of positive area has IoU 0, so it is dropped exactly when the threshold is negative. |
| Nms.SuppressesSymmetric | shared/NativeFaceDetector.cpp:301-313 | The IoU test gives the same answer with the two boxes swapped. |
| Nms.SurvivorsMember | shared/NativeFaceDetector.cpp:296-320 | An index survives a round if and only if it was remaining and the accepted candidate does not drop it. |
| Nms.Rounds | shared/NativeFaceDetector.cpp:288-323 | The accepted indices ascend, stay below the number of candidates, are no more numerous than the pending ones, and start with the first pending index. Each round shrinks the pending list, so the loop ends. |
| Nms.RoundsSubset | shared/NativeFaceDetector.cpp:288-323 | Only pending indices are ever accepted. |
| Nms.RoundsNoSuppression | shared/NativeFaceDetector.cpp:288-323 | No accepted candidate drops a candidate accepted after it. |
| Nms.RoundsDropJustified | shared/NativeFaceDetector.cpp:288-323 | Every pending index left out was dropped by an accepted index before it. |
| Nms.RoundsKeepAll | shared/NativeFaceDetector.cpp:288-323 | When no pending candidate drops a later one, every pending index is accepted. |
| Nms.Numbering | shared/NativeFaceDetector.cpp:283-286 | The index list is filled with 0, 1, ..., n - 1 in order. |
| Nms.SurvivorsLoop | shared/NativeFaceDetector.cpp:289-320 | The inner loop moves exactly the round's survivors, in order, into the fresh index list. |
| Nms.AcceptLoop | shared/NativeFaceDetector.cpp:288-323 | The outer loop outputs the candidates at the accepted indices, in acceptance order. |
| Nms.NmsLoop | shared/NativeFaceDetector.cpp:267-324 | `nms` as written, with the copy, sort, numbering and rounds, equals the reference suppression. |
| Nms.PickWithin | shared/NativeFaceDetector.cpp:288-323 | The candidates at ascending positions below m, as the rounds accept them, form a sub-multiset of the first m candidates. |
| Nms.SuppressWithin | shared/NativeFaceDetector.cpp:267-324 | `nms` returns each candidate at most as many times as the input holds it. |
| Nms.NmsOrder | shared/NativeFaceDetector.cpp:272-322 | The output is empty if and only if the input is, is no longer than the input, is a sub-multiset of the input (so no candidate is repeated beyond its input count), starts with a highest-scoring candidate and is non-increasing in score. |
| Nms.NmsPairwise | shared/NativeFaceDetector.cpp:296-322 | No output box suppresses another, in either order: every pair has IoU at most the threshold. |
| Nms.NmsDropJustified | shared/NativeFaceDetector.cpp:296-322 | Every sorted candidate missing from the output is suppressed by an output box whose score is at least its own. |
| Nms.NmsIdempotent | shared/NativeFaceDetector.cpp:267-324 | Under the model's stable sort, suppressing an already suppressed list returns it unchanged. With `std::sort`, outputs of equal score may come back in another order. |
| Nms.DuplicateCollapses | shared/NativeFaceDetector.cpp:299-319 | Two identical boxes of positive area collapse to one (IoU 1 exceeds any threshold below 1). |
| Detector.NewDetector | shared/NativeFaceDetector.cpp:25-29 | A new detector is not initialized, holds no model and has no anchors. |
| Detector.InitAsWritten | shared/NativeFaceDetector.cpp:38-113 | `init` returns 0 exactly when the model loads, and 10000 otherwise. On success the flag is set and the anchors are exactly `FixedAnchors()`. On failure the model handle is emptied, the anchors stay, and the flag keeps its old value. |
| Detector.FailedReinitKeepsFlag | shared/NativeFaceDetector.cpp:43-49 | A successful `init` followed by a failed one leaves the detector flagged initialized with no model. |
| Detector.Init | shared/NativeFaceDetector.cpp:38-113 | The corrected `init`: the same codes, and the flag is set if and only if this call loaded the model. A success sets the anchors to `FixedAnchors()`, 4420 of them; a failure keeps the old ones. |
| Detector.InitKeepsValid | shared/NativeFaceDetector.cpp:100-110 | A new detector is valid, and every corrected `Init` keeps it valid. A successful `Init` yields the same state whatever the detector held before. The code as written does not keep the detector valid; see `Detector.FailedReinitKeepsFlag`. |
| Detector.RunInits | shared/NativeFaceDetector.cpp:38-113 | With the corrected `Init` (not the code as written, under which the flag stays set once any load succeeded): any sequence of `init` outcomes ends in a valid state that holds a model exactly when it is flagged initialized, and is initialized if and only if the last load succeeded. |
| Detector.InitLoop | shared/NativeFaceDetector.cpp:38-113 | `init` as written, step by step with the anchors built by the loops, gives the same code and state as `InitAsWritten`, including a failure that leaves the flag as it was. |
| Detector.Named | shared/NativeFaceDetector.cpp:141-142 | A named lookup finds nothing if and only if no output has that name; otherwise it returns the data of an output with that name. |
| Detector.ChooseOutputsSpec | shared/NativeFaceDetector.cpp:141-169 | A tensor is missing after both lookups if and only if either no output is named "scores" and there are fewer than two outputs, or no output is named "boxes" and there are none. A tensor found by name is kept; otherwise output 1 becomes the scores and output 0 the boxes. |
| Detector.FallbackLoop | shared/NativeFaceDetector.cpp:145-161 | The positional loop fills only the missing tensors: boxes from output 0, scores from output 1. |
| Detector.Detect | shared/NativeFaceDetector.cpp:115-224 | The return code is 10000 if and only if the detector is not initialized, 10001 if and only if it is and the image is empty, 10002 if and only if both checks pass and a tensor is missing, and 0 otherwise. On every error the face list is empty. |
| Detector.DetectLoop | shared/NativeFaceDetector.cpp:115-224 | `detect` as written, with the clear, the checks, the two lookups, the decode loop and `nms`, equals the reference detection. |
| Detector.DetectedFaces | shared/NativeFaceDetector.cpp:183-221 | A successful detection reports square faces no larger than the image's larger side. Each face lies inside the frame along every side it fits across: 0 <= x and x + side <= columns, and likewise for y and the rows. Their scores lie in (0.95, 1], highest first, and no two faces suppress each other. |
| ByteReverse.Reverse | shared/NativeSampleModule.cpp:13 | The result has the input's length, and byte i is input byte n-1-i. |
| ByteReverse.ReverseLoop | shared/NativeSampleModule.cpp:8-17 | Copying from the last byte to the first yields the reversal. |
| ByteReverse.ReverseInvolution | shared/NativeSampleModule.cpp:13 | Reversing twice gives the input back. |
| ByteReverse.ReverseEmpty | shared/NativeSampleModule.cpp:13 | The result is empty if and only if the input is. |
| ByteReverse.ReverseAppend | shared/NativeSampleModule.cpp:13 | Reversing a concatenation concatenates the reverses in the other order. |
| ByteReverse.MultiByteCharacterSplits | shared/NativeSampleModule.cpp:10-13 | The reversal works on bytes, not characters: a two-byte UTF-8 character comes out with a continuation byte first. |

## Left out

- The MNN interpreter: model loading, session and tensor configuration, `runSession` and `copyToHostTensor`. These belong to a foreign inference engine. The load is a boolean and the outputs are a parameter.
- OpenCV and MNN image processing: `cv::resize`, the BGR-to-RGB conversion, mean/norm pretreatment and the pixel data of `cv::Mat`. Only the rows, the columns and emptiness are modelled; The constants of that arithmetic, mean 127 and norm 1/128, are kept in `Config`.
- Logging, including the debug print in `detect` that reads the first ten score values unconditionally. It is a diagnostic with no effect on the result.
- Single-precision rounding and `exp`. Reals replace floats and `exp` is a parameter, so IEEE results, NaN scores and signed zeros are not modelled.
- The destructor, which releases foreign handles.
- The JSI string conversions around `reverseString`. The model takes and returns UTF-8 bytes, and what the runtime does with the ill-formed UTF-8 a reversal can produce is not modelled.
- The platform glue, module registration, bridge stubs and UI code. None of it computes anything the detector uses.
- The `indexesNms` list in `nms`. It collects dropped indices but is never read.
- Nms.SortByScore: `std::sort` leaves the order of equal scores unspecified. The model fixes a stable order, so the output for equal scores may differ from a given library's. `Nms.RoundsNoSuppression` and `Nms.RoundsDropJustified` hold for any sorted order.
- Decode.Fits: exactly two scores and four offsets per anchor are required. The source never checks the lengths and reads only the first 2N and 4N values, so longer tensors would also work there.
- Detector.Runnable: an initialized detector must hold a model. With the as-written `init` this fails after a failed re-`init` (see Findings); with the corrected `Init` it always holds.
- Detector.Named: the engine keys its outputs by name, so names are unique there. The model takes the first match in the list.
- Integer widths: the pixel values are non-negative and at most the image size, and the grid sizes are small, so the model uses unbounded integers with no wrap-around.

## Findings

| source | as written | input that shows it | evidently intended | confidence | as-written member | corrected member |
|---|---|---|---|---|---|---|
| shared/NativeFaceDetector.cpp:43-49 | A failed `init` replaces the interpreter with an empty handle and returns 10000, but leaves `initialized_` as it was. | `init` succeeds, then `init` with a path that does not load. `detect` then passes the flag test and calls `runSession` on the empty handle. | A failed `init` leaves the detector uninitialized, so `detect` returns 10000. | high (not executed) | Detector.FailedReinitKeepsFlag | Detector.InitKeepsValid |
