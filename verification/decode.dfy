/**
  The decode loop of `detect`: for each anchor, in index order, skip it
  unless its face score is strictly above the threshold, otherwise turn the
  anchor plus its four regression values into a pixel rectangle, make that
  rectangle square and clip its origin into the frame.

  The network outputs are two flat arrays: `scores` holds a
  (background, face) pair per anchor and `boxes` holds (dx, dy, dw, dh) per
  anchor. `exp` is a parameter: the model does not fix its values.
 */
module Decode {
  import opened Numeric
  import opened SeqUtil
  import opened Config
  import opened Anchors

  /** The output arrays match the anchor list. The source reads
      `scores[2i + 1]` and `boxes[4i .. 4i + 3]` for every anchor without
      checking the lengths, so its callers must guarantee this. */
  predicate Fits(n: nat, scores: seq<real>, boxes: seq<real>)
  {
    |scores| == 2 * n && |boxes| == 4 * n
  }

  /** The face (second) entry of anchor i's score pair. */
  function FaceScore(scores: seq<real>, i: nat): real
    requires 2 * i + 1 < |scores|
  {
    scores[2 * i + 1]
  }

  /** The integer rectangle (`cv::Rect`) of a decoded box. */
  datatype PixelRect = PixelRect(x: int, y: int, width: int, height: int)

  /** A fraction in [0, 1] of a non-negative dimension stays within it. */
  lemma ScaleUnit(c: real, d: real)
    requires 0.0 <= c <= 1.0 && 0.0 <= d
    ensures 0.0 <= c * d <= d
  {
  }

  /** Truncating a fraction in [0, 1] of an image side gives a pixel count
      within that side. */
  function ToPixels(c: real, side: int): (p: int)
    requires 0.0 <= c <= 1.0 && 0 < side
    ensures 0 <= p <= side
    ensures p as real <= c * side as real < p as real + 1.0
  {
    var v := c * side as real;
    ScaleUnit(c, side as real);
    assert 0.0 <= v <= side as real;
    Trunc(v)
  }

  /** Decode one anchor's regression into a pixel rectangle: centre offsets
      scaled by 0.1 and the anchor size, sizes by exp(0.2 * d) times the
      anchor size, then each of left, top, width and height clipped into
      [0, 1] and scaled to the image. */
  function ToPixelRect(a: Anchor, dx: real, dy: real, dw: real, dh: real, exp: real -> real,
                       width: int, height: int): (r: PixelRect)
    requires 0 < width && 0 < height
    ensures 0 <= r.x <= width && 0 <= r.width <= width
    ensures 0 <= r.y <= height && 0 <= r.height <= height
  {
    var cx := dx * CenterVariance * a.w + a.cx;
    var cy := dy * CenterVariance * a.h + a.cy;
    var w := exp(dw * SizeVariance) * a.w;
    var h := exp(dh * SizeVariance) * a.h;
    PixelRect(
      ToPixels(Clip(cx - w / 2.0, 1.0), width),
      ToPixels(Clip(cy - h / 2.0, 1.0), height),
      ToPixels(Clip(w, 1.0), width),
      ToPixels(Clip(h, 1.0), height))
  }

  /** The origin of the square of side `side` centred on the interval
      [lo, lo + len). */
  function CentredOrigin(lo: int, len: int, side: int): real
  {
    lo as real + 0.5 * len as real - 0.5 * side as real
  }

  /** Turn a rectangle into the square of side max(width, height) with the
      same centre, clip its origin into [0, image side - square side] with
      the lower-bound-first `Clip`, and clip the score into [0, 1]. */
  function SquareFace(r: PixelRect, score: real, width: int, height: int): (f: FaceInfo)
    ensures f.width == f.height == Max(r.width, r.height) as real
    ensures 0.0 <= f.score <= 1.0
    ensures 0.0 <= score <= 1.0 ==> f.score == score
    ensures 1.0 < score ==> f.score == 1.0
    // the square fits across: its origin lies inside the frame
    ensures Max(r.width, r.height) <= width ==> 0.0 <= f.x <= (width - Max(r.width, r.height)) as real
    ensures Max(r.width, r.height) <= height ==> 0.0 <= f.y <= (height - Max(r.width, r.height)) as real
    // it does not: the origin is 0 or the negative bound
    ensures width < Max(r.width, r.height) ==> f.x == 0.0 || f.x == (width - Max(r.width, r.height)) as real
    ensures height < Max(r.width, r.height) ==> f.y == 0.0 || f.y == (height - Max(r.width, r.height)) as real
    // when no clipping is needed the square keeps the rectangle's centre
    ensures 0.0 <= CentredOrigin(r.x, r.width, Max(r.width, r.height)) <= (width - Max(r.width, r.height)) as real
            ==> f.x + f.width / 2.0 == r.x as real + r.width as real / 2.0
    ensures 0.0 <= CentredOrigin(r.y, r.height, Max(r.width, r.height)) <= (height - Max(r.width, r.height)) as real
            ==> f.y + f.height / 2.0 == r.y as real + r.height as real / 2.0
  {
    var side := Max(r.width, r.height);
    FaceInfo(
      Clip(CentredOrigin(r.x, r.width, side), (width - side) as real),
      Clip(CentredOrigin(r.y, r.height, side), (height - side) as real),
      side as real, side as real,
      Clip(score, 1.0))
  }

  /** The candidate decoded from anchor i. */
  function DecodeAt(anchors: seq<Anchor>, scores: seq<real>, boxes: seq<real>, i: nat,
                    exp: real -> real, width: int, height: int): (f: FaceInfo)
    requires Fits(|anchors|, scores, boxes) && i < |anchors|
    requires 0 < width && 0 < height
    ensures f.width == f.height
    ensures 0.0 <= f.width <= Max(width, height) as real
    ensures 0.0 <= f.score <= 1.0
    // a square that fits across a frame side lies inside the frame on that side
    ensures f.width <= width as real ==> 0.0 <= f.x && f.x + f.width <= width as real
    ensures f.height <= height as real ==> 0.0 <= f.y && f.y + f.height <= height as real
  {
    var r := ToPixelRect(anchors[i], boxes[4 * i], boxes[4 * i + 1], boxes[4 * i + 2], boxes[4 * i + 3],
                         exp, width, height);
    SquareFace(r, FaceScore(scores, i), width, height)
  }

  /** For each of the first n anchors: is its face score strictly above the threshold? */
  function KeepFlags(scores: seq<real>, threshold: real, n: nat): (keep: seq<bool>)
    requires 2 * n <= |scores|
    ensures |keep| == n
    ensures forall i :: 0 <= i < n ==> (keep[i] <==> FaceScore(scores, i) > threshold)
  {
    seq(n, i requires 0 <= i < n => FaceScore(scores, i) > threshold)
  }

  /** The anchors among 0 .. n - 1 whose face score is strictly above the
      threshold, in ascending order. */
  function KeptIndices(scores: seq<real>, threshold: real, n: nat): (r: seq<nat>)
    requires 2 * n <= |scores|
    ensures StrictlyIncreasing(r)
    ensures forall k :: 0 <= k < |r| ==> r[k] < n && FaceScore(scores, r[k]) > threshold
    ensures forall i :: 0 <= i < n && FaceScore(scores, i) > threshold ==> i in r
  {
    SelectedIndices(KeepFlags(scores, threshold, n), n)
  }

  /** Every anchor decoded, whether or not it is kept. */
  function DecodedAll(anchors: seq<Anchor>, scores: seq<real>, boxes: seq<real>,
                      exp: real -> real, width: int, height: int): (r: seq<FaceInfo>)
    requires Fits(|anchors|, scores, boxes)
    requires 0 < width && 0 < height
    ensures |r| == |anchors|
  {
    seq(|anchors|, i requires 0 <= i < |anchors| => DecodeAt(anchors, scores, boxes, i, exp, width, height))
  }

  /** The reference decoder: the decoded anchors whose face score is above
      the threshold, in anchor order. */
  function Candidates(anchors: seq<Anchor>, scores: seq<real>, boxes: seq<real>, threshold: real,
                      exp: real -> real, width: int, height: int): seq<FaceInfo>
    requires Fits(|anchors|, scores, boxes)
    requires 0 < width && 0 < height
  {
    Select(DecodedAll(anchors, scores, boxes, exp, width, height),
           KeepFlags(scores, threshold, |anchors|), |anchors|)
  }

  /** One more anchor extends the reference candidates by its decode
      exactly when its face score is above the threshold. */
  lemma CandidatesStep(anchors: seq<Anchor>, scores: seq<real>, boxes: seq<real>, threshold: real,
                       exp: real -> real, width: int, height: int, i: nat)
    requires Fits(|anchors|, scores, boxes)
    requires 0 < width && 0 < height && i < |anchors|
    ensures var decoded := DecodedAll(anchors, scores, boxes, exp, width, height);
            var keep := KeepFlags(scores, threshold, |anchors|);
            Select(decoded, keep, i + 1) ==
              Select(decoded, keep, i)
              + (if FaceScore(scores, i) > threshold then [DecodeAt(anchors, scores, boxes, i, exp, width, height)] else [])
  {
  }

  /** The decode loop of `detect`, starting from an empty candidate list. It
      decodes only the anchors it keeps. */
  method DecodeLoop(anchors: seq<Anchor>, scores: seq<real>, boxes: seq<real>, threshold: real,
                    exp: real -> real, width: int, height: int)
    returns (faces: seq<FaceInfo>)
    requires Fits(|anchors|, scores, boxes)
    requires 0 < width && 0 < height
    ensures faces == Candidates(anchors, scores, boxes, threshold, exp, width, height)
  {
    ghost var decoded := DecodedAll(anchors, scores, boxes, exp, width, height);
    ghost var keep := KeepFlags(scores, threshold, |anchors|);
    faces := [];
    var i := 0;
    while i < |anchors|
      invariant 0 <= i <= |anchors|
      invariant faces == Select(decoded, keep, i)
    {
      CandidatesStep(anchors, scores, boxes, threshold, exp, width, height, i);
      var score := scores[2 * i + 1];
      if score <= threshold {
        i := i + 1;
        continue;
      }
      var face := DecodeAt(anchors, scores, boxes, i, exp, width, height);
      faces := faces + [face];
      i := i + 1;
    }
  }

  /** The reference decoder emits exactly one candidate per kept anchor
      index, in ascending index order. */
  lemma CandidatesIndexed(anchors: seq<Anchor>, scores: seq<real>, boxes: seq<real>, threshold: real,
                          exp: real -> real, width: int, height: int)
    requires Fits(|anchors|, scores, boxes)
    requires 0 < width && 0 < height
    ensures var r := Candidates(anchors, scores, boxes, threshold, exp, width, height);
            var kept := KeptIndices(scores, threshold, |anchors|);
            && |r| == |kept|
            && forall k :: 0 <= k < |r| ==> r[k] == DecodeAt(anchors, scores, boxes, kept[k], exp, width, height)
  {
    SelectIndexed(DecodedAll(anchors, scores, boxes, exp, width, height),
                  KeepFlags(scores, threshold, |anchors|), |anchors|);
  }

  /** What every candidate satisfies: it is square, no wider than the larger
      image side, inside the frame along every side it fits across, and, for
      a threshold below 1, its clipped score is still above the threshold. */
  lemma CandidateBounds(anchors: seq<Anchor>, scores: seq<real>, boxes: seq<real>, threshold: real,
                        exp: real -> real, width: int, height: int)
    requires Fits(|anchors|, scores, boxes)
    requires 0 < width && 0 < height
    ensures var r := Candidates(anchors, scores, boxes, threshold, exp, width, height);
            forall f :: f in r ==>
              && f.width == f.height
              && 0.0 <= f.width <= Max(width, height) as real
              && 0.0 <= f.score <= 1.0
              && (f.width <= width as real ==> 0.0 <= f.x && f.x + f.width <= width as real)
              && (f.height <= height as real ==> 0.0 <= f.y && f.y + f.height <= height as real)
              && (threshold < 1.0 ==> f.score > threshold)
  {
    var r := Candidates(anchors, scores, boxes, threshold, exp, width, height);
    var kept := KeptIndices(scores, threshold, |anchors|);
    CandidatesIndexed(anchors, scores, boxes, threshold, exp, width, height);
    forall f | f in r
      ensures f.width == f.height
      ensures 0.0 <= f.width <= Max(width, height) as real
      ensures 0.0 <= f.score <= 1.0
      ensures f.width <= width as real ==> 0.0 <= f.x && f.x + f.width <= width as real
      ensures f.height <= height as real ==> 0.0 <= f.y && f.y + f.height <= height as real
      ensures threshold < 1.0 ==> f.score > threshold
    {
      var k :| 0 <= k < |r| && r[k] == f;
      var i := kept[k];
      assert FaceScore(scores, i) > threshold;
      assert f == DecodeAt(anchors, scores, boxes, i, exp, width, height);
    }
  }

  /** The worked example: one anchor centred in the unit square with a tenth
      of its size, zero regression, face score 0.99 and a 200 x 100 image.
      The 20 x 10 rectangle at (90, 45) becomes the 20 x 20 square at (90, 40). */
  lemma CentredAnchorExample(exp: real -> real)
    requires exp(0.0) == 1.0
    ensures Fits(1, [0.01, 0.99], [0.0, 0.0, 0.0, 0.0])
    ensures Candidates([Anchor(0.5, 0.5, 0.1, 0.1)], [0.01, 0.99], [0.0, 0.0, 0.0, 0.0], ScoreThreshold, exp, 200, 100)
            == [FaceInfo(90.0, 40.0, 20.0, 20.0, 0.99)]
  {
    var anchors, scores, boxes := [Anchor(0.5, 0.5, 0.1, 0.1)], [0.01, 0.99], [0.0, 0.0, 0.0, 0.0];
    var r := ToPixelRect(anchors[0], 0.0, 0.0, 0.0, 0.0, exp, 200, 100);
    assert r == PixelRect(90, 45, 20, 10);
    var face := DecodeAt(anchors, scores, boxes, 0, exp, 200, 100);
    assert face == SquareFace(r, 0.99, 200, 100) == FaceInfo(90.0, 40.0, 20.0, 20.0, 0.99);
    var decoded := DecodedAll(anchors, scores, boxes, exp, 200, 100);
    var keep := KeepFlags(scores, ScoreThreshold, 1);
    assert decoded[0] == face && keep[0];
    assert Select(decoded, keep, 1) == Select(decoded, keep, 0) + [face];
  }

  /** The square does not always stay inside the frame: an anchor three
      quarters of the image wide and a tenth high near the bottom edge of a
      200 x 100 image decodes to the 150 x 10 rectangle at (0, 90); its
      150-pixel square cannot fit vertically, and the lower-bound-first
      `Clip` puts the top edge at y = -50. */
  lemma TallSquareLeavesFrame(exp: real -> real)
    requires exp(0.0) == 1.0
    ensures Fits(1, [0.01, 0.99], [0.0, 0.0, 0.0, 0.0])
    ensures DecodeAt([Anchor(0.375, 0.95, 0.75, 0.1)], [0.01, 0.99], [0.0, 0.0, 0.0, 0.0], 0, exp, 200, 100).y == -50.0
  {
    var r := ToPixelRect(Anchor(0.375, 0.95, 0.75, 0.1), 0.0, 0.0, 0.0, 0.0, exp, 200, 100);
    assert r == PixelRect(0, 90, 150, 10);
  }
}
