/**
  The detector's record type and fixed configuration, as declared in the
  class header: the `FaceInfo` record, the model input size, the
  pre-processing mean/norm values, the two thresholds, and the UltraFace
  strides, box sizes and variances that `init` and `detect` hard-code.
 */
module Config {

  /** One detected face: top-left corner, size and confidence. All five are
      `float` in the source. */
  datatype FaceInfo = FaceInfo(x: real, y: real, width: real, height: real, score: real)

  /** The default constructor: every field starts at zero. */
  function DefaultFaceInfo(): (f: FaceInfo)
    ensures f.x == 0.0 && f.y == 0.0
    ensures f.width == 0.0 && f.height == 0.0 && f.score == 0.0
  {
    FaceInfo(0.0, 0.0, 0.0, 0.0, 0.0)
  }

  // Model input size (the tensor is resized to 1 x 3 x 240 x 320).
  const InputWidth: int := 320
  const InputHeight: int := 240

  // Per-channel pre-processing: (pixel - mean) * norm.
  const MeanVals: seq<real> := [127.0, 127.0, 127.0]
  const NormVals: seq<real> := [1.0 / 128.0, 1.0 / 128.0, 1.0 / 128.0]

  // A face score must be strictly above this to become a candidate.
  const ScoreThreshold: real := 0.95
  // A candidate is suppressed when its IoU with an accepted box is above this.
  const IouThreshold: real := 0.3

  // Regression variances used when decoding box offsets.
  const CenterVariance: real := 0.1
  const SizeVariance: real := 0.2

  // Anchor strides and the per-stride minimum box sizes built by `init`.
  const Strides: seq<real> := [8.0, 16.0, 32.0, 64.0]
  const MinBoxes: seq<seq<real>> := [[10.0, 16.0, 24.0], [32.0, 48.0], [64.0, 96.0], [128.0, 192.0, 256.0]]
}
