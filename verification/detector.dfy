/**
  The detector's lifecycle: `init` loads the model and builds the anchors,
  `detect` checks its state and input, finds the two output tensors of the
  inference engine, decodes them and suppresses overlaps. The inference
  engine itself is outside the model: what it loads is a flag, and what it
  produces for an image is a list of named outputs given as a parameter.
 */
module Detector {
  import opened Numeric
  import opened SeqUtil
  import opened Config
  import opened Anchors
  import opened Decode
  import opened Nms

  datatype Option<T> = None | Some(value: T)

  // ----- Return codes -----

  const Ok: int := 0
  /** `init` could not load the model; `detect` was called before a successful `init`. */
  const NotInitialized: int := 10000
  const EmptyImage: int := 10001
  /** The score or the box tensor could not be found, by name or by position. */
  const MissingOutput: int := 10002

  // ----- State -----

  /** What `init` changes: the flag, whether the engine holds a model, and the anchors. */
  datatype State = State(initialized: bool, loaded: bool, anchors: seq<Anchor>)

  /** A freshly constructed detector. */
  function NewDetector(): (st: State)
    ensures !st.initialized && !st.loaded && st.anchors == []
  {
    State(false, false, [])
  }

  /** The anchors of the fixed input size, strides and box sizes `init` uses. */
  function FixedAnchors(): (a: seq<Anchor>)
    ensures |a| == 4420
    ensures forall x :: x in a ==> InUnitRange(x)
  {
    FixedAnchorCount();
    AnchorsInUnitRange(InputWidth, InputHeight, MinBoxes, Strides);
    GenerateAnchors(InputWidth, InputHeight, MinBoxes, Strides)
  }

  /** The state `detect` can run in: once initialized, the engine holds a
      model and the anchors are those of the fixed configuration. */
  predicate Valid(st: State)
  {
    st.initialized ==> st.loaded && st.anchors == FixedAnchors()
  }

  datatype InitResult = InitResult(code: int, state: State)

  /** `init` as written. On a load failure the engine handle is replaced by
      an empty one and 10000 is returned, but the flag is left as it was. */
  function InitAsWritten(st: State, modelLoads: bool): (r: InitResult)
    ensures r.code == Ok || r.code == NotInitialized
    ensures r.code == Ok <==> modelLoads
    ensures r.state.initialized == (modelLoads || st.initialized)
    ensures r.state.loaded == modelLoads
    ensures modelLoads ==> r.state.anchors == FixedAnchors()
    ensures !modelLoads ==> r.state.anchors == st.anchors
  {
    if !modelLoads then InitResult(NotInitialized, st.(loaded := false))
    else InitResult(Ok, State(true, true, FixedAnchors()))
  }

  /** A successful `init`, then a failed one: the flag still says
      initialized while the engine holds no model, so the next `detect`
      passes the flag test and runs inference on the empty handle. */
  lemma FailedReinitKeepsFlag()
    ensures var st := InitAsWritten(InitAsWritten(NewDetector(), true).state, false).state;
            st.initialized && !st.loaded && !Valid(st)
  {
  }

  /** `init` with the flag cleared on a load failure. */
  function Init(st: State, modelLoads: bool): (r: InitResult)
    ensures r.code == Ok || r.code == NotInitialized
    ensures r.code == Ok <==> modelLoads
    ensures r.state.initialized <==> modelLoads
    ensures r.code == Ok ==> |r.state.anchors| == 4420
    ensures modelLoads ==> r.state.anchors == FixedAnchors()
    ensures !modelLoads ==> r.state.anchors == st.anchors
  {
    if !modelLoads then InitResult(NotInitialized, st.(initialized := false, loaded := false))
    else InitResult(Ok, State(true, true, FixedAnchors()))
  }

  /** A new detector is valid and every corrected `Init` keeps it valid; a
      successful `Init` builds its anchors afresh, whatever the detector held
      before. */
  lemma InitKeepsValid(st: State, modelLoads: bool)
    ensures Valid(NewDetector())
    ensures Valid(Init(st, modelLoads).state)
    ensures modelLoads ==> Init(st, modelLoads).state == Init(NewDetector(), true).state
  {
  }

  /** Every state reachable with the corrected `init` is valid: any
      sequence of `init` outcomes from a new detector ends in a valid state,
      flagged initialized exactly when it holds a model. */
  function RunInits(outcomes: seq<bool>): (st: State)
    ensures Valid(st)
    ensures st.loaded == st.initialized
    ensures st.initialized <==> 0 < |outcomes| && outcomes[|outcomes| - 1]
  {
    if |outcomes| == 0 then NewDetector()
    else Init(RunInits(outcomes[..|outcomes| - 1]), outcomes[|outcomes| - 1]).state
  }

  /** `init` as written, with the model load left to the caller: on a
      failure only the engine handle is emptied; on success the anchor list
      is built by the loops. */
  method InitLoop(st: State, modelLoads: bool) returns (code: int, next: State)
    ensures InitResult(code, next) == InitAsWritten(st, modelLoads)
  {
    if !modelLoads {
      return NotInitialized, st.(loaded := false);
    }
    FixedAnchorCount();
    var anchors := BuildAnchors(InputWidth, InputHeight, MinBoxes, Strides);
    code, next := Ok, State(true, true, anchors);
  }

  // ----- Output lookup -----

  /** One output tensor of the engine, flattened. */
  datatype Output = Output(name: string, data: seq<real>)

  /** The tensor registered under `name`, if any. */
  function Named(outputs: seq<Output>, name: string): (r: Option<seq<real>>)
    ensures r.None? <==> forall k :: 0 <= k < |outputs| ==> outputs[k].name != name
    ensures r.Some? ==> exists k :: 0 <= k < |outputs| && outputs[k].name == name && outputs[k].data == r.value
  {
    if |outputs| == 0 then None
    else if outputs[0].name == name then Some(outputs[0].data)
    else
      var r := Named(outputs[1..], name);
      assert forall k :: 1 <= k < |outputs| ==> outputs[1..][k - 1] == outputs[k];
      r
  }

  datatype Chosen = Chosen(scores: Option<seq<real>>, boxes: Option<seq<real>>)

  /** The positional fallback: output 0 becomes the boxes if they were not
      found by name, output 1 the scores if they were not. */
  function Fallback(outputs: seq<Output>, found: Chosen): (c: Chosen)
  {
    Chosen(
      if found.scores.None? && 1 < |outputs| then Some(outputs[1].data) else found.scores,
      if found.boxes.None? && 0 < |outputs| then Some(outputs[0].data) else found.boxes)
  }

  /** The score and box tensors `detect` ends up with. The fallback runs
      only when a name was missing, and never replaces a tensor found by name. */
  function ChooseOutputs(outputs: seq<Output>): (c: Chosen)
  {
    var found := Chosen(Named(outputs, "scores"), Named(outputs, "boxes"));
    if found.scores.Some? && found.boxes.Some? then found else Fallback(outputs, found)
  }

  /** When a tensor is missing after both lookups. */
  predicate Missing(outputs: seq<Output>)
  {
    var c := ChooseOutputs(outputs);
    c.scores.None? || c.boxes.None?
  }

  /** The scores are found unless no output is named "scores" and there is
      no second output; the boxes unless no output is named "boxes" and
      there is no output at all. A tensor found by name is the one used. */
  lemma ChooseOutputsSpec(outputs: seq<Output>)
    ensures Missing(outputs) <==>
              ((forall k :: 0 <= k < |outputs| ==> outputs[k].name != "scores") && |outputs| < 2) ||
              ((forall k :: 0 <= k < |outputs| ==> outputs[k].name != "boxes") && |outputs| == 0)
    ensures Named(outputs, "scores").Some? ==> ChooseOutputs(outputs).scores == Named(outputs, "scores")
    ensures Named(outputs, "boxes").Some? ==> ChooseOutputs(outputs).boxes == Named(outputs, "boxes")
    ensures Named(outputs, "scores").None? && 1 < |outputs| ==> ChooseOutputs(outputs).scores == Some(outputs[1].data)
    ensures Named(outputs, "boxes").None? && 0 < |outputs| ==> ChooseOutputs(outputs).boxes == Some(outputs[0].data)
  {
  }

  /** The fallback as written: walk the outputs in order with a counter. */
  method FallbackLoop(outputs: seq<Output>, found: Chosen) returns (c: Chosen)
    ensures c == Fallback(outputs, found)
  {
    var scores, boxes := found.scores, found.boxes;
    var idx := 0;
    while idx < |outputs|
      invariant 0 <= idx <= |outputs|
      invariant scores == (if found.scores.None? && 1 < idx then Some(outputs[1].data) else found.scores)
      invariant boxes == (if found.boxes.None? && 0 < idx then Some(outputs[0].data) else found.boxes)
    {
      if idx == 0 && boxes.None? {
        boxes := Some(outputs[idx].data);
      } else if idx == 1 && scores.None? {
        scores := Some(outputs[idx].data);
      }
      idx := idx + 1;
    }
    c := Chosen(scores, boxes);
  }

  // ----- Detection -----

  /** Only whether the image is empty and its size matter here; resizing
      and colour conversion belong to the engine's input side. */
  datatype Image = Image(rows: nat, cols: nat)

  predicate Empty(img: Image)
  {
    img.rows == 0 || img.cols == 0
  }

  /** What `detect` relies on without checking: an initialized detector
      holds a model, and the tensors it picks hold two scores and four box
      offsets per anchor. */
  predicate Runnable(st: State, img: Image, outputs: seq<Output>)
  {
    st.initialized && !Empty(img) && !Missing(outputs) ==>
      st.loaded &&
      Fits(|st.anchors|, ChooseOutputs(outputs).scores.value, ChooseOutputs(outputs).boxes.value)
  }

  datatype Detection = Detection(code: int, faces: seq<FaceInfo>)

  /** `detect`: the output list is cleared first; then the state, the
      image and the tensors are checked in that order, and only a run that
      passes all three decodes and suppresses. */
  function Detect(st: State, img: Image, outputs: seq<Output>, exp: real -> real): (r: Detection)
    requires Runnable(st, img, outputs)
    ensures r.code == NotInitialized <==> !st.initialized
    ensures r.code == EmptyImage <==> st.initialized && Empty(img)
    ensures r.code == MissingOutput <==> st.initialized && !Empty(img) && Missing(outputs)
    ensures r.code == Ok <==> st.initialized && !Empty(img) && !Missing(outputs)
    ensures r.code != Ok ==> r.faces == []
  {
    if !st.initialized then Detection(NotInitialized, [])
    else if Empty(img) then Detection(EmptyImage, [])
    else if Missing(outputs) then Detection(MissingOutput, [])
    else
      var c := ChooseOutputs(outputs);
      var candidates := Candidates(st.anchors, c.scores.value, c.boxes.value, ScoreThreshold, exp, img.cols, img.rows);
      Detection(Ok, Suppress(candidates, IouThreshold))
  }

  /** `detect` as written, with the decode loop and the suppression loop. */
  method DetectLoop(st: State, img: Image, outputs: seq<Output>, exp: real -> real) returns (code: int, faces: seq<FaceInfo>)
    requires Runnable(st, img, outputs)
    ensures Detection(code, faces) == Detect(st, img, outputs, exp)
  {
    faces := [];
    if !st.initialized {
      return NotInitialized, faces;
    }
    if Empty(img) {
      return EmptyImage, faces;
    }
    var found := Chosen(Named(outputs, "scores"), Named(outputs, "boxes"));
    var c := found;
    if found.scores.None? || found.boxes.None? {
      c := FallbackLoop(outputs, found);
    }
    if c.scores.None? || c.boxes.None? {
      return MissingOutput, faces;
    }
    var candidates := DecodeLoop(st.anchors, c.scores.value, c.boxes.value, ScoreThreshold, exp, img.cols, img.rows);
    faces := NmsLoop(candidates, IouThreshold);
    code := Ok;
  }

  /** A successful detection reports square faces inside the image's larger
      side, each inside the frame along every side it fits across, with scores above the threshold and at most 1, highest score
      first, no two of which suppress each other. */
  lemma DetectedFaces(st: State, img: Image, outputs: seq<Output>, exp: real -> real)
    requires Runnable(st, img, outputs)
    requires Detect(st, img, outputs, exp).code == Ok
    ensures forall f :: f in Detect(st, img, outputs, exp).faces ==>
              f.width == f.height && 0.0 <= f.width <= Max(img.cols, img.rows) as real &&
              ScoreThreshold < f.score <= 1.0
    ensures forall f :: f in Detect(st, img, outputs, exp).faces ==>
              (f.width <= img.cols as real ==> 0.0 <= f.x && f.x + f.width <= img.cols as real) &&
              (f.height <= img.rows as real ==> 0.0 <= f.y && f.y + f.height <= img.rows as real)
    ensures SortedByScore(Detect(st, img, outputs, exp).faces)
    ensures forall i, j :: 0 <= i < |Detect(st, img, outputs, exp).faces| && 0 <= j < |Detect(st, img, outputs, exp).faces| && i != j ==>
              !Suppresses(Detect(st, img, outputs, exp).faces[i], Detect(st, img, outputs, exp).faces[j], IouThreshold)
  {
    var c := ChooseOutputs(outputs);
    var candidates := Candidates(st.anchors, c.scores.value, c.boxes.value, ScoreThreshold, exp, img.cols, img.rows);
    CandidateBounds(st.anchors, c.scores.value, c.boxes.value, ScoreThreshold, exp, img.cols, img.rows);
    NmsOrder(candidates, IouThreshold);
    NmsPairwise(candidates, IouThreshold);
  }
}
