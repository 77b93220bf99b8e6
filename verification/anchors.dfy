/**
  UltraFace anchor generation (`generateAnchors`). For each stride, in the
  given order, the code lays a grid of ceil(width / stride) by
  ceil(height / stride) cells over the model input, walks it row by row
  (y outer, x inner) and emits one anchor per minimum box size of that
  stride. An anchor is a normalized centre/size `[cx, cy, w, h]`, each
  component clipped into [0, 1].

  `GenerateAnchors` is the reference definition: each loop level becomes a
  list of parts that are concatenated in order. `BuildAnchors` and its
  helpers are the loops themselves.
 */
module Anchors {
  import opened Numeric
  import opened SeqUtil
  import Config

  datatype Anchor = Anchor(cx: real, cy: real, w: real, h: real)

  /** Every component of the anchor lies in [0, 1]. */
  predicate InUnitRange(a: Anchor)
  {
    && 0.0 <= a.cx <= 1.0 && 0.0 <= a.cy <= 1.0
    && 0.0 <= a.w <= 1.0 && 0.0 <= a.h <= 1.0
  }

  /** What the generator needs of its arguments: a positive input size (it
      divides by both sides), a positive stride (it divides by each), and a
      box-size list for every stride (it reads `minBoxes[i]` for each `i`). */
  predicate ValidLayout(width: int, height: int, minBoxes: seq<seq<real>>, strides: seq<real>)
  {
    && 0 < width && 0 < height
    && |strides| <= |minBoxes|
    && forall i :: 0 <= i < |strides| ==> 0.0 < strides[i]
  }

  /** The least n >= start with size <= n * stride, i.e. how many cells of
      the given stride it takes to cover `size`. */
  function CoveringCount(size: int, stride: real, start: nat): (n: nat)
    requires 0 < size && 0.0 < stride && 1 <= start
    requires (start - 1) as real * stride < size as real
    ensures start <= n
    decreases Ceil(size as real / stride) - start
  {
    if size as real <= start as real * stride then start
    else
      StepBelowCeil(size, stride, start);
      CoveringCount(size, stride, start + 1)
  }

  /** While `start` cells fall short of `size`, there is still room below the ceiling. */
  lemma StepBelowCeil(size: int, stride: real, start: nat)
    requires 0 < size && 0.0 < stride
    requires start as real * stride < size as real
    ensures start < Ceil(size as real / stride)
  {
    var v := size as real / stride;
    assert v * stride == size as real;
    assert start as real < v;
  }

  /** Number of grid cells along a side: the least count of stride-wide cells
      covering the side, which is ceil(size / stride) (see `GridSizeIsCeil`). */
  function GridSize(size: int, stride: real): (n: nat)
    requires 0 < size && 0.0 < stride
    ensures 0 < n
  {
    CoveringCount(size, stride, 1)
  }

  /** The covering count from any valid start is ceil(size / stride). */
  lemma {:induction false} CoveringCountIsCeil(size: int, stride: real, start: nat)
    requires 0 < size && 0.0 < stride && 1 <= start
    requires (start - 1) as real * stride < size as real
    ensures CoveringCount(size, stride, start) == Ceil(size as real / stride)
    decreases Ceil(size as real / stride) - start
  {
    var v := size as real / stride;
    assert v * stride == size as real;
    if size as real <= start as real * stride {
      assert (start - 1) as real < v <= start as real;
    } else {
      StepBelowCeil(size, stride, start);
      CoveringCountIsCeil(size, stride, start + 1);
    }
  }

  /** `numX = ceil(width / stride)` and `numY = ceil(height / stride)`. */
  lemma GridSizeIsCeil(size: int, stride: real)
    requires 0 < size && 0.0 < stride
    ensures GridSize(size, stride) == Ceil(size as real / stride)
  {
    CoveringCountIsCeil(size, stride, 1);
  }

  /** The anchor of grid cell (x, y) at the given stride for one box size. */
  function MakeAnchor(width: int, height: int, stride: real, x: nat, y: nat, minBox: real): (a: Anchor)
    requires 0 < width && 0 < height
    ensures InUnitRange(a)
  {
    Anchor(
      Clip((x as real + 0.5) * stride / width as real, 1.0),
      Clip((y as real + 0.5) * stride / height as real, 1.0),
      Clip(minBox / width as real, 1.0),
      Clip(minBox / height as real, 1.0))
  }

  /** The anchors of one cell: one per box size, in the given order. */
  function CellAnchors(width: int, height: int, stride: real, x: nat, y: nat, boxes: seq<real>): seq<Anchor>
    requires 0 < width && 0 < height
  {
    seq(|boxes|, k requires 0 <= k < |boxes| => MakeAnchor(width, height, stride, x, y, boxes[k]))
  }

  /** The cells x = 0 .. nx - 1 of grid row y. */
  function RowCells(width: int, height: int, stride: real, y: nat, boxes: seq<real>, nx: nat): seq<seq<Anchor>>
    requires 0 < width && 0 < height
  {
    seq(nx, x requires 0 <= x => CellAnchors(width, height, stride, x, y, boxes))
  }

  function RowAnchors(width: int, height: int, stride: real, y: nat, boxes: seq<real>, nx: nat): seq<Anchor>
    requires 0 < width && 0 < height
  {
    Flatten(RowCells(width, height, stride, y, boxes, nx))
  }

  /** The rows y = 0 .. ny - 1 of one stride's grid, each nx cells wide. */
  function GridRows(width: int, height: int, stride: real, boxes: seq<real>, nx: nat, ny: nat): seq<seq<Anchor>>
    requires 0 < width && 0 < height
  {
    seq(ny, y requires 0 <= y => RowAnchors(width, height, stride, y, boxes, nx))
  }

  function GridAnchors(width: int, height: int, stride: real, boxes: seq<real>, nx: nat, ny: nat): seq<Anchor>
    requires 0 < width && 0 < height
  {
    Flatten(GridRows(width, height, stride, boxes, nx, ny))
  }

  /** All anchors of one stride. */
  function StrideAnchors(width: int, height: int, stride: real, boxes: seq<real>): seq<Anchor>
    requires 0 < width && 0 < height && 0.0 < stride
  {
    GridAnchors(width, height, stride, boxes, GridSize(width, stride), GridSize(height, stride))
  }

  /** One block of anchors per stride, in stride order. */
  function StrideBlocks(width: int, height: int, minBoxes: seq<seq<real>>, strides: seq<real>): seq<seq<Anchor>>
    requires ValidLayout(width, height, minBoxes, strides)
  {
    seq(|strides|, i requires 0 <= i < |strides| => StrideAnchors(width, height, strides[i], minBoxes[i]))
  }

  /** The anchor list: stride-major, then row-major over the grid, then box-size order. */
  function GenerateAnchors(width: int, height: int, minBoxes: seq<seq<real>>, strides: seq<real>): seq<Anchor>
    requires ValidLayout(width, height, minBoxes, strides)
  {
    Flatten(StrideBlocks(width, height, minBoxes, strides))
  }

  /** The closed-form anchor count:
      sum over i of ceil(height / s_i) * ceil(width / s_i) * |minBoxes[i]|. */
  function AnchorCount(width: int, height: int, minBoxes: seq<seq<real>>, strides: seq<real>): nat
    requires ValidLayout(width, height, minBoxes, strides)
  {
    if |strides| == 0 then 0
    else
      var i := |strides| - 1;
      AnchorCount(width, height, minBoxes, strides[..i])
      + GridSize(height, strides[i]) * (GridSize(width, strides[i]) * |minBoxes[i]|)
  }

  // ----- The loops -----

  /** The innermost loop of the generator: append the anchors of one cell. */
  method AppendCell(anchors: seq<Anchor>, width: int, height: int, stride: real, x: nat, y: nat, boxes: seq<real>)
    returns (r: seq<Anchor>)
    requires 0 < width && 0 < height
    ensures r == anchors + CellAnchors(width, height, stride, x, y, boxes)
  {
    r := anchors;
    var k := 0;
    while k < |boxes|
      invariant 0 <= k <= |boxes|
      invariant r == anchors + CellAnchors(width, height, stride, x, y, boxes)[..k]
    {
      r := r + [MakeAnchor(width, height, stride, x, y, boxes[k])];
      k := k + 1;
    }
  }

  /** The x loop of the generator: append the anchors of one grid row. */
  method AppendRow(anchors: seq<Anchor>, width: int, height: int, stride: real, y: nat, boxes: seq<real>, numX: nat)
    returns (r: seq<Anchor>)
    requires 0 < width && 0 < height
    ensures r == anchors + RowAnchors(width, height, stride, y, boxes, numX)
  {
    ghost var cells := RowCells(width, height, stride, y, boxes, numX);
    r := anchors;
    var x := 0;
    while x < numX
      invariant 0 <= x <= numX
      invariant r == anchors + Flatten(cells[..x])
    {
      r := AppendCell(r, width, height, stride, x, y, boxes);
      FlattenSnoc(cells, x);
      x := x + 1;
    }
    assert cells[..numX] == cells;
  }

  /** The y loop of the generator: append the anchors of a whole grid. */
  method AppendGrid(anchors: seq<Anchor>, width: int, height: int, stride: real, boxes: seq<real>, numX: nat, numY: nat)
    returns (r: seq<Anchor>)
    requires 0 < width && 0 < height
    ensures r == anchors + GridAnchors(width, height, stride, boxes, numX, numY)
  {
    ghost var rows := GridRows(width, height, stride, boxes, numX, numY);
    r := anchors;
    var y := 0;
    while y < numY
      invariant 0 <= y <= numY
      invariant r == anchors + Flatten(rows[..y])
    {
      r := AppendRow(r, width, height, stride, y, boxes, numX);
      FlattenSnoc(rows, y);
      y := y + 1;
    }
    assert rows[..numY] == rows;
  }

  /** The generator's stride loop. It starts from an empty list, so whatever
      the output vector held before never reaches the result. */
  method BuildAnchors(width: int, height: int, minBoxes: seq<seq<real>>, strides: seq<real>)
    returns (anchors: seq<Anchor>)
    requires ValidLayout(width, height, minBoxes, strides)
    ensures anchors == GenerateAnchors(width, height, minBoxes, strides)
  {
    ghost var blocks := StrideBlocks(width, height, minBoxes, strides);
    anchors := [];
    var i := 0;
    while i < |strides|
      invariant 0 <= i <= |strides|
      invariant anchors == Flatten(blocks[..i])
    {
      var stride := strides[i];
      var numX := GridSize(width, stride);
      var numY := GridSize(height, stride);
      anchors := AppendGrid(anchors, width, height, stride, minBoxes[i], numX, numY);
      FlattenSnoc(blocks, i);
      i := i + 1;
    }
    assert blocks[..|strides|] == blocks;
  }

  // ----- Count, ordering and range -----

  lemma RowLength(width: int, height: int, stride: real, y: nat, boxes: seq<real>, nx: nat, x: nat)
    requires 0 < width && 0 < height
    requires x <= nx
    ensures |Flatten(RowCells(width, height, stride, y, boxes, nx)[..x])| == x * |boxes|
  {
    FlattenUniform(RowCells(width, height, stride, y, boxes, nx), |boxes|, x);
  }

  lemma GridLength(width: int, height: int, stride: real, boxes: seq<real>, nx: nat, ny: nat, y: nat)
    requires 0 < width && 0 < height
    requires y <= ny
    ensures |Flatten(GridRows(width, height, stride, boxes, nx, ny)[..y])| == y * (nx * |boxes|)
  {
    var rows := GridRows(width, height, stride, boxes, nx, ny);
    forall j | 0 <= j < ny
      ensures |rows[j]| == nx * |boxes|
    {
      RowLength(width, height, stride, j, boxes, nx, nx);
      assert RowCells(width, height, stride, j, boxes, nx)[..nx] == RowCells(width, height, stride, j, boxes, nx);
    }
    FlattenUniform(rows, nx * |boxes|, y);
  }

  /** The anchors of strides 0 .. n - 1 number exactly the closed-form count. */
  lemma {:induction false} PrefixCount(width: int, height: int, minBoxes: seq<seq<real>>, strides: seq<real>, n: nat)
    requires ValidLayout(width, height, minBoxes, strides)
    requires n <= |strides|
    ensures ValidLayout(width, height, minBoxes, strides[..n])
    ensures |Flatten(StrideBlocks(width, height, minBoxes, strides)[..n])|
            == AnchorCount(width, height, minBoxes, strides[..n])
  {
    if n > 0 {
      var blocks := StrideBlocks(width, height, minBoxes, strides);
      PrefixCount(width, height, minBoxes, strides, n - 1);
      FlattenSnoc(blocks, n - 1);
      var s := strides[n - 1];
      GridLength(width, height, s, minBoxes[n - 1], GridSize(width, s), GridSize(height, s), GridSize(height, s));
      assert GridRows(width, height, s, minBoxes[n - 1], GridSize(width, s), GridSize(height, s))[..GridSize(height, s)]
             == GridRows(width, height, s, minBoxes[n - 1], GridSize(width, s), GridSize(height, s));
      assert strides[..n][..n - 1] == strides[..n - 1];
    }
  }

  /** The generator produces exactly
        sum over i of ceil(width / s_i) * ceil(height / s_i) * |minBoxes[i]|
      anchors. */
  lemma GenerateLength(width: int, height: int, minBoxes: seq<seq<real>>, strides: seq<real>)
    requires ValidLayout(width, height, minBoxes, strides)
    ensures |GenerateAnchors(width, height, minBoxes, strides)| == AnchorCount(width, height, minBoxes, strides)
  {
    PrefixCount(width, height, minBoxes, strides, |strides|);
    assert strides[..|strides|] == strides;
    var blocks := StrideBlocks(width, height, minBoxes, strides);
    assert blocks[..|strides|] == blocks;
  }

  /** (y * nx + x) * m regrouped as y * (nx * m) + x * m. */
  lemma Regroup(y: nat, nx: nat, x: nat, m: nat)
    ensures (y * nx + x) * m == y * (nx * m) + x * m
  {
  }

  /** Within one stride's grid, the anchor of row y, column x and box size k
      sits at position y * (nx * m) + x * m + k, where m is the number of box sizes. */
  lemma GridIndex(width: int, height: int, stride: real, boxes: seq<real>, nx: nat, ny: nat, y: nat, x: nat, k: nat)
    requires 0 < width && 0 < height
    requires y < ny && x < nx && k < |boxes|
    ensures At(GridAnchors(width, height, stride, boxes, nx, ny), y * (nx * |boxes|) + (x * |boxes| + k),
               MakeAnchor(width, height, stride, x, y, boxes[k]))
  {
    var m := |boxes|;
    var cells := RowCells(width, height, stride, y, boxes, nx);
    var rows := GridRows(width, height, stride, boxes, nx, ny);
    FlattenIndex(cells, x, k);
    RowLength(width, height, stride, y, boxes, nx, x);
    assert cells[x][k] == MakeAnchor(width, height, stride, x, y, boxes[k]);
    FlattenIndex(rows, y, x * m + k);
    GridLength(width, height, stride, boxes, nx, ny, y);
  }

  /** The stride blocks of a prefix of the strides are the prefix of the blocks. */
  lemma BlocksPrefix(width: int, height: int, minBoxes: seq<seq<real>>, strides: seq<real>, n: nat)
    requires ValidLayout(width, height, minBoxes, strides)
    requires n <= |strides|
    ensures ValidLayout(width, height, minBoxes, strides[..n])
    ensures StrideBlocks(width, height, minBoxes, strides[..n]) == StrideBlocks(width, height, minBoxes, strides)[..n]
  {
  }

  /** `GridIndex` for the block of stride i. */
  lemma StrideIndex(width: int, height: int, minBoxes: seq<seq<real>>, strides: seq<real>, i: nat, y: nat, x: nat, k: nat)
    requires ValidLayout(width, height, minBoxes, strides)
    requires i < |strides|
    requires y < GridSize(height, strides[i]) && x < GridSize(width, strides[i]) && k < |minBoxes[i]|
    ensures At(StrideBlocks(width, height, minBoxes, strides)[i],
               y * (GridSize(width, strides[i]) * |minBoxes[i]|) + (x * |minBoxes[i]| + k),
               MakeAnchor(width, height, strides[i], x, y, minBoxes[i][k]))
  {
    GridIndex(width, height, strides[i], minBoxes[i], GridSize(width, strides[i]), GridSize(height, strides[i]), y, x, k);
  }

  /** Where the ordering puts the anchor of stride i, grid row y, column x and
      box size k: after every anchor of the earlier strides, then row-major
      over the grid, each cell holding one anchor per box size. */
  function AnchorPosition(width: int, height: int, minBoxes: seq<seq<real>>, strides: seq<real>, i: nat, y: nat, x: nat, k: nat): nat
    requires ValidLayout(width, height, minBoxes, strides)
    requires i < |strides|
  {
    BlocksPrefix(width, height, minBoxes, strides, i);
    |GenerateAnchors(width, height, minBoxes, strides[..i])| + (y * GridSize(width, strides[i]) + x) * |minBoxes[i]| + k
  }

  /** The ordering contract: the anchor of stride i, grid row y, column x and
      box size k sits at position
        (anchors of strides 0 .. i - 1) + (y * numX + x) * |minBoxes[i]| + k,
      i.e. stride-major, then row-major, then box-size order. With
      `GenerateLength` the offset of stride i is the closed-form count of
      the earlier strides. */
  lemma AnchorIndex(width: int, height: int, minBoxes: seq<seq<real>>, strides: seq<real>, i: nat, y: nat, x: nat, k: nat)
    requires ValidLayout(width, height, minBoxes, strides)
    requires i < |strides|
    requires y < GridSize(height, strides[i]) && x < GridSize(width, strides[i]) && k < |minBoxes[i]|
    ensures ValidLayout(width, height, minBoxes, strides[..i])
    ensures AnchorPosition(width, height, minBoxes, strides, i, y, x, k) < |GenerateAnchors(width, height, minBoxes, strides)|
    ensures GenerateAnchors(width, height, minBoxes, strides)[AnchorPosition(width, height, minBoxes, strides, i, y, x, k)]
            == MakeAnchor(width, height, strides[i], x, y, minBoxes[i][k])
  {
    var s, boxes := strides[i], minBoxes[i];
    var nx, m := GridSize(width, s), |boxes|;
    var blocks := StrideBlocks(width, height, minBoxes, strides);
    var g := y * (nx * m) + (x * m + k);
    StrideIndex(width, height, minBoxes, strides, i, y, x, k);
    BlocksPrefix(width, height, minBoxes, strides, i);
    Regroup(y, nx, x, m);
    assert g < |blocks[i]|;
    assert |Flatten(blocks[..i])| == |GenerateAnchors(width, height, minBoxes, strides[..i])|;
    assert AnchorPosition(width, height, minBoxes, strides, i, y, x, k) == |Flatten(blocks[..i])| + g;
    FlattenAt(blocks, i, g, AnchorPosition(width, height, minBoxes, strides, i, y, x, k));
  }

  /** Every anchor of one grid row lies in the unit range. */
  lemma RowInUnitRange(width: int, height: int, stride: real, y: nat, boxes: seq<real>, nx: nat)
    requires 0 < width && 0 < height
    ensures forall a :: a in RowAnchors(width, height, stride, y, boxes, nx) ==> InUnitRange(a)
  {
    var cells := RowCells(width, height, stride, y, boxes, nx);
    forall a | a in RowAnchors(width, height, stride, y, boxes, nx)
      ensures InUnitRange(a)
    {
      FlattenMember(cells, a);
      var x :| 0 <= x < |cells| && a in cells[x];
      var k :| 0 <= k < |cells[x]| && cells[x][k] == a;
    }
  }

  /** Every anchor of one stride's grid lies in the unit range. */
  lemma GridInUnitRange(width: int, height: int, stride: real, boxes: seq<real>, nx: nat, ny: nat)
    requires 0 < width && 0 < height
    ensures forall a :: a in GridAnchors(width, height, stride, boxes, nx, ny) ==> InUnitRange(a)
  {
    var rows := GridRows(width, height, stride, boxes, nx, ny);
    forall a | a in GridAnchors(width, height, stride, boxes, nx, ny)
      ensures InUnitRange(a)
    {
      FlattenMember(rows, a);
      var y :| 0 <= y < |rows| && a in rows[y];
      RowInUnitRange(width, height, stride, y, boxes, nx);
    }
  }

  /** Every generated anchor has all four components in [0, 1]. */
  lemma AnchorsInUnitRange(width: int, height: int, minBoxes: seq<seq<real>>, strides: seq<real>)
    requires ValidLayout(width, height, minBoxes, strides)
    ensures forall a :: a in GenerateAnchors(width, height, minBoxes, strides) ==> InUnitRange(a)
  {
    var blocks := StrideBlocks(width, height, minBoxes, strides);
    forall a | a in GenerateAnchors(width, height, minBoxes, strides)
      ensures InUnitRange(a)
    {
      FlattenMember(blocks, a);
      var i :| 0 <= i < |blocks| && a in blocks[i];
      var s := strides[i];
      GridInUnitRange(width, height, s, minBoxes[i], GridSize(width, s), GridSize(height, s));
    }
  }

  /** The grid sizes of the detector's fixed configuration. */
  lemma FixedGridSizes()
    ensures GridSize(320, 8.0) == 40 && GridSize(240, 8.0) == 30
    ensures GridSize(320, 16.0) == 20 && GridSize(240, 16.0) == 15
    ensures GridSize(320, 32.0) == 10 && GridSize(240, 32.0) == 8
    ensures GridSize(320, 64.0) == 5 && GridSize(240, 64.0) == 4
  {
    GridSizeIsCeil(320, 8.0);
    GridSizeIsCeil(240, 8.0);
    GridSizeIsCeil(320, 16.0);
    GridSizeIsCeil(240, 16.0);
    GridSizeIsCeil(320, 32.0);
    GridSizeIsCeil(240, 32.0);
    GridSizeIsCeil(320, 64.0);
    GridSizeIsCeil(240, 64.0);
  }

  /** With the detector's fixed configuration (320 x 240 input, strides
      8/16/32/64 with 3/2/2/3 box sizes) there are exactly
      40*30*3 + 20*15*2 + 10*8*2 + 5*4*3 = 4420 anchors. */
  lemma FixedAnchorCount()
    ensures ValidLayout(Config.InputWidth, Config.InputHeight, Config.MinBoxes, Config.Strides)
    ensures |GenerateAnchors(Config.InputWidth, Config.InputHeight, Config.MinBoxes, Config.Strides)| == 4420
  {
    var w, h, mb, s := Config.InputWidth, Config.InputHeight, Config.MinBoxes, Config.Strides;
    assert ValidLayout(w, h, mb, s);
    GenerateLength(w, h, mb, s);
    FixedGridSizes();
    assert s[..1][..0] == s[..0];
    assert AnchorCount(w, h, mb, s[..1]) == 3600;
    assert s[..2][..1] == s[..1];
    assert AnchorCount(w, h, mb, s[..2]) == 4200;
    assert s[..3][..2] == s[..2];
    assert AnchorCount(w, h, mb, s[..3]) == 4360;
    assert s[..4][..3] == s[..3];
    assert s[..4] == s;
  }
}
