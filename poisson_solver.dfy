/**
 * `processImageForLiquidMetal(imageData, width, height)`: the image preprocessing of the liquid
 * metal effect. From an RGBA image it builds the shape mask (alpha > 0), splits the shape into
 * boundary pixels (on the image edge or next to a background pixel, 8-connected) and interior
 * pixels, builds the east/west/north/south neighbour table of the interior, relaxes a field `u`
 * on the interior with red/black successive over-relaxation, normalises it by its maximum, and
 * writes an RGBA image whose red byte is the inverted field and whose green byte is the alpha.
 *
 * Images are row-major: pixel (x, y) is index `y * width + x` and its bytes are at `4 * index`.
 * The field `u` is computed in exact reals here, not in 32-bit floats.
 */
module PoissonSolver {
  import opened GridArith

  const WORKING_SIZE := 256
  const ITERATIONS := 40
  /** The source term and relaxation factor of the solver. */
  const C: real := 0.01
  const OMEGA: real := 1.9

  /** `createPlaceholderImageData()`: a single white, opaque pixel. */
  function PlaceholderImage(): seq<byte> {
    [255, 255, 255, 255]
  }

  method CreatePlaceholderImageData() returns (image: array<byte>)
    ensures fresh(image) && image[..] == PlaceholderImage()
  {
    image := new byte[4];
    image[0], image[1], image[2], image[3] := 255, 255, 255, 255;
  }

  // ---------------------------------------------------------------------------------------
  // The shape mask

  /** Pixel `k` belongs to the shape iff its alpha byte is positive. */
  function ShapeMask(data: seq<byte>): (mask: seq<bool>)
    ensures |mask| == |data| / 4
    ensures forall k :: 0 <= k < |mask| ==> (mask[k] <==> data[4 * k + 3] > 0)
  {
    seq(|data| / 4, k requires 0 <= k < |data| / 4 => data[4 * k + 3] > 0)
  }

  /** The number of shape pixels. */
  function ShapeCount(mask: seq<bool>): nat
    decreases |mask|
  {
    if mask == [] then 0 else ShapeCount(mask[..|mask| - 1]) + (if mask[|mask| - 1] then 1 else 0)
  }

  /** The count is zero exactly when no pixel belongs to the shape. */
  lemma {:induction false} ShapeCountZero(mask: seq<bool>)
    ensures ShapeCount(mask) == 0 <==> forall k :: 0 <= k < |mask| ==> !mask[k]
    decreases |mask|
  {
    if mask != [] {
      var n := |mask| - 1;
      ShapeCountZero(mask[..n]);
      assert forall k :: 0 <= k < n ==> mask[..n][k] == mask[k];
    }
  }

  /** The first pass: one mask entry and one count step per 4-byte pixel. */
  method BuildShapeMask(data: seq<byte>, width: nat, height: nat) returns (shapeMask: array<bool>, shapePixelCount: nat)
    requires |data| == width * height * 4
    ensures fresh(shapeMask)
    ensures shapeMask[..] == ShapeMask(data)
    ensures shapePixelCount == ShapeCount(ShapeMask(data))
  {
    ghost var mask := ShapeMask(data);
    shapeMask := new bool[width * height];
    shapePixelCount := 0;
    var i, idx := 0, 0;
    while i < |data|
      invariant i == 4 * idx && 0 <= idx <= width * height
      invariant forall k :: 0 <= k < idx ==> shapeMask[k] == mask[k]
      invariant shapePixelCount == ShapeCount(mask[..idx])
    {
      var a := data[i + 3];
      var isShape := a > 0;
      shapeMask[idx] := isShape;
      assert mask[..idx + 1][..idx] == mask[..idx];
      shapePixelCount := shapePixelCount + if isShape then 1 else 0;
      i, idx := i + 4, idx + 1;
    }
    assert mask[..idx] == mask;
  }

  // ---------------------------------------------------------------------------------------
  // Boundary and interior

  /** A shape pixel at (x, y); positions outside the image are not shape pixels. */
  predicate ShapeAt(mask: seq<bool>, width: int, x: int, y: int) {
    0 <= x < width && 0 <= y && y * width + x < |mask| && mask[y * width + x]
  }

  predicate OnEdge(width: int, height: int, x: int, y: int) {
    x == 0 || x == width - 1 || y == 0 || y == height - 1
  }

  /** One of the eight pixels around (x, y) is not a shape pixel. */
  predicate HasBackgroundNeighbour(mask: seq<bool>, width: int, x: int, y: int) {
    || !ShapeAt(mask, width, x - 1, y) || !ShapeAt(mask, width, x + 1, y)
    || !ShapeAt(mask, width, x, y - 1) || !ShapeAt(mask, width, x, y + 1)
    || !ShapeAt(mask, width, x - 1, y - 1) || !ShapeAt(mask, width, x + 1, y - 1)
    || !ShapeAt(mask, width, x - 1, y + 1) || !ShapeAt(mask, width, x + 1, y + 1)
  }

  datatype PixelKind = Background | Boundary | Interior

  function KindXY(mask: seq<bool>, width: int, height: int, x: int, y: int): PixelKind {
    if !ShapeAt(mask, width, x, y) then Background
    else if OnEdge(width, height, x, y) || HasBackgroundNeighbour(mask, width, x, y) then Boundary
    else Interior
  }

  /** The kind of the pixel with row-major index `k`. */
  function KindAt(mask: seq<bool>, width: int, height: int, k: int): PixelKind
    requires width > 0
  {
    KindXY(mask, width, height, k % width, k / width)
  }

  /** The indices below `n` of the pixels of one kind, in increasing order. */
  function IndicesOfKind(mask: seq<bool>, width: int, height: int, kind: PixelKind, n: nat): seq<nat>
    requires n == 0 || width > 0
  {
    if n == 0 then []
    else IndicesOfKind(mask, width, height, kind, n - 1) + (if KindAt(mask, width, height, n - 1) == kind then [n - 1] else [])
  }

  lemma {:induction false} IndicesOfKindMembers(mask: seq<bool>, width: int, height: int, kind: PixelKind, n: nat)
    requires n == 0 || width > 0
    ensures forall k :: k in IndicesOfKind(mask, width, height, kind, n) <==> 0 <= k < n && KindAt(mask, width, height, k) == kind
    ensures forall i, j :: 0 <= i < j < |IndicesOfKind(mask, width, height, kind, n)| ==>
      IndicesOfKind(mask, width, height, kind, n)[i] < IndicesOfKind(mask, width, height, kind, n)[j]
    ensures forall i :: 0 <= i < |IndicesOfKind(mask, width, height, kind, n)| ==> IndicesOfKind(mask, width, height, kind, n)[i] < n
  {
    if n > 0 {
      IndicesOfKindMembers(mask, width, height, kind, n - 1);
    }
  }

  /**
   * The split of the shape: every shape pixel is exactly one of boundary or interior, and it is
   * boundary iff it lies on the image edge or one of its eight neighbours is not a shape pixel.
   */
  lemma ShapeSplit(mask: seq<bool>, width: int, height: int, k: int)
    requires width > 0 && |mask| == width * height && 0 <= k < width * height
    ensures mask[k] <==> (|| k in IndicesOfKind(mask, width, height, Boundary, width * height)
                          || k in IndicesOfKind(mask, width, height, Interior, width * height))
    ensures !(k in IndicesOfKind(mask, width, height, Boundary, width * height)
              && k in IndicesOfKind(mask, width, height, Interior, width * height))
    ensures k in IndicesOfKind(mask, width, height, Boundary, width * height) <==>
      mask[k] && (OnEdge(width, height, k % width, k / width) || HasBackgroundNeighbour(mask, width, k % width, k / width))
  {
    IndicesOfKindMembers(mask, width, height, Boundary, width * height);
    IndicesOfKindMembers(mask, width, height, Interior, width * height);
    IndexCoordinates(width, height, k);
  }

  /** The boundary test of the second pass at (x, y), as the loop computes it from the mask array. */
  method IsBoundaryPixel(shapeMask: array<bool>, width: nat, height: nat, x: nat, y: nat) returns (isBoundary: bool)
    requires shapeMask.Length == width * height && x < width && y < height
    ensures isBoundary == (OnEdge(width, height, x, y) || HasBackgroundNeighbour(shapeMask[..], width, x, y))
  {
    var idx := y * width + x;
    if x == 0 || x == width - 1 || y == 0 || y == height - 1 {
      isBoundary := true;
    } else {
      NeighbourCells(width, height, x, y);
      assert (y - 1) * width + (x - 1) == idx - width - 1 && (y - 1) * width + (x + 1) == idx - width + 1;
      assert (y + 1) * width + (x - 1) == idx + width - 1 && (y + 1) * width + (x + 1) == idx + width + 1;
      isBoundary :=
        || !shapeMask[idx - 1]
        || !shapeMask[idx + 1]
        || !shapeMask[idx - width]
        || !shapeMask[idx + width]
        || !shapeMask[idx - width - 1]
        || !shapeMask[idx - width + 1]
        || !shapeMask[idx + width - 1]
        || !shapeMask[idx + width + 1];
    }
  }

  /**
   * The second pass over the rows: boundary pixels are marked in `boundaryMask` and their
   * indices collected in order, interior indices likewise.
   */
  method ClassifyPixels(shapeMask: array<bool>, width: nat, height: nat)
    returns (boundaryMask: array<bool>, boundaryIndices: seq<nat>, interiorIndices: seq<nat>)
    requires width > 0 && shapeMask.Length == width * height
    ensures fresh(boundaryMask) && boundaryMask.Length == width * height
    ensures boundaryIndices == IndicesOfKind(shapeMask[..], width, height, Boundary, width * height)
    ensures interiorIndices == IndicesOfKind(shapeMask[..], width, height, Interior, width * height)
    ensures forall k :: 0 <= k < width * height ==> boundaryMask[k] == (KindAt(shapeMask[..], width, height, k) == Boundary)
  {
    ghost var mask := shapeMask[..];
    boundaryMask := new bool[width * height](_ => false);
    boundaryIndices, interiorIndices := [], [];
    var y := 0;
    while y < height
      invariant 0 <= y <= height
      invariant boundaryIndices == IndicesOfKind(mask, width, height, Boundary, y * width)
      invariant interiorIndices == IndicesOfKind(mask, width, height, Interior, y * width)
      invariant MarkedUpTo(boundaryMask[..], mask, width, height, y * width)
    {
      boundaryIndices, interiorIndices := ClassifyRow(shapeMask, boundaryMask, width, height, y, boundaryIndices, interiorIndices);
      y := y + 1;
    }
    assert height * width == width * height;
  }

  /** The pixels of row `y`, left to right. */
  method ClassifyRow(shapeMask: array<bool>, boundaryMask: array<bool>, width: nat, height: nat, y: nat,
                     boundaryIndices: seq<nat>, interiorIndices: seq<nat>)
    returns (boundaryIndices': seq<nat>, interiorIndices': seq<nat>)
    requires boundaryMask != shapeMask
    requires width > 0 && shapeMask.Length == width * height && boundaryMask.Length == width * height
    requires y < height
    requires boundaryIndices == IndicesOfKind(shapeMask[..], width, height, Boundary, y * width)
    requires interiorIndices == IndicesOfKind(shapeMask[..], width, height, Interior, y * width)
    requires MarkedUpTo(boundaryMask[..], shapeMask[..], width, height, y * width)
    modifies boundaryMask
    ensures boundaryIndices' == IndicesOfKind(shapeMask[..], width, height, Boundary, (y + 1) * width)
    ensures interiorIndices' == IndicesOfKind(shapeMask[..], width, height, Interior, (y + 1) * width)
    ensures MarkedUpTo(boundaryMask[..], shapeMask[..], width, height, (y + 1) * width)
  {
    ghost var mask := shapeMask[..];
    boundaryIndices', interiorIndices' := boundaryIndices, interiorIndices;
    var x := 0;
    while x < width
      invariant 0 <= x <= width
      invariant shapeMask[..] == mask
      invariant boundaryIndices' == IndicesOfKind(mask, width, height, Boundary, y * width + x)
      invariant interiorIndices' == IndicesOfKind(mask, width, height, Interior, y * width + x)
      invariant MarkedUpTo(boundaryMask[..], mask, width, height, y * width + x)
    {
      boundaryIndices', interiorIndices' := ClassifyPixel(shapeMask, boundaryMask, width, height, x, y, boundaryIndices', interiorIndices');
      x := x + 1;
    }
    RowEnd(width, y);
  }

  /** One step of the second pass: pixel (x, y) is recorded as boundary or interior, or skipped. */
  method ClassifyPixel(shapeMask: array<bool>, boundaryMask: array<bool>, width: nat, height: nat, x: nat, y: nat,
                       boundaryIndices: seq<nat>, interiorIndices: seq<nat>)
    returns (boundaryIndices': seq<nat>, interiorIndices': seq<nat>)
    requires boundaryMask != shapeMask
    requires width > 0 && shapeMask.Length == width * height && boundaryMask.Length == width * height
    requires x < width && y < height
    requires boundaryIndices == IndicesOfKind(shapeMask[..], width, height, Boundary, y * width + x)
    requires interiorIndices == IndicesOfKind(shapeMask[..], width, height, Interior, y * width + x)
    requires MarkedUpTo(boundaryMask[..], shapeMask[..], width, height, y * width + x)
    modifies boundaryMask
    ensures boundaryIndices' == IndicesOfKind(shapeMask[..], width, height, Boundary, y * width + x + 1)
    ensures interiorIndices' == IndicesOfKind(shapeMask[..], width, height, Interior, y * width + x + 1)
    ensures MarkedUpTo(boundaryMask[..], shapeMask[..], width, height, y * width + x + 1)
  {
    ghost var mask := shapeMask[..];
    var idx: nat := y * width + x;
    CellInRange(width, height, x, y);
    DivModRow(width, x, y);
    ghost var kind := KindAt(mask, width, height, idx);
    assert kind == KindXY(mask, width, height, x, y);
    ghost var marks := boundaryMask[..];
    MarkStep(marks, mask, width, height, idx);
    IndicesStep(mask, width, height, Boundary, idx);
    IndicesStep(mask, width, height, Interior, idx);
    boundaryIndices', interiorIndices' := boundaryIndices, interiorIndices;
    if shapeMask[idx] {
      var isBoundary := IsBoundaryPixel(shapeMask, width, height, x, y);
      if isBoundary {
        assert kind == Boundary;
        boundaryMask[idx] := true;
        assert boundaryMask[..] == marks[idx := true];
        boundaryIndices' := boundaryIndices + [idx];
      } else {
        assert kind == Interior;
        interiorIndices' := interiorIndices + [idx];
      }
    } else {
      assert kind == Background;
    }
  }

  lemma IndicesStep(mask: seq<bool>, width: int, height: int, kind: PixelKind, n: nat)
    requires width > 0
    ensures IndicesOfKind(mask, width, height, kind, n + 1)
         == IndicesOfKind(mask, width, height, kind, n) + (if KindAt(mask, width, height, n) == kind then [n] else [])
  {
  }

  /** The first `n` entries of the boundary mask are set exactly on the boundary pixels, the rest are clear. */
  ghost predicate MarkedUpTo(marks: seq<bool>, mask: seq<bool>, width: int, height: int, n: int)
    requires width > 0
  {
    forall k :: 0 <= k < |marks| ==> marks[k] == (k < n && KindAt(mask, width, height, k) == Boundary)
  }

  /** Visiting pixel `n` sets its mark exactly when it is a boundary pixel. */
  lemma MarkStep(marks: seq<bool>, mask: seq<bool>, width: int, height: int, n: int)
    requires width > 0 && 0 <= n < |marks| && MarkedUpTo(marks, mask, width, height, n)
    ensures KindAt(mask, width, height, n) == Boundary ==> MarkedUpTo(marks[n := true], mask, width, height, n + 1)
    ensures KindAt(mask, width, height, n) != Boundary ==> MarkedUpTo(marks, mask, width, height, n + 1)
  {
  }

  // ---------------------------------------------------------------------------------------
  // The neighbour table

  /** Entry `dir` (0 east, 1 west, 2 north, 3 south) of pixel `idx`: the neighbour's index when it is an in-image shape pixel, else -1. */
  function NeighborEntry(mask: seq<bool>, width: int, height: int, idx: int, dir: int): (e: int)
    requires width > 0
    ensures e == -1 || (0 <= e < |mask| && mask[e])
  {
    var x, y := idx % width, idx / width;
    if dir == 0 then (if x < width - 1 && 0 <= idx + 1 < |mask| && mask[idx + 1] then idx + 1 else -1)
    else if dir == 1 then (if x > 0 && 0 <= idx - 1 < |mask| && mask[idx - 1] then idx - 1 else -1)
    else if dir == 2 then (if y > 0 && 0 <= idx - width < |mask| && mask[idx - width] then idx - width else -1)
    else (if y < height - 1 && 0 <= idx + width < |mask| && mask[idx + width] then idx + width else -1)
  }

  /** The four table entries of one pixel, as the loop body of `buildSparseData` computes them. */
  method NeighborEntries(shapeMask: array<bool>, idx: nat, width: nat, height: nat) returns (east: int, west: int, north: int, south: int)
    requires width > 0 && shapeMask.Length == width * height && idx < width * height
    ensures east == NeighborEntry(shapeMask[..], width, height, idx, 0)
    ensures west == NeighborEntry(shapeMask[..], width, height, idx, 1)
    ensures north == NeighborEntry(shapeMask[..], width, height, idx, 2)
    ensures south == NeighborEntry(shapeMask[..], width, height, idx, 3)
  {
    ghost var mask := shapeMask[..];
    var x := idx % width;
    var y := idx / width;
    IndexCoordinates(width, height, idx);
    if y > 0 {
      MulAtLeast(y, width);
    }
    if y < height - 1 {
      CellInRange(width, height, x, y + 1);
    }
    if x < width - 1 {
      CellInRange(width, height, x + 1, y);
    }
    east := if x < width - 1 && shapeMask[idx + 1] then idx + 1 else -1;
    west := if x > 0 && shapeMask[idx - 1] then idx - 1 else -1;
    north := if y > 0 && shapeMask[idx - width] then idx - width else -1;
    south := if y < height - 1 && shapeMask[idx + width] then idx + width else -1;
    assert east == NeighborEntry(mask, width, height, idx, 0);
    assert west == NeighborEntry(mask, width, height, idx, 1);
    assert north == NeighborEntry(mask, width, height, idx, 2);
    assert south == NeighborEntry(mask, width, height, idx, 3);
  }

  /** `buildSparseData`: four neighbour entries per interior pixel, in interior order. */
  method BuildSparseData(shapeMask: array<bool>, interiorPixels: seq<nat>, width: nat, height: nat)
    returns (neighborIndices: array<int>)
    requires width > 0 && shapeMask.Length == width * height
    requires forall i :: 0 <= i < |interiorPixels| ==> interiorPixels[i] < width * height
    ensures fresh(neighborIndices) && neighborIndices.Length == |interiorPixels| * 4
    ensures forall i, d :: 0 <= i < |interiorPixels| && 0 <= d < 4 ==>
      neighborIndices[i * 4 + d] == NeighborEntry(shapeMask[..], width, height, interiorPixels[i], d)
  {
    ghost var mask := shapeMask[..];
    var pixelCount := |interiorPixels|;
    neighborIndices := new int[pixelCount * 4];
    var i := 0;
    while i < pixelCount
      invariant 0 <= i <= pixelCount
      invariant forall j, d :: 0 <= j < i && 0 <= d < 4 ==>
        neighborIndices[j * 4 + d] == NeighborEntry(mask, width, height, interiorPixels[j], d)
    {
      var east, west, north, south := NeighborEntries(shapeMask, interiorPixels[i], width, height);
      neighborIndices[i * 4 + 0] := east;
      neighborIndices[i * 4 + 1] := west;
      neighborIndices[i * 4 + 2] := north;
      neighborIndices[i * 4 + 3] := south;
      i := i + 1;
    }
  }

  /**
   * An interior pixel has all four neighbours in the shape, so its table entries are never -1:
   * they are the pixel one step east, west, north and south.
   */
  lemma InteriorNeighbours(mask: seq<bool>, width: int, height: int, idx: int)
    requires width > 0 && |mask| == width * height && 0 <= idx < width * height
    requires KindAt(mask, width, height, idx) == Interior
    ensures NeighborEntry(mask, width, height, idx, 0) == idx + 1
    ensures NeighborEntry(mask, width, height, idx, 1) == idx - 1
    ensures NeighborEntry(mask, width, height, idx, 2) == idx - width
    ensures NeighborEntry(mask, width, height, idx, 3) == idx + width
    ensures forall d :: 0 <= d < 4 ==>
      var n := NeighborEntry(mask, width, height, idx, d); 0 <= n < |mask| && mask[n]
  {
    IndexCoordinates(width, height, idx);
    var x, y := idx % width, idx / width;
    NeighbourCells(width, height, x, y);
  }

  // ---------------------------------------------------------------------------------------
  // Red/black split and relaxation

  /** 0 for a red pixel, `(x + y)` even; 1 for a black one. */
  function Parity(idx: int, width: int): int
    requires width > 0
  {
    (idx % width + idx / width) % 2
  }

  /** The positions below `n` in `pixels` whose pixel has the given parity, in order. */
  function ColourPositions(pixels: seq<nat>, width: int, parity: int, n: nat): seq<nat>
    requires width > 0 && n <= |pixels|
  {
    if n == 0 then []
    else ColourPositions(pixels, width, parity, n - 1) + (if Parity(pixels[n - 1], width) == parity then [n - 1] else [])
  }

  lemma {:induction false} ColourPositionsMembers(pixels: seq<nat>, width: int, parity: int, n: nat)
    requires width > 0 && n <= |pixels|
    ensures forall i :: i in ColourPositions(pixels, width, parity, n) <==> 0 <= i < n && Parity(pixels[i], width) == parity
    ensures forall i, j :: 0 <= i < j < |ColourPositions(pixels, width, parity, n)| ==>
      ColourPositions(pixels, width, parity, n)[i] < ColourPositions(pixels, width, parity, n)[j]
  {
    if n > 0 {
      ColourPositionsMembers(pixels, width, parity, n - 1);
      ColourPositionsBounded(pixels, width, parity, n - 1);
    }
  }

  lemma {:induction false} ColourPositionsBounded(pixels: seq<nat>, width: int, parity: int, n: nat)
    requires width > 0 && n <= |pixels|
    ensures forall j :: 0 <= j < |ColourPositions(pixels, width, parity, n)| ==> ColourPositions(pixels, width, parity, n)[j] < n
  {
    if n > 0 {
      ColourPositionsBounded(pixels, width, parity, n - 1);
    }
  }

  /** Red and black together list every interior position exactly once. */
  lemma RedBlackPartition(pixels: seq<nat>, width: int, i: int)
    requires width > 0 && 0 <= i < |pixels|
    ensures (i in ColourPositions(pixels, width, 0, |pixels|)) != (i in ColourPositions(pixels, width, 1, |pixels|))
  {
    ColourPositionsMembers(pixels, width, 0, |pixels|);
    ColourPositionsMembers(pixels, width, 1, |pixels|);
  }

  /** The classification loop of `solvePoissonSparse`. */
  method SplitRedBlack(interiorPixels: seq<nat>, width: nat) returns (redPixels: seq<nat>, blackPixels: seq<nat>)
    requires width > 0
    ensures redPixels == ColourPositions(interiorPixels, width, 0, |interiorPixels|)
    ensures blackPixels == ColourPositions(interiorPixels, width, 1, |interiorPixels|)
  {
    redPixels, blackPixels := [], [];
    var i := 0;
    while i < |interiorPixels|
      invariant 0 <= i <= |interiorPixels|
      invariant redPixels == ColourPositions(interiorPixels, width, 0, i)
      invariant blackPixels == ColourPositions(interiorPixels, width, 1, i)
    {
      var idx := interiorPixels[i];
      var x := idx % width;
      var y := idx / width;
      if (x + y) % 2 == 0 {
        redPixels := redPixels + [i];
      } else {
        blackPixels := blackPixels + [i];
      }
      i := i + 1;
    }
  }

  /** The relaxed value of one pixel from its neighbours' current values. */
  function Relaxed(sumN: real, current: real): real {
    OMEGA * ((C + sumN) / 4.0) + (1.0 - OMEGA) * current
  }

  /** The sum over the present (non-negative) entries of one pixel's neighbour table. */
  function NeighbourSum(u: seq<real>, e: int, w: int, n: int, s: int): real
    requires -1 <= e < |u| && -1 <= w < |u| && -1 <= n < |u| && -1 <= s < |u|
  {
    (if e >= 0 then u[e] else 0.0) + (if w >= 0 then u[w] else 0.0)
    + (if n >= 0 then u[n] else 0.0) + (if s >= 0 then u[s] else 0.0)
  }

  /**
   * One red or black pass: every listed pixel, in order, takes the relaxed value of its
   * neighbours. Nothing but interior pixels changes.
   */
  method RelaxPass(u: array<real>, positions: seq<nat>, interiorPixels: seq<nat>, neighborIndices: array<int>)
    requires forall j :: 0 <= j < |positions| ==> positions[j] < |interiorPixels|
    requires forall i :: 0 <= i < |interiorPixels| ==> interiorPixels[i] < u.Length
    requires neighborIndices.Length == |interiorPixels| * 4
    requires forall j :: 0 <= j < neighborIndices.Length ==> -1 <= neighborIndices[j] < u.Length
    modifies u
    ensures forall k :: 0 <= k < u.Length && k !in interiorPixels ==> u[k] == old(u[k])
  {
    var j := 0;
    while j < |positions|
      invariant 0 <= j <= |positions|
      invariant forall k :: 0 <= k < u.Length && k !in interiorPixels ==> u[k] == old(u[k])
    {
      var i := positions[j];
      var idx := interiorPixels[i];
      var eastIdx := neighborIndices[i * 4 + 0];
      var westIdx := neighborIndices[i * 4 + 1];
      var northIdx := neighborIndices[i * 4 + 2];
      var southIdx := neighborIndices[i * 4 + 3];
      var sumN := 0.0;
      if eastIdx >= 0 { sumN := sumN + u[eastIdx]; }
      if westIdx >= 0 { sumN := sumN + u[westIdx]; }
      if northIdx >= 0 { sumN := sumN + u[northIdx]; }
      if southIdx >= 0 { sumN := sumN + u[southIdx]; }
      assert sumN == NeighbourSum(u[..], eastIdx, westIdx, northIdx, southIdx);
      u[idx] := Relaxed(sumN, u[idx]);
      j := j + 1;
    }
  }

  /**
   * `solvePoissonSparse`: a zero field, then `ITERATIONS` rounds of a red pass and a black pass.
   * Only interior pixels are ever written, so every other pixel keeps `u = 0`.
   */
  method SolvePoissonSparse(shapeMask: array<bool>, interiorPixels: seq<nat>, neighborIndices: array<int>, width: nat, height: nat)
    returns (u: array<real>)
    requires width > 0 && shapeMask.Length == width * height
    requires forall i :: 0 <= i < |interiorPixels| ==>
      interiorPixels[i] < width * height && KindAt(shapeMask[..], width, height, interiorPixels[i]) == Interior
    requires neighborIndices.Length == |interiorPixels| * 4
    requires forall j :: 0 <= j < neighborIndices.Length ==> -1 <= neighborIndices[j] < width * height
    ensures fresh(u) && u.Length == width * height
    ensures forall k :: 0 <= k < width * height && KindAt(shapeMask[..], width, height, k) != Interior ==> u[k] == 0.0
  {
    ghost var mask := shapeMask[..];
    u := new real[width * height](_ => 0.0);
    var redPixels, blackPixels := SplitRedBlack(interiorPixels, width);
    ColourPositionsBounded(interiorPixels, width, 0, |interiorPixels|);
    ColourPositionsBounded(interiorPixels, width, 1, |interiorPixels|);
    var iter := 0;
    while iter < ITERATIONS
      invariant forall k :: 0 <= k < width * height && KindAt(mask, width, height, k) != Interior ==> u[k] == 0.0
      invariant shapeMask[..] == mask
    {
      RelaxPass(u, redPixels, interiorPixels, neighborIndices);
      RelaxPass(u, blackPixels, interiorPixels, neighborIndices);
      iter := iter + 1;
    }
  }

  // ---------------------------------------------------------------------------------------
  // Normalisation and output

  /** The largest field value over the interior, and 0 when there is none that is positive. */
  method MaxInterior(u: array<real>, interiorPixels: seq<nat>) returns (maxVal: real)
    requires forall i :: 0 <= i < |interiorPixels| ==> interiorPixels[i] < u.Length
    ensures maxVal >= 0.0
    ensures forall i :: 0 <= i < |interiorPixels| ==> u[interiorPixels[i]] <= maxVal
    ensures maxVal == 0.0 || exists i :: 0 <= i < |interiorPixels| && u[interiorPixels[i]] == maxVal
  {
    maxVal := 0.0;
    var i := 0;
    while i < |interiorPixels|
      invariant 0 <= i <= |interiorPixels|
      invariant maxVal >= 0.0
      invariant forall j :: 0 <= j < i ==> u[interiorPixels[j]] <= maxVal
      invariant maxVal == 0.0 || exists j :: 0 <= j < i && u[interiorPixels[j]] == maxVal
    {
      var idx := interiorPixels[i];
      if u[idx] > maxVal {
        maxVal := u[idx];
      }
      i := i + 1;
    }
  }

  /** A `Uint8Array` store keeps the value modulo 256. */
  function ToUint8(n: int): byte {
    (n % 256) as byte
  }

  /** `Math.round`: halves round up. */
  function JsRound(r: real): int {
    (r + 0.5).Floor
  }

  /** The red byte of a shape pixel: `round(255 * (1 - u / maxVal))`, with ratio 0 when `maxVal` is 0. */
  function Gray(u: real, maxVal: real): (b: byte)
    ensures maxVal <= 0.0 ==> b == 255
  {
    var poissonRatio := if maxVal > 0.0 then u / maxVal else 0.0;
    ToUint8(JsRound(255.0 * (1.0 - poissonRatio)))
  }

  /** Byte `c` of output pixel `k`. */
  function PixelByte(data: seq<byte>, mask: seq<bool>, u: seq<real>, maxVal: real, k: int, c: int): (b: byte)
    requires 0 <= k < |mask| && k < |u| && 4 * k + 3 < |data| && 0 <= c < 4
    ensures !mask[k] ==> b == (if c == 1 then 0 else 255)
    ensures mask[k] && c == 1 ==> b == data[4 * k + 3]
    ensures c >= 2 ==> b == 255
  {
    if !mask[k] then [255 as byte, 0, 255, 255][c]
    else [Gray(u[k], maxVal), data[4 * k + 3], 255, 255][c]
  }

  /** A field value of 0 gives the edge colour 255; inside [0, maxVal] the byte needs no wrap-around. */
  lemma GrayFacts(u: real, maxVal: real)
    ensures u == 0.0 ==> Gray(u, maxVal) == 255
    ensures maxVal > 0.0 && u == maxVal ==> Gray(u, maxVal) == 0
    ensures maxVal > 0.0 && 0.0 <= u <= maxVal ==> Gray(u, maxVal) as int == JsRound(255.0 * (1.0 - u / maxVal))
  {
    if u == 0.0 {
      assert JsRound(255.0) == 255;
    }
    if maxVal > 0.0 && u == maxVal {
      assert u / maxVal == 1.0;
      assert JsRound(0.0) == 0;
    }
    if maxVal > 0.0 && 0.0 <= u <= maxVal {
      var g := 255.0 * (1.0 - u / maxVal);
      assert u / maxVal <= 1.0 by {
        assert u / maxVal * maxVal == u;
      }
      assert 0.0 <= g <= 255.0;
      var n := JsRound(g);
      assert n as real <= g + 0.5 < n as real + 1.0;
      assert 0 <= n <= 255;
      assert n % 256 == n;
    }
  }

  /** The output pass: four bytes per pixel, background magenta-on-transparent, shape pixels gray, alpha, 255, 255. */
  method WriteOutput(data: seq<byte>, shapeMask: array<bool>, u: array<real>, maxVal: real, width: nat, height: nat)
    returns (output: array<byte>)
    requires |data| == width * height * 4 && shapeMask.Length == width * height && u.Length == width * height
    ensures fresh(output) && output.Length == width * height * 4
    ensures forall k, c :: 0 <= k < width * height && 0 <= c < 4 ==>
      output[4 * k + c] == PixelByte(data, shapeMask[..], u[..], maxVal, k, c)
  {
    output := new byte[width * height * 4];
    var y := 0;
    while y < height
      invariant 0 <= y <= height
      invariant Written(output[..], data, shapeMask[..], u[..], maxVal, y * width)
    {
      WriteRow(output, data, shapeMask, u, maxVal, width, height, y);
      y := y + 1;
    }
    assert height * width == width * height;
  }

  /** The output bytes of the first `n` pixels are in place. */
  ghost predicate Written(output: seq<byte>, data: seq<byte>, mask: seq<bool>, u: seq<real>, maxVal: real, n: int)
    requires |u| == |mask| && |data| == 4 * |mask| && |output| == |data| && n <= |mask|
  {
    forall k, c :: 0 <= k < n && 0 <= c < 4 ==> output[4 * k + c] == PixelByte(data, mask, u, maxVal, k, c)
  }

  /** The pixels of row `y`, left to right. */
  method WriteRow(output: array<byte>, data: seq<byte>, shapeMask: array<bool>, u: array<real>, maxVal: real,
                  width: nat, height: nat, y: nat)
    requires |data| == width * height * 4 && shapeMask.Length == width * height && u.Length == width * height
    requires output.Length == width * height * 4 && y < height
    requires Written(output[..], data, shapeMask[..], u[..], maxVal, y * width)
    modifies output
    ensures Written(output[..], data, shapeMask[..], u[..], maxVal, (y + 1) * width)
  {
    RowInRange(width, height, y);
    var x := 0;
    while x < width
      invariant 0 <= x <= width
      invariant Written(output[..], data, shapeMask[..], u[..], maxVal, y * width + x)
    {
      WritePixel(output, data, shapeMask, u, maxVal, y * width + x);
      x := x + 1;
    }
  }

  /** Pixel `idx`: a background pixel becomes opaque magenta, a shape pixel gray, its alpha, 255, 255. */
  method WritePixel(output: array<byte>, data: seq<byte>, shapeMask: array<bool>, u: array<real>, maxVal: real, idx: nat)
    requires u.Length == shapeMask.Length && |data| == 4 * shapeMask.Length && output.Length == |data|
    requires idx < shapeMask.Length
    requires Written(output[..], data, shapeMask[..], u[..], maxVal, idx)
    modifies output
    ensures Written(output[..], data, shapeMask[..], u[..], maxVal, idx + 1)
  {
    ghost var before := output[..];
    var px := idx * 4;
    var originalAlpha := data[idx * 4 + 3];
    if !shapeMask[idx] {
      output[px] := 255;
      output[px + 1] := 0;
      output[px + 2] := 255;
      output[px + 3] := 255;
    } else {
      output[px] := Gray(u[idx], maxVal);
      output[px + 1] := originalAlpha;
      output[px + 2] := 255;
      output[px + 3] := 255;
    }
    assert output[..] == before[px := output[px]][px + 1 := output[px + 1]][px + 2 := output[px + 2]][px + 3 := output[px + 3]];
    WrittenStep(before, data, shapeMask[..], u[..], maxVal, idx, output[px], output[px + 1], output[px + 2], output[px + 3]);
  }

  /** Writing the four bytes of pixel `idx` extends the written prefix by that pixel. */
  lemma WrittenStep(before: seq<byte>, data: seq<byte>, mask: seq<bool>, u: seq<real>, maxVal: real, idx: nat,
                    b0: byte, b1: byte, b2: byte, b3: byte)
    requires |u| == |mask| && |data| == 4 * |mask| && |before| == |data| && idx < |mask|
    requires Written(before, data, mask, u, maxVal, idx)
    requires b0 == PixelByte(data, mask, u, maxVal, idx, 0) && b1 == PixelByte(data, mask, u, maxVal, idx, 1)
    requires b2 == PixelByte(data, mask, u, maxVal, idx, 2) && b3 == PixelByte(data, mask, u, maxVal, idx, 3)
    ensures Written(before[4 * idx := b0][4 * idx + 1 := b1][4 * idx + 2 := b2][4 * idx + 3 := b3], data, mask, u, maxVal, idx + 1)
  {
    var after := before[4 * idx := b0][4 * idx + 1 := b1][4 * idx + 2 := b2][4 * idx + 3 := b3];
    forall k, c | 0 <= k < idx + 1 && 0 <= c < 4
      ensures after[4 * k + c] == PixelByte(data, mask, u, maxVal, k, c)
    {
      if k < idx {
        assert 4 * k + c < 4 * idx;
        assert after[4 * k + c] == before[4 * k + c];
      }
    }
  }

  /** What the output promises about pixel `k`, field aside. */
  ghost predicate LayoutOk(output: seq<byte>, data: seq<byte>, width: int, height: int, k: int)
    requires width > 0 && |data| == width * height * 4 && |output| == width * height * 4 && 0 <= k < width * height
  {
    var mask := ShapeMask(data);
    && (!mask[k] ==> output[4 * k] == 255 && output[4 * k + 1] == 0 && output[4 * k + 2] == 255 && output[4 * k + 3] == 255)
    && (mask[k] ==> output[4 * k + 1] == data[4 * k + 3] && output[4 * k + 2] == 255 && output[4 * k + 3] == 255)
    && (KindAt(mask, width, height, k) == Boundary ==> output[4 * k] == 255)
  }

  /**
   * `processImageForLiquidMetal`: the placeholder when no pixel is opaque at all, otherwise an
   * image of the same size whose background pixels are [255, 0, 255, 255], whose shape pixels
   * carry their alpha in green and 255 in blue and alpha, and whose boundary pixels are red 255.
   */
  method ProcessImageForLiquidMetal(imageData: seq<byte>, width: nat, height: nat) returns (output: array<byte>)
    requires |imageData| == width * height * 4
    ensures ShapeCount(ShapeMask(imageData)) == 0 ==> output[..] == PlaceholderImage()
    ensures ShapeCount(ShapeMask(imageData)) > 0 ==>
      && width > 0 && output.Length == width * height * 4
      && forall k :: 0 <= k < width * height ==> LayoutOk(output[..], imageData, width, height, k)
  {
    var shapeMask, shapePixelCount := BuildShapeMask(imageData, width, height);
    if shapePixelCount == 0 {
      output := CreatePlaceholderImageData();
      return;
    }
    assert width > 0;
    var boundaryMask, boundaryIndices, interiorIndices := ClassifyPixels(shapeMask, width, height);
    IndicesOfKindMembers(shapeMask[..], width, height, Interior, width * height);
    var neighborIndices := BuildSparseData(shapeMask, interiorIndices, width, height);
    TableEntriesInRange(shapeMask[..], width, height, interiorIndices, neighborIndices[..]);
    var u := SolvePoissonSparse(shapeMask, interiorIndices, neighborIndices, width, height);
    var maxVal := MaxInterior(u, interiorIndices);
    output := WriteOutput(imageData, shapeMask, u, maxVal, width, height);
    OutputLayout(output[..], imageData, shapeMask[..], u[..], maxVal, width, height);
  }

  /** Every entry of the neighbour table of the interior is a pixel index or -1. */
  lemma TableEntriesInRange(mask: seq<bool>, width: int, height: int, interior: seq<nat>, table: seq<int>)
    requires width > 0 && |mask| == width * height
    requires forall i :: 0 <= i < |interior| ==> interior[i] < width * height && KindAt(mask, width, height, interior[i]) == Interior
    requires |table| == |interior| * 4
    requires forall i, d :: 0 <= i < |interior| && 0 <= d < 4 ==> table[i * 4 + d] == NeighborEntry(mask, width, height, interior[i], d)
    ensures forall j :: 0 <= j < |table| ==> -1 <= table[j] < width * height
  {
    forall j | 0 <= j < |table|
      ensures -1 <= table[j] < width * height
    {
      var i, d := j / 4, j % 4;
      assert j == i * 4 + d;
      InteriorNeighbours(mask, width, height, interior[i]);
    }
  }

  /** The output pass gives the promised layout once the field is 0 off the interior. */
  lemma OutputLayout(output: seq<byte>, data: seq<byte>, mask: seq<bool>, u: seq<real>, maxVal: real, width: int, height: int)
    requires width > 0 && |data| == width * height * 4 && |output| == width * height * 4
    requires mask == ShapeMask(data) && |u| == width * height
    requires forall k, c :: 0 <= k < width * height && 0 <= c < 4 ==> output[4 * k + c] == PixelByte(data, mask, u, maxVal, k, c)
    requires forall k :: 0 <= k < width * height && KindAt(mask, width, height, k) != Interior ==> u[k] == 0.0
    ensures forall k :: 0 <= k < width * height ==> LayoutOk(output, data, width, height, k)
  {
    forall k | 0 <= k < width * height
      ensures LayoutOk(output, data, width, height, k)
    {
      assert output[4 * k] == PixelByte(data, mask, u, maxVal, k, 0);
      assert output[4 * k + 1] == PixelByte(data, mask, u, maxVal, k, 1);
      assert output[4 * k + 2] == PixelByte(data, mask, u, maxVal, k, 2);
      assert output[4 * k + 3] == PixelByte(data, mask, u, maxVal, k, 3);
      GrayFacts(u[k], maxVal);
    }
  }
}
