/**
 * `findContentBounds` and `cropPixels` of the liquid metal text rasteriser: the smallest box
 * holding every pixel whose alpha exceeds a threshold, and the copy of that box into a new
 * buffer.
 *
 * A read past the end of a `Uint8Array` gives `undefined`: it is never greater than the
 * threshold, and stored into a `Uint8Array` it becomes 0.
 */
module ContentBounds {
  import opened Wrappers
  import opened GridArith

  /** `{ minX, minY, maxX, maxY }`, both corners included. */
  datatype Bounds = Bounds(minX: int, minY: int, maxX: int, maxY: int)

  /** The alpha byte of pixel (x, y) exists and is greater than the threshold. */
  predicate Visible(pixels: seq<byte>, width: int, threshold: int, x: int, y: int) {
    var i := (y * width + x) * 4 + 3;
    0 <= i < |pixels| && pixels[i] as int > threshold
  }

  ghost predicate AnyVisible(pixels: seq<byte>, width: int, height: int, threshold: int) {
    exists x, y :: 0 <= x < width && 0 <= y < height && Visible(pixels, width, threshold, x, y)
  }

  predicate Inside(b: Bounds, x: int, y: int) {
    b.minX <= x <= b.maxX && b.minY <= y <= b.maxY
  }

  /**
   * `b` is the tight box of the visible pixels: it lies in the image, holds every visible pixel,
   * and each of its four edges passes through one.
   */
  ghost predicate Tight(b: Bounds, pixels: seq<byte>, width: int, height: int, threshold: int) {
    && 0 <= b.minX <= b.maxX < width && 0 <= b.minY <= b.maxY < height
    && (forall x, y :: 0 <= x < width && 0 <= y < height && Visible(pixels, width, threshold, x, y)
          ==> Inside(b, x, y))
    && (exists y :: b.minY <= y <= b.maxY && Visible(pixels, width, threshold, b.minX, y))
    && (exists y :: b.minY <= y <= b.maxY && Visible(pixels, width, threshold, b.maxX, y))
    && (exists x :: b.minX <= x <= b.maxX && Visible(pixels, width, threshold, x, b.minY))
    && (exists x :: b.minX <= x <= b.maxX && Visible(pixels, width, threshold, x, b.maxY))
  }

  /** There is only one tight box. */
  lemma TightUnique(b1: Bounds, b2: Bounds, pixels: seq<byte>, width: int, height: int, threshold: int)
    requires Tight(b1, pixels, width, height, threshold) && Tight(b2, pixels, width, height, threshold)
    ensures b1 == b2
  {
    var y1 :| b1.minY <= y1 <= b1.maxY && Visible(pixels, width, threshold, b1.minX, y1);
    var y2 :| b2.minY <= y2 <= b2.maxY && Visible(pixels, width, threshold, b2.minX, y2);
    assert Inside(b2, b1.minX, y1) && Inside(b1, b2.minX, y2);
    var y3 :| b1.minY <= y3 <= b1.maxY && Visible(pixels, width, threshold, b1.maxX, y3);
    var y4 :| b2.minY <= y4 <= b2.maxY && Visible(pixels, width, threshold, b2.maxX, y4);
    assert Inside(b2, b1.maxX, y3) && Inside(b1, b2.maxX, y4);
    var x1 :| b1.minX <= x1 <= b1.maxX && Visible(pixels, width, threshold, x1, b1.minY);
    var x2 :| b2.minX <= x2 <= b2.maxX && Visible(pixels, width, threshold, x2, b2.minY);
    assert Inside(b2, x1, b1.minY) && Inside(b1, x2, b2.minY);
    var x3 :| b1.minX <= x3 <= b1.maxX && Visible(pixels, width, threshold, x3, b1.maxY);
    var x4 :| b2.minX <= x4 <= b2.maxX && Visible(pixels, width, threshold, x4, b2.maxY);
    assert Inside(b2, x3, b1.maxY) && Inside(b1, x4, b2.maxY);
  }

  // ---------------------------------------------------------------------------------------
  // findContentBounds

  function Min(a: int, b: int): int { if a <= b then a else b }
  function Max(a: int, b: int): int { if a >= b then a else b }

  /** Pixel (x, y) comes before (cx, cy) in the row-by-row scan. */
  predicate Scanned(x: int, y: int, cx: int, cy: int) {
    y < cy || (y == cy && x < cx)
  }

  /**
   * The running box after the scan reached (cx, cy): the initial values while nothing visible
   * was scanned, and otherwise the tight box of the scanned visible pixels, with ghost
   * witnesses for its four edges.
   */
  ghost predicate ScanState(pixels: seq<byte>, width: int, height: int, threshold: int, cx: int, cy: int,
                            b: Bounds, found: bool, w: (int, int, int, int))
  {
    && (!found ==> b == Bounds(width, height, 0, 0))
    && (!found ==> forall x, y :: 0 <= x < width && 0 <= y < height && Scanned(x, y, cx, cy)
                                 ==> !Visible(pixels, width, threshold, x, y))
    && (found ==> 0 <= b.minX <= b.maxX < width && 0 <= b.minY <= b.maxY < height)
    && (found ==> forall x, y ::
          (0 <= x < width && 0 <= y < height && Scanned(x, y, cx, cy) && Visible(pixels, width, threshold, x, y))
          ==> Inside(b, x, y))
    && (found ==> b.minY <= w.0 <= b.maxY && Visible(pixels, width, threshold, b.minX, w.0))
    && (found ==> b.minY <= w.1 <= b.maxY && Visible(pixels, width, threshold, b.maxX, w.1))
    && (found ==> b.minX <= w.2 <= b.maxX && Visible(pixels, width, threshold, w.2, b.minY))
    && (found ==> b.minX <= w.3 <= b.maxX && Visible(pixels, width, threshold, w.3, b.maxY))
  }

  /**
   * `findContentBounds(pixels, width, height, alphaThreshold)`: the tight box when some pixel
   * is visible; otherwise `null`, except for an image with no pixels at all (0 by 0), where the
   * initial values already satisfy `maxX >= minX` and `maxY >= minY` and the box (0, 0, 0, 0)
   * comes back.
   */
  method FindContentBounds(pixels: array<byte>, width: nat, height: nat, alphaThreshold: int)
    returns (r: Option<Bounds>)
    ensures AnyVisible(pixels[..], width, height, alphaThreshold)
      ==> r.Some? && Tight(r.value, pixels[..], width, height, alphaThreshold)
    ensures !AnyVisible(pixels[..], width, height, alphaThreshold)
      ==> r == if width > 0 || height > 0 then None else Some(Bounds(0, 0, 0, 0))
  {
    var minX, minY, maxX, maxY := width, height, 0, 0;
    ghost var found := false;
    ghost var w := (0, 0, 0, 0);
    ScanStart(pixels[..], width, height, alphaThreshold);
    var y := 0;
    while y < height
      invariant 0 <= y <= height
      invariant ScanState(pixels[..], width, height, alphaThreshold, 0, y,
                          Bounds(minX, minY, maxX, maxY), found, w)
    {
      var x := 0;
      while x < width
        invariant 0 <= x <= width
        invariant ScanState(pixels[..], width, height, alphaThreshold, x, y,
                            Bounds(minX, minY, maxX, maxY), found, w)
      {
        var i := (y * width + x) * 4 + 3;
        assert 0 <= i by {
          assert y * width >= 0;
        }
        var visible := i < pixels.Length && pixels[i] as int > alphaThreshold;
        assert visible == Visible(pixels[..], width, alphaThreshold, x, y);
        if visible {
          ScanVisible(pixels[..], width, height, alphaThreshold, x, y, Bounds(minX, minY, maxX, maxY), found, w);
          w := Witnesses(Bounds(minX, minY, maxX, maxY), found, w, x, y);
          found := true;
          minX := Min(minX, x);
          minY := Min(minY, y);
          maxX := Max(maxX, x);
          maxY := Max(maxY, y);
        } else {
          ScanInvisible(pixels[..], width, height, alphaThreshold, x, y, Bounds(minX, minY, maxX, maxY), found, w);
        }
        x := x + 1;
      }
      ScanNextRow(pixels[..], width, height, alphaThreshold, y, Bounds(minX, minY, maxX, maxY), found, w);
      y := y + 1;
    }
    ScanComplete(pixels[..], width, height, alphaThreshold, Bounds(minX, minY, maxX, maxY), found, w);
    if maxX < minX || maxY < minY {
      r := None;
    } else {
      r := Some(Bounds(minX, minY, maxX, maxY));
    }
  }

  /** The edge witnesses after visible pixel (x, y) is taken into the box `b`. */
  function Witnesses(b: Bounds, found: bool, w: (int, int, int, int), x: int, y: int): (int, int, int, int) {
    if !found then (y, y, x, x)
    else (if x < b.minX then y else w.0, if x > b.maxX then y else w.1,
          if y < b.minY then x else w.2, if y > b.maxY then x else w.3)
  }

  /** Taking a visible pixel into the box keeps the scan state. */
  lemma ScanVisible(pixels: seq<byte>, width: int, height: int, threshold: int, x: int, y: int,
                    b: Bounds, found: bool, w: (int, int, int, int))
    requires 0 <= x < width && 0 <= y < height && Visible(pixels, width, threshold, x, y)
    requires ScanState(pixels, width, height, threshold, x, y, b, found, w)
    ensures ScanState(pixels, width, height, threshold, x + 1, y,
                      Bounds(Min(b.minX, x), Min(b.minY, y), Max(b.maxX, x), Max(b.maxY, y)),
                      true, Witnesses(b, found, w, x, y))
  {
  }

  /** Skipping an invisible pixel keeps the scan state. */
  lemma ScanInvisible(pixels: seq<byte>, width: int, height: int, threshold: int, x: int, y: int,
                      b: Bounds, found: bool, w: (int, int, int, int))
    requires !Visible(pixels, width, threshold, x, y)
    requires ScanState(pixels, width, height, threshold, x, y, b, found, w)
    ensures ScanState(pixels, width, height, threshold, x + 1, y, b, found, w)
  {
  }

  /** Before the scan nothing is scanned. */
  lemma ScanStart(pixels: seq<byte>, width: int, height: int, threshold: int)
    ensures ScanState(pixels, width, height, threshold, 0, 0, Bounds(width, height, 0, 0), false, (0, 0, 0, 0))
  {
  }

  /** The end of a row is the start of the next one. */
  lemma ScanNextRow(pixels: seq<byte>, width: int, height: int, threshold: int, y: int,
                    b: Bounds, found: bool, w: (int, int, int, int))
    requires ScanState(pixels, width, height, threshold, width, y, b, found, w)
    ensures ScanState(pixels, width, height, threshold, 0, y + 1, b, found, w)
  {
  }

  /** A complete scan gives the tight box, or the initial values when nothing is visible. */
  lemma ScanComplete(pixels: seq<byte>, width: int, height: int, threshold: int,
                     b: Bounds, found: bool, w: (int, int, int, int))
    requires width >= 0 && height >= 0
    requires ScanState(pixels, width, height, threshold, 0, height, b, found, w)
    ensures found <==> AnyVisible(pixels, width, height, threshold)
    ensures found ==> Tight(b, pixels, width, height, threshold)
    ensures !found ==> b == Bounds(width, height, 0, 0)
  {
    if found {
      assert Visible(pixels, width, threshold, b.minX, w.0);
    }
  }

  // ---------------------------------------------------------------------------------------
  // cropPixels

  /** Where byte `c` of pixel (x, y) of a `width`-wide buffer sits. */
  function ByteIndex(width: int, x: int, y: int, c: int): int {
    (y * width + x) * 4 + c
  }

  /** `pixels[i]` as stored into a `Uint8Array`: 0 when `i` is past the end. */
  function Read(pixels: seq<byte>, i: int): byte {
    if 0 <= i < |pixels| then pixels[i] else 0
  }

  predicate ValidBounds(b: Bounds) {
    0 <= b.minX <= b.maxX && 0 <= b.minY <= b.maxY
  }

  function CropWidth(b: Bounds): nat requires ValidBounds(b) { b.maxX - b.minX + 1 }
  function CropHeight(b: Bounds): nat requires ValidBounds(b) { b.maxY - b.minY + 1 }

  /**
   * `out` is the box `b` of `pixels` (`srcWidth` wide): it has `CropWidth(b) * CropHeight(b)`
   * pixels, and byte `c` of its pixel (x, y) is byte `c` of source pixel (minX + x, minY + y).
   */
  ghost predicate IsCrop(out: seq<byte>, pixels: seq<byte>, srcWidth: int, b: Bounds)
    requires ValidBounds(b)
  {
    && |out| == CropWidth(b) * CropHeight(b) * 4
    && forall x, y, c :: 0 <= x < CropWidth(b) && 0 <= y < CropHeight(b) && 0 <= c < 4
         ==> 0 <= ByteIndex(CropWidth(b), x, y, c) < |out|
             && out[ByteIndex(CropWidth(b), x, y, c)] == Read(pixels, ByteIndex(srcWidth, b.minX + x, b.minY + y, c))
  }

  /** The box of any buffer exists. */
  lemma CropExists(pixels: seq<byte>, srcWidth: int, b: Bounds)
    requires ValidBounds(b)
    ensures exists out :: IsCrop(out, pixels, srcWidth, b)
  {
    var w, h := CropWidth(b), CropHeight(b);
    forall x, y, c | 0 <= x < w && 0 <= y < h && 0 <= c < 4
      ensures 0 <= ByteIndex(w, x, y, c) < |Cropped(pixels, srcWidth, b)|
      ensures Cropped(pixels, srcWidth, b)[ByteIndex(w, x, y, c)]
           == Read(pixels, ByteIndex(srcWidth, b.minX + x, b.minY + y, c))
    {
      CroppedAt(pixels, srcWidth, b, x, y, c);
    }
    assert IsCrop(Cropped(pixels, srcWidth, b), pixels, srcWidth, b);
  }

  /** A buffer for the box, byte `k` read back from its pixel and channel. */
  function Cropped(pixels: seq<byte>, srcWidth: int, b: Bounds): seq<byte>
    requires ValidBounds(b)
  {
    var w := CropWidth(b);
    seq(w * CropHeight(b) * 4, k requires 0 <= k =>
      Read(pixels, ByteIndex(srcWidth, b.minX + (k / 4) % w, b.minY + (k / 4) / w, k % 4)))
  }

  lemma CroppedAt(pixels: seq<byte>, srcWidth: int, b: Bounds, x: int, y: int, c: int)
    requires ValidBounds(b) && 0 <= x < CropWidth(b) && 0 <= y < CropHeight(b) && 0 <= c < 4
    ensures 0 <= ByteIndex(CropWidth(b), x, y, c) < |Cropped(pixels, srcWidth, b)|
    ensures Cropped(pixels, srcWidth, b)[ByteIndex(CropWidth(b), x, y, c)]
         == Read(pixels, ByteIndex(srcWidth, b.minX + x, b.minY + y, c))
  {
    var w, h := CropWidth(b), CropHeight(b);
    var p := y * w + x;
    CellInRange(w, h, x, y);
    DivModRow(4, c, p);
    DivModRow(w, x, y);
    assert (p * 4 + c) / 4 == p && (p * 4 + c) % 4 == c;
  }

  /** The box determines the cropped buffer: every byte of it is a byte of some pixel. */
  lemma CropUnique(out1: seq<byte>, out2: seq<byte>, pixels: seq<byte>, srcWidth: int, b: Bounds)
    requires ValidBounds(b) && IsCrop(out1, pixels, srcWidth, b) && IsCrop(out2, pixels, srcWidth, b)
    ensures out1 == out2
  {
    var w, h := CropWidth(b), CropHeight(b);
    forall k | 0 <= k < |out1|
      ensures out1[k] == out2[k]
    {
      var p := k / 4;
      DivModRow(4, k % 4, p);
      assert p * 4 + k % 4 == k;
      IndexCoordinates(w, h, p);
      assert k == ByteIndex(w, p % w, p / w, k % 4);
    }
  }

  /**
   * `cropPixels(pixels, srcWidth, bounds)`: a new buffer holding the box, row by row. The box
   * must be a real one (`findContentBounds` only returns such), since `new Uint8Array` of a
   * negative size throws.
   */
  method CropPixels(pixels: array<byte>, srcWidth: nat, bounds: Bounds)
    returns (newPixels: array<byte>, width: nat, height: nat)
    requires ValidBounds(bounds)
    ensures width == CropWidth(bounds) && height == CropHeight(bounds)
    ensures fresh(newPixels) && IsCrop(newPixels[..], pixels[..], srcWidth, bounds)
  {
    var newWidth := bounds.maxX - bounds.minX + 1;
    var newHeight := bounds.maxY - bounds.minY + 1;
    newPixels := new byte[newWidth * newHeight * 4];
    CropExists(pixels[..], srcWidth, bounds);
    ghost var target :| IsCrop(target, pixels[..], srcWidth, bounds);
    var y := 0;
    while y < newHeight
      invariant 0 <= y <= newHeight
      invariant Filled(newPixels[..], target, y * newWidth * 4)
    {
      CropRow(pixels, srcWidth, bounds, newPixels, target, y);
      y := y + 1;
    }
    assert newHeight * newWidth * 4 == |target| by { CropSize(bounds); }
    FilledAll(newPixels[..], target);
    width, height := newWidth, newHeight;
  }

  /** The box's bytes, counted row by row. */
  lemma CropSize(b: Bounds)
    requires ValidBounds(b)
    ensures CropHeight(b) * CropWidth(b) * 4 == CropWidth(b) * CropHeight(b) * 4
  {
  }

  /** Row `y` of the box, left to right. */
  method CropRow(pixels: array<byte>, srcWidth: nat, bounds: Bounds, newPixels: array<byte>, ghost target: seq<byte>, y: nat)
    requires ValidBounds(bounds) && IsCrop(target, pixels[..], srcWidth, bounds)
    requires pixels != newPixels && newPixels.Length == |target| && y < CropHeight(bounds)
    requires Filled(newPixels[..], target, y * CropWidth(bounds) * 4)
    modifies newPixels
    ensures Filled(newPixels[..], target, (y + 1) * CropWidth(bounds) * 4)
  {
    var newWidth := bounds.maxX - bounds.minX + 1;
    RowEnd(newWidth, y);
    var x := 0;
    while x < newWidth
      invariant 0 <= x <= newWidth
      invariant Filled(newPixels[..], target, y * newWidth * 4 + x * 4)
    {
      var srcX := bounds.minX + x;
      var srcY := bounds.minY + y;
      var srcIdx := (srcY * srcWidth + srcX) * 4;
      var dstIdx := (y * newWidth + x) * 4;
      CropTarget(target, pixels[..], srcWidth, bounds, x, y, dstIdx, srcIdx);
      ghost var before := newPixels[..];
      CopyPixel(pixels, srcIdx, newPixels, dstIdx);
      FilledByFour(before, newPixels[..], target, dstIdx);
      x := x + 1;
    }
  }

  /** The four bytes of the cropped buffer for pixel (x, y), which starts at `n`. */
  lemma CropTarget(target: seq<byte>, pixels: seq<byte>, srcWidth: int, b: Bounds, x: int, y: int, n: int, s: int)
    requires ValidBounds(b) && IsCrop(target, pixels, srcWidth, b)
    requires 0 <= x < CropWidth(b) && 0 <= y < CropHeight(b)
    requires n == (y * CropWidth(b) + x) * 4 && s == ((b.minY + y) * srcWidth + (b.minX + x)) * 4
    ensures 0 <= n && n + 4 <= |target|
    ensures target[n] == Read(pixels, s) && target[n + 1] == Read(pixels, s + 1)
    ensures target[n + 2] == Read(pixels, s + 2) && target[n + 3] == Read(pixels, s + 3)
  {
    var w := CropWidth(b);
    assert ByteIndex(w, x, y, 0) == n && ByteIndex(w, x, y, 3) == n + 3;
    assert ByteIndex(w, x, y, 1) == n + 1 && ByteIndex(w, x, y, 2) == n + 2;
    assert ByteIndex(srcWidth, b.minX + x, b.minY + y, 0) == s;
    assert ByteIndex(srcWidth, b.minX + x, b.minY + y, 1) == s + 1;
    assert ByteIndex(srcWidth, b.minX + x, b.minY + y, 2) == s + 2;
    assert ByteIndex(srcWidth, b.minX + x, b.minY + y, 3) == s + 3;
  }

  /** The four byte assignments of one pixel: `newPixels[dstIdx + c] = pixels[srcIdx + c]`. */
  method CopyPixel(pixels: array<byte>, srcIdx: int, newPixels: array<byte>, dstIdx: nat)
    requires pixels != newPixels && dstIdx + 4 <= newPixels.Length
    modifies newPixels
    ensures forall k :: 0 <= k < dstIdx ==> newPixels[k] == old(newPixels[k])
    ensures newPixels[dstIdx] == Read(pixels[..], srcIdx) && newPixels[dstIdx + 1] == Read(pixels[..], srcIdx + 1)
    ensures newPixels[dstIdx + 2] == Read(pixels[..], srcIdx + 2) && newPixels[dstIdx + 3] == Read(pixels[..], srcIdx + 3)
  {
    newPixels[dstIdx] := if 0 <= srcIdx < pixels.Length then pixels[srcIdx] else 0;
    newPixels[dstIdx + 1] := if 0 <= srcIdx + 1 < pixels.Length then pixels[srcIdx + 1] else 0;
    newPixels[dstIdx + 2] := if 0 <= srcIdx + 2 < pixels.Length then pixels[srcIdx + 2] else 0;
    newPixels[dstIdx + 3] := if 0 <= srcIdx + 3 < pixels.Length then pixels[srcIdx + 3] else 0;
  }

  /** The first `n` bytes of `a` are those of `t`. */
  ghost predicate Filled(a: seq<byte>, t: seq<byte>, n: int) {
    0 <= n <= |a| && n <= |t| && forall k :: 0 <= k < n ==> a[k] == t[k]
  }

  /** Writing the next four bytes of `t` extends the filled prefix by four. */
  lemma FilledByFour(before: seq<byte>, after: seq<byte>, t: seq<byte>, n: int)
    requires Filled(before, t, n) && |before| == |after| == |t| && n + 4 <= |t|
    requires forall k :: 0 <= k < n ==> after[k] == before[k]
    requires after[n] == t[n] && after[n + 1] == t[n + 1] && after[n + 2] == t[n + 2] && after[n + 3] == t[n + 3]
    ensures Filled(after, t, n + 4)
  {
  }

  /** A buffer filled to its length is the target. */
  lemma FilledAll(a: seq<byte>, t: seq<byte>)
    requires |a| == |t| && Filled(a, t, |t|)
    ensures a == t
  {
  }

  /**
   * Every pixel of the box keeps its visibility in the cropped image, at its place relative to
   * the corner, provided the threshold is not negative (a byte past the end of the source reads
   * as invisible there but is copied as a 0).
   */
  lemma CropKeepsVisibility(out: seq<byte>, pixels: seq<byte>, srcWidth: int, b: Bounds, threshold: int, x: int, y: int)
    requires ValidBounds(b) && IsCrop(out, pixels, srcWidth, b) && Inside(b, x, y) && threshold >= 0
    ensures Visible(out, CropWidth(b), threshold, x - b.minX, y - b.minY) <==> Visible(pixels, srcWidth, threshold, x, y)
  {
    assert ByteIndex(CropWidth(b), x - b.minX, y - b.minY, 3) == ((y - b.minY) * CropWidth(b) + (x - b.minX)) * 4 + 3;
    assert ByteIndex(srcWidth, x, y, 3) == (y * srcWidth + x) * 4 + 3;
  }

  /**
   * Cropping to the tight box loses nothing: every visible pixel of the image is visible in the
   * cropped image, and every visible pixel of the cropped image comes from a visible one.
   */
  lemma CropToContent(out: seq<byte>, pixels: seq<byte>, width: int, height: int, threshold: int, b: Bounds)
    requires Tight(b, pixels, width, height, threshold) && threshold >= 0
    requires IsCrop(out, pixels, width, b)
    ensures forall x, y ::
      (0 <= x < width && 0 <= y < height && Visible(pixels, width, threshold, x, y))
      ==> Visible(out, CropWidth(b), threshold, x - b.minX, y - b.minY)
    ensures forall x, y ::
      (0 <= x < CropWidth(b) && 0 <= y < CropHeight(b) && Visible(out, CropWidth(b), threshold, x, y))
      ==> Visible(pixels, width, threshold, b.minX + x, b.minY + y)
  {
    forall x, y | 0 <= x < width && 0 <= y < height && Visible(pixels, width, threshold, x, y)
      ensures Visible(out, CropWidth(b), threshold, x - b.minX, y - b.minY)
    {
      CropKeepsVisibility(out, pixels, width, b, threshold, x, y);
    }
    forall x, y | 0 <= x < CropWidth(b) && 0 <= y < CropHeight(b) && Visible(out, CropWidth(b), threshold, x, y)
      ensures Visible(pixels, width, threshold, b.minX + x, b.minY + y)
    {
      CropKeepsVisibility(out, pixels, width, b, threshold, b.minX + x, b.minY + y);
      assert b.minX + x - b.minX == x && b.minY + y - b.minY == y;
    }
  }
}
