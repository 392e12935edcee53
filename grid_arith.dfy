/**
 * RGBA pixel buffers (`Uint8Array`s) and their row-major indexing: pixel (x, y) of a `w`-wide
 * image sits at `y * w + x`, its four bytes at four times that. The facts below are the
 * non-linear steps that the image loops need.
 */
module GridArith {

  /** An element of a `Uint8Array`. */
  newtype byte = x: int | 0 <= x < 256

  lemma {:induction false} MulAtLeast(a: int, w: int)
    requires a >= 1 && w >= 0
    ensures a * w >= w
    decreases a
  {
    if a > 1 {
      MulAtLeast(a - 1, w);
      assert a * w == (a - 1) * w + w;
    }
  }

  /** The cell (x, y) of a `w` by `h` grid has an index inside the grid. */
  lemma CellInRange(w: int, h: int, x: int, y: int)
    requires 0 <= x < w && 0 <= y < h
    ensures 0 <= y * w + x < w * h
  {
    if y > 0 {
      MulAtLeast(y, w);
    }
    if h - 1 - y >= 1 {
      MulAtLeast(h - 1 - y, w);
      assert (h - 1 - y) * w == h * w - y * w - w;
    }
  }

  /** Integer division and remainder by the width give back the coordinates. */
  lemma DivModRow(w: int, x: int, y: int)
    requires 0 <= x < w && 0 <= y
    ensures (y * w + x) / w == y && (y * w + x) % w == x
  {
    var n := y * w + x;
    var q, r := n / w, n % w;
    assert n == w * q + r && 0 <= r < w;
    assert (q - y) * w == x - r;
    assert (y - q) * w == r - x;
    if q > y {
      MulAtLeast(q - y, w);
    } else if q < y {
      MulAtLeast(y - q, w);
    }
  }

  /** Every index of the grid is the index of its own coordinates. */
  lemma IndexCoordinates(w: int, h: int, k: int)
    requires 0 <= k < w * h && w > 0
    ensures 0 <= k % w < w && 0 <= k / w < h
    ensures (k / w) * w + k % w == k
  {
    var q := k / w;
    assert k == w * q + k % w;
    assert (q - h + 1) * w == q * w - h * w + w;
    if q >= h {
      MulAtLeast(q - h + 1, w);
    }
  }

  /** Row `y` of a `w` by `h` grid lies inside the grid. */
  lemma RowInRange(w: int, h: int, y: int)
    requires 0 <= y < h && 0 <= w
    ensures 0 <= y * w && y * w + w == (y + 1) * w <= w * h
  {
    if y > 0 {
      MulAtLeast(y, w);
    }
    if h - 1 - y >= 1 {
      MulAtLeast(h - 1 - y, w);
      assert (h - 1 - y) * w == h * w - y * w - w;
    }
  }

  /** The end of row `y` is the start of row `y + 1`. */
  lemma RowEnd(w: int, y: int)
    ensures y * w + w == (y + 1) * w
  {
  }

  /** The eight neighbours of a cell away from the edge are in the grid, `w` apart by rows. */
  lemma NeighbourCells(w: int, h: int, x: int, y: int)
    requires 1 <= x <= w - 2 && 1 <= y <= h - 2
    ensures 0 <= y * w + x - w - 1 && y * w + x + w + 1 < w * h
    ensures (y - 1) * w + x == y * w + x - w
    ensures (y + 1) * w + x == y * w + x + w
  {
    CellInRange(w, h, x + 1, y + 1);
    CellInRange(w, h, x - 1, y - 1);
  }
}
