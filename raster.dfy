/** Row-major pixel addressing, shared by the screen buffer (src/core/screen.rs:22), the PNG
    byte buffer (src/utils/png.rs:28) and the per-pixel ray iterator (src/camera.rs:93-94). */
module Raster {

  /** The largest u32 plus one: the source's pixel arithmetic is in `u32`. */
  const U32Limit: nat := 0x1_0000_0000

  /** `y * width + x`: a pixel inside the row (`x < width`) lands in row `y`'s slice of the
      buffer. */
  function PixelIndex(width: nat, x: nat, y: nat): (r: nat)
    ensures x < width ==> y * width <= r < (y + 1) * width
  {
    y * width + x
  }

  /** Multiplication by a natural number is monotonic. */
  lemma {:induction false} MulMonotonic(w: nat, a: nat, b: nat)
    requires a <= b
    ensures w * a <= w * b
    decreases b - a
  {
    if a < b {
      MulMonotonic(w, a, b - 1);
      assert w * b == w * (b - 1) + w;
    }
  }

  /** Within a row (`x < width`) distinct pixels have distinct indices. */
  lemma PixelIndexInjective(width: nat, x1: nat, y1: nat, x2: nat, y2: nat)
    requires x1 < width && x2 < width
    ensures PixelIndex(width, x1, y1) == PixelIndex(width, x2, y2) <==> x1 == x2 && y1 == y2
  {
    if y1 < y2 {
      MulMonotonic(width, y1 + 1, y2);
      assert width * (y1 + 1) == width * y1 + width;
    } else if y2 < y1 {
      MulMonotonic(width, y2 + 1, y1);
      assert width * (y2 + 1) == width * y2 + width;
    }
  }

  /** Every in-range pixel of a `width x height` raster has an index below `width * height`. */
  lemma PixelIndexInRange(width: nat, height: nat, x: nat, y: nat)
    requires x < width && y < height
    ensures PixelIndex(width, x, y) < width * height
  {
    MulMonotonic(width, y + 1, height);
    assert width * (y + 1) == width * y + width;
  }

  /** Nothing checks `x < width`: one row's overflow is the start of the next row. */
  lemma OutOfRowWraps(width: nat, x: nat, y: nat)
    ensures PixelIndex(width, x + width, y) == PixelIndex(width, x, y + 1)
  {
  }

  /** A raster with at least one pixel has both sides positive. */
  lemma PositiveSides(width: nat, height: nat)
    ensures width * height > 0 ==> width > 0 && height > 0
  {
  }

  /** The pixel `(k % width, k / width)` visited `k`-th in row-major order: inside the raster,
      and with index `k` again. */
  function RowMajorPixel(width: nat, height: nat, k: nat): (p: (nat, nat))
    requires k < width * height
    ensures p.0 < width && p.1 < height
    ensures PixelIndex(width, p.0, p.1) == k
  {
    PositiveSides(width, height);
    RowMajor(width, height, k);
    (k % width, k / width)
  }

  /** Counting `k` through `0 .. width*height` visits pixel `(k % width, k / width)`: the
      pixel lies in the raster and its index is `k` again. */
  lemma RowMajor(width: nat, height: nat, k: nat)
    requires width > 0 && k < width * height
    ensures k % width < width && k / width < height
    ensures PixelIndex(width, k % width, k / width) == k
  {
    if k / width >= height {
      MulMonotonic(width, height, k / width);
    }
  }

  /** Row-major order visits every pixel of the raster: pixel `(x, y)` is the one visited at
      step `y * width + x`. */
  lemma RowMajorCovers(width: nat, height: nat, x: nat, y: nat)
    requires x < width && y < height
    ensures PixelIndex(width, x, y) < width * height
    ensures RowMajorPixel(width, height, PixelIndex(width, x, y)) == (x, y)
  {
    PixelIndexInRange(width, height, x, y);
    var p := RowMajorPixel(width, height, PixelIndex(width, x, y));
    PixelIndexInjective(width, p.0, p.1, x, y);
  }
}
