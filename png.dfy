/** The 8-bit RGB image buffer (src/utils/png.rs), without file output. */
module Png {
  import opened Raster

  newtype Byte = b: int | 0 <= b < 256

  /** The first of the three bytes of pixel `(x, y)`: `(width * y + x) * 3`. */
  function ByteIndex(width: nat, x: nat, y: nat): (r: nat)
    ensures x < width ==> 3 * (y * width) <= r && r + 3 <= 3 * ((y + 1) * width)
  {
    PixelIndex(width, x, y) * 3
  }

  class Image {
    /** One byte per channel, three channels per pixel, row by row. */
    const buffer: array<Byte>
    /** `(width, height)` */
    const size: (nat, nat)

    /** `Image::new`: `3 * width * height` zero bytes, i.e. every pixel black. The pixel count
        is computed in `u32`, so it must not overflow. */
    constructor (width: nat, height: nat)
      requires width * height < U32Limit
      ensures size == (width, height)
      ensures buffer.Length == 3 * (width * height)
      ensures forall i :: 0 <= i < buffer.Length ==> buffer[i] == 0
      ensures fresh(buffer)
    {
      size := (width, height);
      buffer := new Byte[3 * (width * height)](_ => 0);
    }

    /** `Image::write`: store the three channels of `color` at bytes `i`, `i + 1`, `i + 2`
        with `i = (width * y + x) * 3`, and change nothing else. The index is computed in `u32`
        and the last byte must lie in the buffer. */
    method Write(x: nat, y: nat, color: (Byte, Byte, Byte))
      requires ByteIndex(size.0, x, y) < U32Limit
      requires ByteIndex(size.0, x, y) + 2 < buffer.Length
      modifies buffer
      ensures var i := ByteIndex(size.0, x, y);
        buffer[..] == old(buffer[..])[i := color.0][i + 1 := color.1][i + 2 := color.2]
    {
      var i := ByteIndex(size.0, x, y);
      buffer[i] := color.0;
      buffer[i + 1] := color.1;
      buffer[i + 2] := color.2;
    }
  }

  /** Distinct pixels inside the rows map to disjoint byte triples. */
  lemma PixelsDisjoint(width: nat, x1: nat, y1: nat, x2: nat, y2: nat)
    requires x1 < width && x2 < width && (x1, y1) != (x2, y2)
    ensures ByteIndex(width, x1, y1) + 3 <= ByteIndex(width, x2, y2)
         || ByteIndex(width, x2, y2) + 3 <= ByteIndex(width, x1, y1)
  {
    PixelIndexInjective(width, x1, y1, x2, y2);
  }

  /** Every pixel of a `width x height` image has its three bytes inside the buffer. */
  lemma PixelBytesInBuffer(width: nat, height: nat, x: nat, y: nat)
    requires x < width && y < height
    ensures ByteIndex(width, x, y) + 2 < 3 * (width * height)
  {
    PixelIndexInRange(width, height, x, y);
  }
}
