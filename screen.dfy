/** The floating-point pixel buffer (src/core/screen.rs). */
module Screens {
  import opened Vec3Math
  import opened Raster

  class Screen {
    const width: nat
    const height: nat
    /** One colour per pixel, row by row. */
    const buffer: array<Vec3>

    /** `Screen::new`: a `width * height` buffer of black pixels. The pixel count is computed
        in `u32`, so it must not overflow. */
    constructor (width: nat, height: nat)
      requires width * height < U32Limit
      ensures this.width == width && this.height == height
      ensures buffer.Length == width * height
      ensures forall i :: 0 <= i < buffer.Length ==> buffer[i] == Zero()
      ensures fresh(buffer)
    {
      this.width := width;
      this.height := height;
      buffer := new Vec3[width * height](_ => FromScalar(0.0));
    }

    /** `Screen::write`: overwrite the pixel at index `y * width + x`, and nothing else. There
        is no check that `x < width`; only the index must be in the buffer. */
    method Write(x: nat, y: nat, color: Vec3)
      requires PixelIndex(width, x, y) < buffer.Length
      modifies buffer
      ensures buffer[..] == old(buffer[..])[PixelIndex(width, x, y) := color]
    {
      buffer[PixelIndex(width, x, y)] := color;
    }
  }
}
