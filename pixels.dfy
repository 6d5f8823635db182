/** Channel values, RGBA pixels and the gray value computed for one pixel. */
module Pixels {

  /** An unsigned 8-bit value (`u8`): one channel of a pixel, or one byte of a file name. */
  type Byte = b: int | 0 <= b < 256

  /** An `image::Rgba<u8>` pixel: channels 0 to 3 are red, green, blue and alpha. */
  datatype Rgba = Rgba(r: Byte, g: Byte, b: Byte, a: Byte)

  /** The f32 value of `0.299 * r + 0.587 * g + 0.114 * b` for the three colour channels.
      The model does not fix how f32 rounds each product and sum, so this is a
      parameter of everything below; the weights are applied to channels 0-2 only. */
  type WeightedSum = (Byte, Byte, Byte) -> real

  /** Rust's `f as u8` for a float `f`: truncate toward zero, then saturate to 0..255. */
  function CastToU8(v: real): (b: Byte)
    ensures v <= 0.0 ==> b == 0
    ensures v >= 255.0 ==> b == 255
    ensures 0.0 <= v < 256.0 ==> b as real <= v < b as real + 1.0
  {
    if v <= 0.0 then 0
    else if v >= 255.0 then 255
    else v.Floor
  }

  /** The cast is monotone: a larger weighted sum never gives a darker gray. */
  lemma CastToU8Monotone(u: real, v: real)
    requires u <= v
    ensures CastToU8(u) <= CastToU8(v)
  {
    if 0.0 < u && v < 255.0 {
      assert u.Floor <= v.Floor;
    }
  }

  /** The gray value of one input pixel: the weighted sum of its colour channels, cast to `u8`. */
  function Gray(weigh: WeightedSum, p: Rgba): Byte
  {
    CastToU8(weigh(p.r, p.g, p.b))
  }

  /** The gray value depends on channels 0-2 only: the alpha channel never influences it. */
  lemma GrayIgnoresAlpha(weigh: WeightedSum, p: Rgba, q: Rgba)
    requires p.r == q.r && p.g == q.g && p.b == q.b
    ensures Gray(weigh, p) == Gray(weigh, q)
  {
  }

  /** The pixel written for input pixel `p`: its gray value in red, green and blue, its own alpha. */
  function GrayPixel(weigh: WeightedSum, p: Rgba): Rgba
  {
    var gray := Gray(weigh, p);
    Rgba(gray, gray, gray, p.a)
  }
}
