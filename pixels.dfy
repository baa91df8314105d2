/**
 * Packed 24-bit RGB samples and the grey conversion of the image engine.
 * A sample keeps blue in bits 0-7, green in bits 8-15 and red in bits 16-23;
 * anything above bit 23 (the alpha byte of a decoded pixel) is ignored.
 */
module Pixels {
  import opened Grid

  /** The low byte of a 32-bit value, `v & 0xff` (getlastByte). */
  function LastByte(v: int): (b: int)
    ensures 0 <= b < 256
    ensures 0 <= v < 256 ==> b == v
    ensures (v - b) % 256 == 0
  {
    v % 256
  }

  /** `v & 0xff`: the blue channel. */
  function Blue(v: int): int { v % 256 }

  /** `(v >> 8) & 0xff`: an arithmetic shift is a floor division. */
  function Green(v: int): int { (v / 0x100) % 256 }

  /** `(v >> 16) & 0xff`. */
  function Red(v: int): int { (v / 0x1_0000) % 256 }

  /** `g << 16 | g << 8 | g` for a byte `g`: the three bit ranges do not overlap. */
  function Pack(g: int): int
    requires 0 <= g < 256
  {
    g * 0x1_0000 + g * 0x100 + g
  }

  /**
   * Luminance with the weights 0.2989, 0.5870 and 0.1140, truncated to an
   * integer. The weights are written as exact decimals.
   */
  function Luminance(r: int, g: int, b: int): int
  {
    (2989 * r + 5870 * g + 1140 * b) / 10000
  }

  /** `convertToBw` on one sample: grey from the three channels, replicated into all three. */
  function GreySample(v: int): (s: int)
    ensures 0 <= s < 0x100_0000
  {
    LuminanceRange(Red(v), Green(v), Blue(v));
    Pack(Luminance(Red(v), Green(v), Blue(v)))
  }

  /**
   * `Math.min(255, e) & 0xff`, the grey level `normalizeEnergy` shows an
   * energy as: the energy itself up to 255, 255 above.
   */
  function Shade(e: int): (s: int)
    ensures 0 <= s < 256
    ensures 0 <= e ==> s == if e < 255 then e else 255
  {
    LastByte(if 255 < e then 255 else e)
  }

  /** Every channel of a packed grey sample is the grey value itself. */
  lemma PackChannels(g: int)
    requires 0 <= g < 256
    ensures Blue(Pack(g)) == g && Green(Pack(g)) == g && Red(Pack(g)) == g
    ensures LastByte(Pack(g)) == g
    ensures 0 <= Pack(g) < 0x100_0000
  {
    DivModUnique(g * 0x100 + g, g, 0x100);
    DivModUnique(g, g, 0x100);
    DivModUnique(g, g * 0x100 + g, 0x1_0000);
  }

  /** On three bytes the luminance is a byte, and never above 254. */
  lemma LuminanceRange(r: int, g: int, b: int)
    requires 0 <= r < 256 && 0 <= g < 256 && 0 <= b < 256
    ensures 0 <= Luminance(r, g, b) <= 254
  { }

  /**
   * The weights add up to 0.9999, so a grey sample is not a fixed point of the
   * conversion: every grey level above 0 comes out one darker.
   */
  lemma {:induction false} GreyDarkens(g: int)
    requires 0 <= g < 256
    ensures Luminance(g, g, g) == if g == 0 then 0 else g - 1
  {
    if g > 0 {
      assert 2989 * g + 5870 * g + 1140 * g == (g - 1) * 10000 + (10000 - g);
      DivModUnique(g - 1, 10000 - g, 10000);
    }
  }

  /** An illustration of `GreyConversionDarkens` at level 200: converting the grey image once more darkens it. */
  lemma ConversionNotIdempotent()
    ensures GreySample(Pack(200)) == Pack(199)
  {
    PackChannels(200);
    GreyDarkens(200);
  }

  /** Converting any grey sample of a level above 0 darkens it by one level. */
  lemma GreyConversionDarkens(g: int)
    requires 0 < g < 256
    ensures GreySample(Pack(g)) == Pack(g - 1)
  {
    PackChannels(g);
    GreyDarkens(g);
  }
}
