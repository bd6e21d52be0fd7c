/**
 * Per-pixel colour arithmetic of the engine: the source-over blend used by
 * the brush and the airbrush, the eraser's alpha decay, and the conversion of
 * the fractional fill alpha when it is stored in the byte buffer. Numbers are
 * exact reals; `v | 0` on a value known to be non-negative is its floor.
 */
module Compositing {
  import opened Pixels

  /** `v | 0` for a value in 0..255: the integer part. */
  function Truncate(v: real): (r: Byte)
    requires 0.0 <= v < 256.0
    ensures r as real <= v < r as real + 1.0
  {
    v.Floor
  }

  /** The weight `a` of the active colour: its own alpha, scaled to 0..1, times the opacity. */
  function Coverage(alpha: Byte, opacity: real): (a: real)
    requires 0.0 <= opacity <= 1.0
    ensures 0.0 <= a <= 1.0
    ensures a == 1.0 <==> alpha == 255 && opacity == 1.0
  {
    Fraction(alpha as real / 255.0, opacity)
  }

  /** The weight `na` left to the destination: what the source lets through of the destination's alpha. */
  function Underneath(a: real, dstAlpha: Byte): (na: real)
    requires 0.0 <= a <= 1.0
    ensures 0.0 <= na <= 1.0 - a
  {
    Fraction(1.0 - a, dstAlpha as real / 255.0)
  }

  /** The product of two fractions, which is a fraction of each. */
  function Fraction(x: real, y: real): (r: real)
    requires 0.0 <= x <= 1.0 && 0.0 <= y <= 1.0
    ensures 0.0 <= r <= x && r <= y
  {
    var r := x * y;
    ProductBelow(x, y);
    r
  }

  lemma ProductBelow(x: real, y: real)
    requires 0.0 <= x <= 1.0 && 0.0 <= y <= 1.0
    ensures 0.0 <= x * y <= x && x * y <= y
  {
    var r := x * y;
    ScaledBelow(x, y);
    ScaledBelow(y, x);
    assert r == y * x;
  }

  /** One colour channel of the blend: `(c * na + src * a) | 0`. */
  function Mix(c: Byte, src: Byte, na: real, a: real): (r: Byte)
    requires 0.0 <= a && 0.0 <= na && a + na <= 1.0
    ensures r as real <= c as real * na + src as real * a
    ensures r as real <= 255.0 * (na + a)
  {
    MixBelow(c, src, na, a);
    Truncate(c as real * na + src as real * a)
  }

  lemma MixBelow(c: Byte, src: Byte, na: real, a: real)
    requires 0.0 <= a && 0.0 <= na && a + na <= 1.0
    ensures 0.0 <= c as real * na + src as real * a <= 255.0 * (na + a) <= 255.0
  {
    NonNegativeProduct(255.0 - c as real, na);
    NonNegativeProduct(255.0 - src as real, a);
    NonNegativeProduct(c as real, na);
    NonNegativeProduct(src as real, a);
  }

  lemma NonNegativeProduct(x: real, y: real)
    requires 0.0 <= x && 0.0 <= y
    ensures 0.0 <= x * y
  {
  }

  /** Scaling a non-negative number by a fraction gives a number between 0 and itself. */
  lemma ScaledBelow(v: real, f: real)
    requires 0.0 <= v && 0.0 <= f <= 1.0
    ensures 0.0 <= v * f <= v && 0.0 <= f * v <= v
  {
    NonNegativeProduct(v, f);
    NonNegativeProduct(v, 1.0 - f);
    assert v * (1.0 - f) == v - v * f;
  }

  /**
   * `alphaBlend`: composite the active colour, weighted by its alpha times
   * the opacity, over the destination pixel. The destination's colour
   * channels are weighted by `na` and not divided by the resulting alpha
   * `da`; when `da` is 0 the colour channels are cleared. Blending never
   * lowers the alpha, and a result whose alpha truncates to 0 is transparent
   * black, whichever branch produced it.
   */
  function Blend(dst: Rgba, colour: Rgba, opacity: real): (r: Rgba)
    requires 0.0 <= opacity <= 1.0
    ensures r.a >= dst.a
    ensures r.a == 0 ==> r == Rgba(0, 0, 0, 0)
  {
    var a := Coverage(colour.a, opacity);
    var na := Underneath(a, dst.a);
    var da := a + na;
    CoveredAlpha(a, na, dst.a);
    if da != 0.0 then
      Rgba(Mix(dst.r, colour.r, na, a), Mix(dst.g, colour.g, na, a), Mix(dst.b, colour.b, na, a),
           Truncate(255.0 * da))
    else
      Rgba(0, 0, 0, Truncate(255.0 * da))
  }

  /** An opaque colour at full opacity replaces the pixel by exactly (red, green, blue, 255). */
  lemma BlendOpaqueReplaces(dst: Rgba, colour: Rgba)
    requires colour.a == 255
    ensures Blend(dst, colour, 1.0) == Rgba(colour.r, colour.g, colour.b, 255)
  {
    var a := Coverage(colour.a, 1.0);
    assert a == 1.0;
    assert Underneath(a, dst.a) == 0.0;
  }

  /** The combined weight `a + na`, scaled to 0..255, is at least the destination's alpha. */
  lemma CoveredAlpha(a: real, na: real, dstAlpha: Byte)
    requires 0.0 <= a <= 1.0 && na == Underneath(a, dstAlpha)
    ensures 255.0 * (a + na) >= dstAlpha as real
  {
    var d := dstAlpha as real;
    var f := d / 255.0;
    assert 255.0 * f == d;
    assert na == (1.0 - a) * f by {
      assert Underneath(a, dstAlpha) == Fraction(1.0 - a, f);
    }
    var p := a * (1.0 - f);
    NonNegativeProduct(a, 1.0 - f);
    assert na == f - a * f;
    assert a + na == f + p;
  }

  /** When the computed alpha is 0 (nothing of the colour and a transparent pixel), the pixel becomes (0, 0, 0, 0). */
  lemma BlendInvisibleClears(dst: Rgba, colour: Rgba, opacity: real)
    requires 0.0 <= opacity <= 1.0
    requires colour.a == 0 || opacity == 0.0
    requires dst.a == 0
    ensures Blend(dst, colour, opacity) == Rgba(0, 0, 0, 0)
  {
    assert Coverage(colour.a, opacity) == 0.0;
  }

  /**
   * At opacity 0 the alpha is kept but every colour channel is multiplied by
   * alpha/255 and truncated: an opaque pixel is left as it is, a translucent
   * one is darkened, and a transparent one becomes transparent black.
   */
  lemma BlendZeroOpacity(dst: Rgba, colour: Rgba)
    ensures var r := Blend(dst, colour, 0.0);
            r.a == dst.a &&
            r.r == dst.r * dst.a / 255 && r.g == dst.g * dst.a / 255 && r.b == dst.b * dst.a / 255
  {
    assert Coverage(colour.a, 0.0) == 0.0;
    var na := Underneath(0.0, dst.a);
    if dst.a == 0 {
      assert na == 0.0;
    } else {
      var d := dst.a as real;
      assert na == d / 255.0;
      assert 255.0 * (0.0 + na) == d;
      MixAtZeroOpacity(dst.r, colour.r, dst.a);
      MixAtZeroOpacity(dst.g, colour.g, dst.a);
      MixAtZeroOpacity(dst.b, colour.b, dst.a);
    }
  }

  /** With no coverage a channel keeps `c * d / 255` of itself, `d` being the destination's alpha. */
  lemma MixAtZeroOpacity(c: Byte, src: Byte, d: Byte)
    ensures Mix(c, src, d as real / 255.0, 0.0) == c * d / 255
  {
    var q := c * d / 255;
    var v := c as real * (d as real / 255.0) + src as real * 0.0;
    assert v == (c * d) as real / 255.0;
    assert q * 255 <= c * d < q * 255 + 255;
    assert q as real <= v < q as real + 1.0;
  }

  /** At opacity 0 an opaque pixel is left unchanged. */
  lemma BlendZeroOpacityKeepsOpaque(dst: Rgba, colour: Rgba)
    requires dst.a == 255
    ensures Blend(dst, colour, 0.0) == dst
  {
    BlendZeroOpacity(dst, colour);
  }

  /** A translucent grey under opacity 0 loses half its brightness. */
  lemma BlendZeroOpacityDarkensTranslucent(colour: Rgba)
    ensures Blend(Rgba(200, 200, 200, 128), colour, 0.0) == Rgba(100, 100, 100, 128)
  {
    BlendZeroOpacity(Rgba(200, 200, 200, 128), colour);
  }

  /** The eraser's new alpha, `(alpha * (1 - opacity)) | 0`. */
  function EraseAlpha(alpha: Byte, opacity: real): (r: Byte)
    requires 0.0 <= opacity <= 1.0
    ensures r <= alpha
    ensures opacity == 0.0 ==> r == alpha
    ensures opacity == 1.0 ==> r == 0
  {
    var v := alpha as real * (1.0 - opacity);
    ScaledBelow(alpha as real, 1.0 - opacity);
    assert v <= alpha as real;
    Truncate(v)
  }

  /**
   * The conversion of a number in 0..255 on its way into a clamped byte
   * array: round to the nearest integer, ties to the even one.
   */
  function RoundToByte(v: real): (r: Byte)
    requires 0.0 <= v <= 255.0
    ensures -0.5 <= r as real - v <= 0.5
    ensures r as real - v == 0.5 || v - r as real == 0.5 ==> r % 2 == 0
    ensures r == v.Floor || (r == v.Floor + 1 && v.Floor as real < v)
  {
    var f := v.Floor;
    var frac := v - f as real;
    if frac < 0.5 then f
    else if frac > 0.5 then f + 1
    else if f % 2 == 0 then f
    else f + 1
  }

  /** The fill alpha `alpha * opacity`, as it lands in the buffer. */
  function FillAlpha(alpha: Byte, opacity: real): (r: Byte)
    requires 0.0 <= opacity <= 1.0
    ensures r <= alpha
    ensures opacity == 1.0 ==> r == alpha
    ensures opacity == 0.0 ==> r == 0
  {
    NonNegativeProduct(alpha as real, 1.0 - opacity);
    NonNegativeProduct(alpha as real, opacity);
    var v := alpha as real * opacity;
    var r := RoundToByte(v);
    assert r == v.Floor || v.Floor < alpha;
    r
  }
}
