/** The character palettes (`CHAR_SETS`) and the mapping from one RGBA
    pixel to one palette character, in exact integer arithmetic.

    The source computes `(0.299 r + 0.587 g + 0.114 b) * (a / 255)`, divides
    by 255, optionally takes `1 - ...`, multiplies by `chars.length - 1` and
    floors. Multiplying through by `1000 * 255 * 255` gives the integer
    brightness `(299 r + 587 g + 114 b) * a` on the scale `Scale`, and the
    index `floor(v * (n - 1) / Scale)`, or `floor((Scale - v) * (n - 1) / Scale)`
    when inverted. */
module Palette {

  /** One channel byte of the pixel buffer (a `Uint8ClampedArray` entry). */
  newtype byte = x: int | 0 <= x < 256

  /** The keys of `CHAR_SETS`. */
  datatype CharSet = Standard | Blocks | Minimal | Detailed

  /** The palette of each key, darkest character first. The block
      characters are U+2591, U+2592, U+2593 and U+2588, each one UTF-16 unit,
      so indexing here agrees with JavaScript's string indexing. */
  function Chars(cs: CharSet): (s: string)
    ensures |s| >= 2 && s[0] == ' ' && '\n' !in s
  {
    match cs
    case Standard => " .,:;i1tfLCG08@"
    case Blocks => " \U{2591}\U{2592}\U{2593}\U{2588}"
    case Minimal => " .:\U{2591}\U{2588}"
    case Detailed =>
      // one 69-character string in the source, written in pieces here
      " .'`^\",:;Il!i><" + "~+_-?][}{1)(|/t" + "fjrxnuvczXYUJCL" + "Q0OZmwqpdbkhao*" + "#MW&8%B@$"
  }

  /** Full brightness: an opaque white pixel, `1000 * 255 * 255`. */
  const Scale: nat := 65025000

  /** `0.299 r + 0.587 g + 0.114 b`, scaled by 1000. */
  function Luminance(r: byte, g: byte, b: byte): (l: nat)
    ensures l <= 255000
  {
    299 * r as int + 587 * g as int + 114 * b as int
  }

  /** The alpha-faded brightness, on the scale `0 .. Scale`. */
  function Brightness(r: byte, g: byte, b: byte, a: byte): (v: nat)
    ensures v <= Scale
    ensures a == 0 ==> v == 0
  {
    var l := Luminance(r, g, b);
    assert l * a as int <= 255000 * 255 by {
      MulLe(l, 255000, a as int, 255);
    }
    l * a as int
  }

  /** `Math.floor(normalizedBrightness * (chars.length - 1))`: always a
      valid index into the palette, inverted or not. */
  function Index(cs: CharSet, v: nat, inverted: bool): (i: nat)
    requires v <= Scale
    ensures i < |Chars(cs)|
  {
    var m := |Chars(cs)| - 1;
    var w := if inverted then Scale - v else v;
    ScaledBelow(w, m);
    w * m / Scale
  }

  /** The palette character for one pixel. */
  function Glyph(cs: CharSet, inverted: bool, r: byte, g: byte, b: byte, a: byte): (c: char)
    ensures c in Chars(cs) && c != '\n'
  {
    Chars(cs)[Index(cs, Brightness(r, g, b, a), inverted)]
  }

  /** A fully transparent pixel is a space (the first palette character)
      when not inverted and the last palette character when inverted,
      whatever its colour. */
  lemma TransparentGlyph(cs: CharSet, inverted: bool, r: byte, g: byte, b: byte)
    ensures Glyph(cs, inverted, r, g, b, 0) == if inverted then Chars(cs)[|Chars(cs)| - 1] else ' '
  {
    var m := |Chars(cs)| - 1;
    assert Brightness(r, g, b, 0) == 0;
    if inverted {
      DivExact(Scale * m, Scale, m, 0);
      assert Index(cs, 0, true) == m;
    } else {
      assert Index(cs, 0, false) == 0;
    }
  }

  /** With alpha fixed, a brighter colour never gets an earlier character,
      and under inversion never gets a later one. */
  lemma GlyphMonotone(cs: CharSet, inverted: bool, a: byte,
                      r1: byte, g1: byte, b1: byte, r2: byte, g2: byte, b2: byte)
    requires Luminance(r1, g1, b1) <= Luminance(r2, g2, b2)
    ensures var i1, i2 := Index(cs, Brightness(r1, g1, b1, a), inverted), Index(cs, Brightness(r2, g2, b2, a), inverted);
            if inverted then i1 >= i2 else i1 <= i2
  {
    var v1, v2 := Brightness(r1, g1, b1, a), Brightness(r2, g2, b2, a);
    MulLe(Luminance(r1, g1, b1), Luminance(r2, g2, b2), a as int, a as int);
    IndexMonotone(cs, inverted, v1, v2);
  }

  /** The index is monotone in the brightness: non-decreasing, or
      non-increasing when inverted. */
  lemma IndexMonotone(cs: CharSet, inverted: bool, v1: nat, v2: nat)
    requires v1 <= v2 <= Scale
    ensures if inverted then Index(cs, v1, inverted) >= Index(cs, v2, inverted)
            else Index(cs, v1, inverted) <= Index(cs, v2, inverted)
  {
    var m := |Chars(cs)| - 1;
    if inverted {
      MulLe(Scale - v2, Scale - v1, m, m);
      DivMonotone((Scale - v2) * m, (Scale - v1) * m, Scale);
    } else {
      MulLe(v1, v2, m, m);
      DivMonotone(v1 * m, v2 * m, Scale);
    }
  }

  /** Inversion mirrors the index: the two indices of one brightness add up
      to the last index exactly when the brightness falls on a bin
      boundary, and to one less otherwise. */
  lemma InversionMirror(cs: CharSet, v: nat)
    requires v <= Scale
    ensures var m := |Chars(cs)| - 1;
            Index(cs, v, true) + Index(cs, v, false) == if v * m % Scale == 0 then m else m - 1
  {
    var m := |Chars(cs)| - 1;
    var p := v * m;
    var q, rem := p / Scale, p % Scale;
    assert p == q * Scale + rem;
    assert (Scale - v) * m == Scale * m - p;
    if rem == 0 {
      DivExact(Scale * m - p, Scale, m - q, 0);
    } else {
      assert q < m by {
        if q >= m {
          MulLe(m, q, Scale, Scale);
        }
        ScaledBelow(v, m);
      }
      DivExact(Scale * m - p, Scale, m - q - 1, Scale - rem);
    }
  }

  /** The worked example of a uniformly opaque red image on the standard
      palette: brightness 0.299 of the maximum, so index 4, a semicolon. */
  lemma OpaqueRedIsSemicolon()
    ensures Glyph(Standard, false, 255, 0, 0, 255) == ';'
  {
    assert Brightness(255, 0, 0, 255) == 19442475;
    assert 19442475 * 14 / Scale == 4;
  }

  // Arithmetic helpers.

  lemma MulLe(a: nat, b: nat, c: nat, d: nat)
    requires a <= b && c <= d
    ensures a * c <= b * d
  {
    assert a * c <= b * c;
    assert b * c <= b * d;
  }

  lemma ScaledBelow(v: nat, m: nat)
    requires v <= Scale
    ensures v * m / Scale <= m
  {
    MulLe(v, Scale, m, m);
    DivMonotone(v * m, Scale * m, Scale);
    DivExact(Scale * m, Scale, m, 0);
  }

  lemma DivMonotone(x: nat, y: nat, d: nat)
    requires x <= y && d > 0
    ensures x / d <= y / d
  {
    var qx, qy := x / d, y / d;
    if qx > qy {
      MulLe(qy + 1, qx, d, d);
    }
  }

  lemma DivExact(n: nat, d: nat, q: nat, r: nat)
    requires d > 0 && r < d && n == q * d + r
    ensures n / d == q
  {
    var q', r' := n / d, n % d;
    assert n == q' * d + r';
    if q' < q {
      MulLe(1, q - q', d, d);
    } else if q' > q {
      MulLe(1, q' - q, d, d);
    }
  }
}
