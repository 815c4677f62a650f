/**
 * RGB <-> HSL conversion of the colour picker's client script.
 *
 * JavaScript numbers are modelled as exact reals: every division, product and
 * comparison below is the mathematical one, so nothing here claims bit-exact
 * agreement with IEEE-754 doubles.
 */
module ColourConvert {

  /** An RGB triple as the script passes it around: three numbers, integral here. */
  datatype Rgb = Rgb(r: int, g: int, b: int)

  /** An HSL triple in the script's units: hue in degrees, saturation and lightness in percent. */
  datatype Hsl = Hsl(h: real, s: real, l: real)

  /** Every channel is an 8-bit value. */
  predicate ValidRgb(c: Rgb) {
    0 <= c.r <= 255 && 0 <= c.g <= 255 && 0 <= c.b <= 255
  }

  /** The ranges rgbToHsl promises: hue in [0,360), saturation and lightness in [0,100]. */
  predicate ValidHsl(c: Hsl) {
    0.0 <= c.h < 360.0 && 0.0 <= c.s <= 100.0 && 0.0 <= c.l <= 100.0
  }

  /** `Math.round`: the nearest integer, halves rounded up (towards +infinity). */
  function Round(x: real): (n: int)
    ensures x - 0.5 < n as real <= x + 0.5
  {
    (x + 0.5).Floor
  }

  /** `Math.max(x, y, z)`. */
  function Max3(x: real, y: real, z: real): (m: real)
    ensures m == x || m == y || m == z
    ensures x <= m && y <= m && z <= m
  {
    if x >= y && x >= z then x else if y >= z then y else z
  }

  /** `Math.min(x, y, z)`. */
  function Min3(x: real, y: real, z: real): (m: real)
    ensures m == x || m == y || m == z
    ensures m <= x && m <= y && m <= z
  {
    if x <= y && x <= z then x else if y <= z then y else z
  }

  /**
   * The saturation of a chromatic colour as a fraction, from its largest and
   * smallest normalised channels: the denominator depends on whether the
   * lightness is above one half.
   */
  function Saturation(max: real, min: real): (s: real)
    requires 0.0 <= min < max <= 1.0
    ensures 0.0 < s <= 1.0
  {
    var l := (max + min) / 2.0;
    var d := max - min;
    if l > 0.5 then
      SaturationBound(max, min, 2.0 - max - min);
      d / (2.0 - max - min)
    else
      SaturationBound(max, min, max + min);
      d / (max + min)
  }

  /** Both denominators of Saturation are positive and at least the spread max - min. */
  lemma SaturationBound(max: real, min: real, den: real)
    requires 0.0 <= min < max <= 1.0
    requires (den == 2.0 - max - min && max + min > 1.0) || den == max + min
    ensures den >= max - min > 0.0
    ensures 0.0 < (max - min) / den <= 1.0
  {
    QuotientBounds(max - min, den);
  }

  /**
   * The hue of a chromatic colour as a fraction of a full turn: the six-sector
   * formula of the `switch (max)`, whose cases are tried in the order r, g, b,
   * so a tie goes to the earlier channel.
   */
  function HueFraction(r: real, g: real, b: real): (h: real)
    requires Max3(r, g, b) != Min3(r, g, b)
    ensures 0.0 <= h < 1.0
  {
    var max := Max3(r, g, b);
    var d := max - Min3(r, g, b);
    var sector :=
      if max == r then SectorDiff(g, b, d) + (if g < b then 6.0 else 0.0)
      else if max == g then SectorDiff(b, r, d) + 2.0
      else SectorDiff(r, g, d) + 4.0;
    sector / 6.0
  }

  /** The signed offset `(x - y) / d` inside one sector; within [-1, 1] when |x - y| <= d. */
  function SectorDiff(x: real, y: real, d: real): (q: real)
    requires d > 0.0
    ensures q * d == x - y
    ensures -d <= x - y <= d ==> -1.0 <= q <= 1.0
    ensures x < y ==> q < 0.0
    ensures y < x ==> q > 0.0
    ensures x - y < d ==> q < 1.0
    ensures -d < x - y ==> -1.0 < q
  {
    QuotientBounds(x - y, d);
    (x - y) / d
  }

  /** How the quotient n / d of a positive divisor compares with -1, 0 and 1. */
  lemma QuotientBounds(n: real, d: real)
    requires d > 0.0
    ensures (n / d) * d == n
    ensures n <= d ==> n / d <= 1.0
    ensures n < d ==> n / d < 1.0
    ensures -d <= n ==> -1.0 <= n / d
    ensures -d < n ==> -1.0 < n / d
    ensures n < 0.0 ==> n / d < 0.0
    ensures n > 0.0 ==> n / d > 0.0
  {
  }

  /**
   * `rgbToHsl` (client/script.js:2-21): normalise each channel by 255,
   * lightness is the mean of the extremes, an achromatic colour has hue and
   * saturation 0, and the result is scaled to degrees and percent.
   */
  function RgbToHsl(c: Rgb): (hsl: Hsl)
    requires ValidRgb(c)
    ensures ValidHsl(hsl)
    ensures hsl.l == (Max3(c.r as real, c.g as real, c.b as real) + Min3(c.r as real, c.g as real, c.b as real)) * 100.0 / 510.0
    ensures (hsl.s == 0.0) <==> (c.r == c.g == c.b)
  {
    var r, g, b := c.r as real / 255.0, c.g as real / 255.0, c.b as real / 255.0;
    var max, min := Max3(r, g, b), Min3(r, g, b);
    var l := (max + min) / 2.0;
    if max == min then
      Hsl(0.0, 0.0, l * 100.0)
    else
      Hsl(HueFraction(r, g, b) * 360.0, Saturation(max, min) * 100.0, l * 100.0)
  }

  /**
   * The inner helper `hue2rgb` of `hslToRgb` (client/script.js:31-38): wrap
   * `t` once upwards and once downwards, then pick one of four segments of a
   * trapezoid that runs from `p` up to `q` and back.
   */
  function Hue2Rgb(p: real, q: real, t: real): real
  {
    var u := WrapOnce(t);
    if u < 1.0 / 6.0 then Lerp(p, q, 6.0 * u)
    else if u < 1.0 / 2.0 then q
    else if u < 2.0 / 3.0 then Lerp(p, q, (2.0 / 3.0 - u) * 6.0)
    else p
  }

  /** The point a fraction f of the way from a to b: `a + (b - a) * f`. */
  function Lerp(a: real, b: real, f: real): real
  {
    a + (b - a) * f
  }

  /** The two wrapping steps of hue2rgb: add 1 if t < 0, then subtract 1 if above 1. */
  function WrapOnce(t: real): (u: real)
    ensures -1.0 <= t <= 2.0 ==> 0.0 <= u <= 1.0
    ensures u == t || u == t + 1.0 || u == t - 1.0
  {
    var t1 := if t < 0.0 then t + 1.0 else t;
    if t1 > 1.0 then t1 - 1.0 else t1
  }

  /** The upper anchor `q` of `hslToRgb` (client/script.js:40), from fractions s and l. */
  function UpperAnchor(s: real, l: real): real
  {
    if l < 0.5 then l * (1.0 + s) else l + s - l * s
  }

  /**
   * `hslToRgb` (client/script.js:24-48): hue in degrees, saturation and
   * lightness in percent; a saturation of exactly 0 gives grey, otherwise the
   * three channels are `hue2rgb` at h + 1/3, h and h - 1/3 between the
   * anchors p and q; each channel is scaled to 255 and rounded.
   */
  function HslToRgb(h: real, s: real, l: real): Rgb
  {
    var hf, sf, lf := h / 360.0, s / 100.0, l / 100.0;
    if sf == 0.0 then
      Rgb(Round(lf * 255.0), Round(lf * 255.0), Round(lf * 255.0))
    else
      var q := UpperAnchor(sf, lf);
      var p := 2.0 * lf - q;
      var r := Hue2Rgb(p, q, hf + 1.0 / 3.0);
      var g := Hue2Rgb(p, q, hf);
      var b := Hue2Rgb(p, q, hf - 1.0 / 3.0);
      Rgb(Round(r * 255.0), Round(g * 255.0), Round(b * 255.0))
  }

  /** The lightness handed back to `hslToRgb` by the lighten step: 30 points more, capped at 100. */
  function LightenedLightness(l: real): (l': real)
    ensures l' <= 100.0 && l' <= l + 30.0
    ensures l <= 100.0 ==> l <= l'
    ensures l' == l + 30.0 || l' == 100.0
  {
    if l + 30.0 < 100.0 then l + 30.0 else 100.0
  }

  /**
   * The "lighten" step of `initialiseSlider` and `selectColor`
   * (client/script.js:65-66, 106-107): to HSL, raise the lightness by 30
   * points up to 100, back to RGB.
   */
  function Lighten(c: Rgb): (light: Rgb)
    requires ValidRgb(c)
    ensures ValidRgb(light)
  {
    var hsl := RgbToHsl(c);
    HslToRgbInRange(hsl.h, hsl.s, LightenedLightness(hsl.l));
    HslToRgb(hsl.h, hsl.s, LightenedLightness(hsl.l))
  }

  // ---------------------------------------------------------------------
  // Properties of rgbToHsl

  /** A grey colour has hue and saturation 0 and lightness r/255*100. */
  lemma AchromaticToHsl(v: int)
    requires 0 <= v <= 255
    ensures RgbToHsl(Rgb(v, v, v)) == Hsl(0.0, 0.0, v as real / 255.0 * 100.0)
  {
  }

  // ---------------------------------------------------------------------
  // Properties of hslToRgb

  /** With saturation 0 all three channels equal round(l/100*255). */
  lemma AchromaticToRgb(h: real, l: real)
    ensures var c := HslToRgb(h, 0.0, l);
      c.r == c.g == c.b == Round(l / 100.0 * 255.0)
  {
  }

  /** For saturation and lightness fractions in [0, 1] the anchors satisfy 0 <= p <= q <= 1. */
  lemma AnchorsOrdered(s: real, l: real)
    requires 0.0 <= s <= 1.0 && 0.0 <= l <= 1.0
    ensures var q := UpperAnchor(s, l); 0.0 <= 2.0 * l - q <= q <= 1.0
  {
    LerpBetween(0.0, l, s);
    if l >= 0.5 {
      LerpBetween(0.0, 1.0 - l, s);
      assert l + s - l * s == l + s * (1.0 - l);
    }
  }

  /** A fraction f of the way from a to b lies between a and b. */
  lemma LerpBetween(a: real, b: real, f: real)
    requires a <= b && 0.0 <= f <= 1.0
    ensures a <= Lerp(a, b, f) <= b
  {
    NonNegativeProduct(b - a, f);
    NonNegativeProduct(b - a, 1.0 - f);
    assert (b - a) * (1.0 - f) == (b - a) - (b - a) * f;
  }

  lemma NonNegativeProduct(x: real, y: real)
    requires 0.0 <= x && 0.0 <= y
    ensures 0.0 <= x * y
  {
  }

  /** Once t lies in [-1, 2], hue2rgb stays between its anchors p <= q. */
  lemma Hue2RgbBetweenAnchors(p: real, q: real, t: real)
    requires p <= q && -1.0 <= t <= 2.0
    ensures p <= Hue2Rgb(p, q, t) <= q
  {
    var u := WrapOnce(t);
    if u < 1.0 / 6.0 {
      RisingValue(p, q, t, 6.0 * u);
      LerpBetween(p, q, 6.0 * u);
    } else if 1.0 / 2.0 <= u < 2.0 / 3.0 {
      FallingValue(p, q, t, (2.0 / 3.0 - u) * 6.0);
      LerpBetween(p, q, (2.0 / 3.0 - u) * 6.0);
    }
  }

  /**
   * Every channel of hslToRgb is an 8-bit value once the hue lies in [0, 360)
   * and saturation and lightness in [0, 100].
   */
  lemma HslToRgbInRange(h: real, s: real, l: real)
    requires 0.0 <= h < 360.0 && 0.0 <= s <= 100.0 && 0.0 <= l <= 100.0
    ensures ValidRgb(HslToRgb(h, s, l))
  {
    var hf, sf, lf := h / 360.0, s / 100.0, l / 100.0;
    if sf != 0.0 {
      var q := UpperAnchor(sf, lf);
      var p := 2.0 * lf - q;
      AnchorsOrdered(sf, lf);
      Hue2RgbBetweenAnchors(p, q, hf + 1.0 / 3.0);
      Hue2RgbBetweenAnchors(p, q, hf);
      Hue2RgbBetweenAnchors(p, q, hf - 1.0 / 3.0);
      RoundedChannel(Hue2Rgb(p, q, hf + 1.0 / 3.0));
      RoundedChannel(Hue2Rgb(p, q, hf));
      RoundedChannel(Hue2Rgb(p, q, hf - 1.0 / 3.0));
    } else {
      RoundedChannel(lf);
    }
  }

  /** A value in [0, 1] scaled to 255 and rounded is an 8-bit channel. */
  lemma RoundedChannel(x: real)
    requires 0.0 <= x <= 1.0
    ensures 0 <= Round(x * 255.0) <= 255
  {
  }

  // ---------------------------------------------------------------------
  // The exact round trip rgbToHsl -> hslToRgb

  /**
   * With exact arithmetic the two anchors of hslToRgb, computed from the
   * saturation and lightness that rgbToHsl derives from the extremes, are
   * exactly those extremes: q is the largest normalised channel, p the smallest.
   */
  lemma {:induction false} AnchorsRecoverExtremes(max: real, min: real)
    requires 0.0 <= min < max <= 1.0
    ensures UpperAnchor(Saturation(max, min), (max + min) / 2.0) == max
    ensures 2.0 * ((max + min) / 2.0) - max == min
  {
    var l := (max + min) / 2.0;
    var d := max - min;
    var s := Saturation(max, min);
    if l > 0.5 {
      assert s * (2.0 - max - min) == d;
      assert s * (1.0 - l) == d / 2.0;
      assert UpperAnchor(s, l) == l + s * (1.0 - l);
    } else {
      assert s * (max + min) == d;
      assert l * s == d / 2.0;
      assert UpperAnchor(s, l) == l + l * s;
    }
  }

  /**
   * With anchors p = min and q = max, hue2rgb at h + 1/3, h and h - 1/3 gives
   * back the three normalised channels, for the hue fraction h of the colour.
   */
  lemma {:induction false} HueRecoversChannels(r: real, g: real, b: real)
    requires 0.0 <= r <= 1.0 && 0.0 <= g <= 1.0 && 0.0 <= b <= 1.0
    requires Max3(r, g, b) != Min3(r, g, b)
    ensures var max, min, h := Max3(r, g, b), Min3(r, g, b), HueFraction(r, g, b);
      Hue2Rgb(min, max, h + 1.0 / 3.0) == r
      && Hue2Rgb(min, max, h) == g
      && Hue2Rgb(min, max, h - 1.0 / 3.0) == b
  {
    var max, min := Max3(r, g, b), Min3(r, g, b);
    var d := max - min;
    var h := HueFraction(r, g, b);
    if max == r {
      var x := SectorDiff(g, b, d);
      if g < b {
        // sector 5: red largest, green smallest
        assert min == g;
        assert h == (x + 6.0) / 6.0;
        RedSectorHigh(r, g, b, min, max, x, h);
      } else {
        // sector 0: red largest, blue smallest
        assert min == b;
        assert h == x / 6.0;
        RedSectorLow(r, g, b, min, max, x, h);
      }
    } else if max == g {
      var x := SectorDiff(b, r, d);
      assert h == (x + 2.0) / 6.0;
      GreenSector(r, g, b, min, max, x, h);
    } else {
      var x := SectorDiff(r, g, d);
      assert h == (x + 4.0) / 6.0;
      BlueSector(r, g, b, min, max, x, h);
    }
  }

  /** On the rising edge hue2rgb moves a fraction x = 6u of the way from p to q. */
  lemma RisingValue(p: real, q: real, t: real, x: real)
    requires WrapOnce(t) < 1.0 / 6.0 && 6.0 * WrapOnce(t) == x
    ensures Hue2Rgb(p, q, t) == Lerp(p, q, x)
  {
  }

  /** On the falling edge hue2rgb moves a fraction x = (2/3 - u) * 6 of the way from p to q. */
  lemma FallingValue(p: real, q: real, t: real, x: real)
    requires 1.0 / 2.0 <= WrapOnce(t) < 2.0 / 3.0 && (2.0 / 3.0 - WrapOnce(t)) * 6.0 == x
    ensures Hue2Rgb(p, q, t) == Lerp(p, q, x)
  {
  }

  /** Red is largest, green at least blue: 6h = (g - b)/d lies in [0, 1]. */
  lemma RedSectorLow(r: real, g: real, b: real, min: real, max: real, x: real, h: real)
    requires min == b <= g <= r == max && min < max
    requires x * (max - min) == g - b && 0.0 <= x <= 1.0 && h == x / 6.0
    ensures Hue2Rgb(min, max, h + 1.0 / 3.0) == r
    ensures Hue2Rgb(min, max, h) == g
    ensures Hue2Rgb(min, max, h - 1.0 / 3.0) == b
  {
    if x < 1.0 {
      RisingValue(min, max, h, x);
    } else {
      FallingValue(min, max, h + 1.0 / 3.0, 1.0);
    }
  }

  /** Red is largest, green below blue: 6h = (g - b)/d + 6 lies in [5, 6). */
  lemma RedSectorHigh(r: real, g: real, b: real, min: real, max: real, x: real, h: real)
    requires min == g < b <= r == max
    requires x * (max - min) == g - b && -1.0 <= x < 0.0 && h == (x + 6.0) / 6.0
    ensures Hue2Rgb(min, max, h + 1.0 / 3.0) == r
    ensures Hue2Rgb(min, max, h) == g
    ensures Hue2Rgb(min, max, h - 1.0 / 3.0) == b
  {
    FallingValue(min, max, h - 1.0 / 3.0, -x);
  }

  /** Green is largest (red strictly below): 6h = (b - r)/d + 2 lies in [1, 3]. */
  lemma GreenSector(r: real, g: real, b: real, min: real, max: real, x: real, h: real)
    requires r < g == max && b <= g && min <= r && min <= b && (min == r || min == b)
    requires x * (max - min) == b - r && -1.0 <= x <= 1.0 && h == (x + 2.0) / 6.0
    requires b < r ==> x < 0.0
    requires r <= b ==> 0.0 <= x
    ensures Hue2Rgb(min, max, h + 1.0 / 3.0) == r
    ensures Hue2Rgb(min, max, h) == g
    ensures Hue2Rgb(min, max, h - 1.0 / 3.0) == b
  {
    if x == 1.0 {
      FallingValue(min, max, h, 1.0);
    }
    if x < 0.0 {
      FallingValue(min, max, h + 1.0 / 3.0, -x);
    } else if x < 1.0 {
      RisingValue(min, max, h - 1.0 / 3.0, x);
    }
  }

  /** Blue is largest (red and green strictly below): 6h = (r - g)/d + 4 lies in (3, 5). */
  lemma BlueSector(r: real, g: real, b: real, min: real, max: real, x: real, h: real)
    requires r < b == max && g < b && min <= r && min <= g && (min == r || min == g)
    requires x * (max - min) == r - g && -1.0 < x < 1.0 && h == (x + 4.0) / 6.0
    requires g < r ==> x > 0.0
    requires r <= g ==> x <= 0.0
    ensures Hue2Rgb(min, max, h + 1.0 / 3.0) == r
    ensures Hue2Rgb(min, max, h) == g
    ensures Hue2Rgb(min, max, h - 1.0 / 3.0) == b
  {
    if x > 0.0 {
      RisingValue(min, max, h + 1.0 / 3.0, x);
    } else if x < 0.0 {
      FallingValue(min, max, h, -x);
    }
  }

  /** An integral channel scaled down by 255 and back up rounds to itself. */
  lemma RoundScaledChannel(v: int)
    ensures Round((v as real / 255.0) * 255.0) == v
  {
  }

  /**
   * The chromatic half of the round trip on normalised channels: feeding the
   * hue, saturation and lightness of rgbToHsl's chromatic branch to hslToRgb
   * rounds each channel's own value scaled to 255.
   */
  lemma {:induction false} ChromaticRoundTrip(r: real, g: real, b: real)
    requires 0.0 <= r <= 1.0 && 0.0 <= g <= 1.0 && 0.0 <= b <= 1.0
    requires Max3(r, g, b) != Min3(r, g, b)
    ensures var max, min := Max3(r, g, b), Min3(r, g, b);
      HslToRgb(HueFraction(r, g, b) * 360.0, Saturation(max, min) * 100.0, (max + min) / 2.0 * 100.0)
        == Rgb(Round(r * 255.0), Round(g * 255.0), Round(b * 255.0))
  {
    var max, min := Max3(r, g, b), Min3(r, g, b);
    var h, s, l := HueFraction(r, g, b), Saturation(max, min), (max + min) / 2.0;
    assert (h * 360.0) / 360.0 == h && (s * 100.0) / 100.0 == s && (l * 100.0) / 100.0 == l;
    AnchorsRecoverExtremes(max, min);
    HueRecoversChannels(r, g, b);
  }

  /** A grey survives the round trip: lightness v/255*100 maps back to level v. */
  lemma GreyRoundTrip(v: int)
    requires 0 <= v <= 255
    ensures HslToRgb(0.0, 0.0, v as real / 255.0 * 100.0) == Rgb(v, v, v)
  {
    assert v as real / 255.0 * 100.0 / 100.0 * 255.0 == v as real;
  }

  /** The hue, saturation and lightness rgbToHsl gives a chromatic colour, spelled out. */
  lemma ChromaticToHsl(c: Rgb)
    requires ValidRgb(c)
    requires !(c.r == c.g == c.b)
    ensures var r, g, b := c.r as real / 255.0, c.g as real / 255.0, c.b as real / 255.0;
      var max, min := Max3(r, g, b), Min3(r, g, b);
      max != min
      && RgbToHsl(c) == Hsl(HueFraction(r, g, b) * 360.0, Saturation(max, min) * 100.0, (max + min) / 2.0 * 100.0)
  {
  }

  /** A colour that is not a grey survives the round trip. */
  lemma {:induction false} ChromaticRgbRoundTrip(c: Rgb)
    requires ValidRgb(c)
    requires !(c.r == c.g == c.b)
    ensures var hsl := RgbToHsl(c); HslToRgb(hsl.h, hsl.s, hsl.l) == c
  {
    var r, g, b := c.r as real / 255.0, c.g as real / 255.0, c.b as real / 255.0;
    ChromaticToHsl(c);
    ChromaticRoundTrip(r, g, b);
    RoundScaledChannel(c.r);
    RoundScaledChannel(c.g);
    RoundScaledChannel(c.b);
  }

  /**
   * With exact arithmetic, hslToRgb undoes rgbToHsl on every 8-bit colour:
   * the round trip returns the very same channels. Nothing is claimed about
   * doubles.
   */
  lemma {:induction false} RoundTrip(c: Rgb)
    requires ValidRgb(c)
    ensures var hsl := RgbToHsl(c); HslToRgb(hsl.h, hsl.s, hsl.l) == c
  {
    if c.r == c.g == c.b {
      AchromaticToHsl(c.r);
      GreyRoundTrip(c.r);
    } else {
      ChromaticRgbRoundTrip(c);
    }
  }

  // ---------------------------------------------------------------------
  // Properties of the lighten step

  /**
   * The lightness the lighten step asks for is never below the colour's own
   * lightness and never above 100, and the lightened colour is a valid colour.
   */
  lemma LightenBounds(c: Rgb)
    requires ValidRgb(c)
    ensures var l := RgbToHsl(c).l; l <= LightenedLightness(l) <= 100.0
    ensures ValidRgb(Lighten(c))
  {
  }

  /** Lightening a grey gives a grey whose level is that of lightness min(l + 30, 100). */
  lemma LightenGrey(v: int)
    requires 0 <= v <= 255
    ensures var w := Round(LightenedLightness(v as real / 255.0 * 100.0) / 100.0 * 255.0);
      Lighten(Rgb(v, v, v)) == Rgb(w, w, w)
  {
    AchromaticToHsl(v);
  }

  /** White is already as light as it gets: lightening it gives white. */
  lemma LightenWhite()
    ensures Lighten(Rgb(255, 255, 255)) == Rgb(255, 255, 255)
  {
    LightenGrey(255);
  }
}
