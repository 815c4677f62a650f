/**
 * The rainbow colour bar of the picker: a normalised position along the bar
 * is mapped to a colour by linear interpolation between seven fixed stops.
 * `selectColor` and `updateThumbColor` each carry their own copy of this
 * lookup; the copies agree stop for stop (`ThumbTableIsTheSame`), so the
 * lookup is modelled once.
 */
module Gradient {
  import opened ColourConvert

  /** The seven stops: red, orange, yellow, green, blue, indigo, violet. */
  const GRADIENT_COLORS: seq<Rgb> := [
    Rgb(255, 0, 0),
    Rgb(255, 165, 0),
    Rgb(255, 255, 0),
    Rgb(0, 128, 0),
    Rgb(0, 0, 255),
    Rgb(75, 0, 130),
    Rgb(238, 130, 238)
  ]

  /** The copy of the table written out again in `updateThumbColor` (client/script.js:129-132). */
  const THUMB_GRADIENT_COLORS: seq<Rgb> := [
    Rgb(255, 0, 0), Rgb(255, 165, 0), Rgb(255, 255, 0),
    Rgb(0, 128, 0), Rgb(0, 0, 255), Rgb(75, 0, 130), Rgb(238, 130, 238)
  ]

  /** The thumb's table is the click handler's table, stop for stop. */
  lemma ThumbTableIsTheSame()
    ensures THUMB_GRADIENT_COLORS == GRADIENT_COLORS
  {
  }

  /** `gradientColors.length - 1`: the number of segments between stops. */
  const STOPS: int := |GRADIENT_COLORS| - 1

  function Min(x: int, y: int): int {
    if x <= y then x else y
  }

  function Max(x: int, y: int): int {
    if x >= y then x else y
  }

  /** `Math.max(0, Math.min(ratio, 1))`: the pointer's offset clamped to the bar. */
  function ClampPosition(ratio: real): (position: real)
    ensures 0.0 <= position <= 1.0
    ensures 0.0 <= ratio <= 1.0 ==> position == ratio
    ensures ratio < 0.0 ==> position == 0.0
    ensures ratio > 1.0 ==> position == 1.0
  {
    var upper := if ratio <= 1.0 then ratio else 1.0;
    if 0.0 >= upper then 0.0 else upper
  }

  /** `Math.floor(position * stops)`: the segment a position falls in; 6 at the very end. */
  function StopIndex(position: real): (i: int)
    requires 0.0 <= position <= 1.0
    ensures 0 <= i <= STOPS
    ensures i as real <= position * STOPS as real < i as real + 1.0
  {
    (position * STOPS as real).Floor
  }

  /** `position * stops - stopIndex`: how far along its segment a position lies. */
  function Blend(position: real): (t: real)
    requires 0.0 <= position <= 1.0
    ensures 0.0 <= t < 1.0
    ensures position == 1.0 ==> t == 0.0
  {
    position * STOPS as real - StopIndex(position) as real
  }

  /** One channel `Math.round(c1 + (c2 - c1) * blend)`. */
  function Mix(c1: int, c2: int, blend: real): int
  {
    Round(Lerp(c1 as real, c2 as real, blend))
  }

  /** The three channels mixed with the same blend. */
  function MixColors(c1: Rgb, c2: Rgb, blend: real): Rgb
  {
    Rgb(Mix(c1.r, c2.r, blend), Mix(c1.g, c2.g, blend), Mix(c1.b, c2.b, blend))
  }

  /**
   * The colour at a clamped position (client/script.js:95-103 and 133-141):
   * the stop below and the stop above, the latter guarded by
   * `Math.min(stopIndex + 1, stops)` so that the end of the bar reads the last
   * stop twice, blended linearly and rounded per channel.
   */
  function GradientColorAt(position: real): (c: Rgb)
    requires 0.0 <= position <= 1.0
    ensures ValidRgb(c)
  {
    var i := StopIndex(position);
    var c1 := GRADIENT_COLORS[i];
    var c2 := GRADIENT_COLORS[Min(i + 1, STOPS)];
    var t := Blend(position);
    MixBetween(c1.r, c2.r, t);
    MixBetween(c1.g, c2.g, t);
    MixBetween(c1.b, c2.b, t);
    MixColors(c1, c2, t)
  }

  /** The colour under the pointer: the offset is clamped first (client/script.js:82, 126). */
  function PickerColor(ratio: real): (c: Rgb)
    ensures ValidRgb(c)
  {
    GradientColorAt(ClampPosition(ratio))
  }

  // ---------------------------------------------------------------------
  // Properties

  /** A mixed channel lies between the two channels it mixes. */
  lemma MixBetween(c1: int, c2: int, blend: real)
    requires 0.0 <= blend <= 1.0
    ensures Min(c1, c2) <= Mix(c1, c2, blend) <= Max(c1, c2)
    ensures blend == 0.0 ==> Mix(c1, c2, blend) == c1
    ensures blend == 1.0 ==> Mix(c1, c2, blend) == c2
  {
    if c1 <= c2 {
      LerpBetween(c1 as real, c2 as real, blend);
    } else {
      LerpBetween(c2 as real, c1 as real, 1.0 - blend);
      assert Lerp(c1 as real, c2 as real, blend) == Lerp(c2 as real, c1 as real, 1.0 - blend);
    }
  }

  /**
   * Every position inside segment i (including its left end) has stop index i;
   * together with StopIndex's own contract this says the index is exactly the
   * segment the position lies in.
   */
  lemma {:induction false} StopIndexOfSegment(position: real, i: int)
    requires 0 <= i < STOPS
    requires i as real / 6.0 <= position < (i + 1) as real / 6.0
    ensures StopIndex(position) == i
    ensures Blend(position) == position * 6.0 - i as real
  {
    assert i as real <= position * 6.0 < i as real + 1.0;
  }

  /** At the boundary position k/6 the bar shows stop k exactly. */
  lemma {:induction false} GradientAtStop(k: int)
    requires 0 <= k <= STOPS
    ensures GradientColorAt(k as real / 6.0) == GRADIENT_COLORS[k]
  {
    var position := k as real / 6.0;
    assert position * 6.0 == k as real;
    assert StopIndex(position) == k;
    assert Blend(position) == 0.0;
    var c := GRADIENT_COLORS[k];
    var c2 := GRADIENT_COLORS[Min(k + 1, STOPS)];
    MixBetween(c.r, c2.r, 0.0);
    MixBetween(c.g, c2.g, 0.0);
    MixBetween(c.b, c2.b, 0.0);
  }

  /** The two ends of the bar: red at the top, and violet at the bottom via the index guard. */
  lemma GradientEnds()
    ensures GradientColorAt(0.0) == Rgb(255, 0, 0)
    ensures GradientColorAt(1.0) == Rgb(238, 130, 238)
    ensures StopIndex(1.0) == STOPS && Blend(1.0) == 0.0
  {
    GradientAtStop(0);
    GradientAtStop(STOPS);
  }

  /** The middle of the bar is the green stop exactly. */
  lemma GradientMiddle()
    ensures GradientColorAt(0.5) == Rgb(0, 128, 0)
  {
    GradientAtStop(3);
  }

  /**
   * The ramp is continuous at each inner stop: segment k - 1 blended all the
   * way (blend 1) lands on the colour the bar shows at k/6.
   */
  lemma {:induction false} RampMeetsAtStops(k: int)
    requires 1 <= k <= STOPS
    ensures MixColors(GRADIENT_COLORS[k - 1], GRADIENT_COLORS[k], 1.0) == GradientColorAt(k as real / 6.0)
  {
    var c1, c2 := GRADIENT_COLORS[k - 1], GRADIENT_COLORS[k];
    MixBetween(c1.r, c2.r, 1.0);
    MixBetween(c1.g, c2.g, 1.0);
    MixBetween(c1.b, c2.b, 1.0);
    GradientAtStop(k);
  }

  /**
   * Each channel of the colour at a position lies between the matching
   * channels of the stop below and the (guarded) stop above.
   */
  lemma {:induction false} GradientBetweenStops(position: real)
    requires 0.0 <= position <= 1.0
    ensures var i := StopIndex(position);
      var c1, c2, c := GRADIENT_COLORS[i], GRADIENT_COLORS[Min(i + 1, STOPS)], GradientColorAt(position);
      Min(c1.r, c2.r) <= c.r <= Max(c1.r, c2.r)
      && Min(c1.g, c2.g) <= c.g <= Max(c1.g, c2.g)
      && Min(c1.b, c2.b) <= c.b <= Max(c1.b, c2.b)
  {
    var i := StopIndex(position);
    var c1, c2 := GRADIENT_COLORS[i], GRADIENT_COLORS[Min(i + 1, STOPS)];
    var t := Blend(position);
    MixBetween(c1.r, c2.r, t);
    MixBetween(c1.g, c2.g, t);
    MixBetween(c1.b, c2.b, t);
  }

  /** Pointer offsets above the bar read red, offsets below it read violet. */
  lemma PickerColorOutside(ratio: real)
    ensures ratio <= 0.0 ==> PickerColor(ratio) == Rgb(255, 0, 0)
    ensures ratio >= 1.0 ==> PickerColor(ratio) == Rgb(238, 130, 238)
  {
    GradientEnds();
  }
}
