/**
 * The colour values the slider handlers compute before writing them to the
 * page: the dark colour under the pointer, its lightened partner, and the
 * text of both. The writes themselves (style properties, `dataset` fields)
 * are not modelled.
 */
module Slider {
  import opened ColourConvert
  import opened Gradient
  import opened RgbText

  /** The slider's starting colour, purple (client/script.js:63). */
  const DEFAULT_COLOR: string := "rgb(128, 0, 128)"

  /** The two ends of the slider's own gradient, as `rgb(...)` text. */
  datatype SliderColours = SliderColours(dark: string, light: string)

  /** The digit runs of the default colour are 128, 0 and 128. */
  lemma DefaultColourRuns()
    ensures DigitRuns(DEFAULT_COLOR) == [128, 0, 128]
  {
    assert FormatRgb(Rgb(128, 0, 128)) == DEFAULT_COLOR;
    ParseFormatted(Rgb(128, 0, 128));
  }

  /**
   * `initialiseSlider` (client/script.js:63-66): read the default colour's
   * channels back out of its text and lighten them; with exact arithmetic
   * the light end is rgb(255, 26, 255).
   */
  function InitialiseSlider(): (colours: SliderColours)
    ensures colours == SliderColours(DEFAULT_COLOR, "rgb(255, 26, 255)")
  {
    DefaultColourRuns();
    DefaultColourLightens();
    var runs := DigitRuns(DEFAULT_COLOR);
    var c := Rgb(runs[0], runs[1], runs[2]);
    SliderColours(DEFAULT_COLOR, FormatRgb(Lighten(c)))
  }

  /**
   * `selectColor` (client/script.js:82-107): the colour under the pointer as
   * text, and the text of its lightened partner; both read back, digit run by
   * digit run, as those two colours, every channel an 8-bit value.
   */
  function SelectColor(ratio: real): (colours: SliderColours)
    ensures var c := PickerColor(ratio);
      var light := Lighten(c);
      ValidRgb(c) && ValidRgb(light)
      && DigitRuns(colours.dark) == [c.r, c.g, c.b]
      && DigitRuns(colours.light) == [light.r, light.g, light.b]
  {
    var c := PickerColor(ratio);
    ParseFormatted(c);
    ParseFormatted(Lighten(c));
    SliderColours(FormatRgb(c), FormatRgb(Lighten(c)))
  }

  /**
   * `updateThumbColor` (client/script.js:126-143), which repeats the lookup
   * of `selectColor` with its own copy of the stop table: the thumb shows the
   * same colour text that a click at the same position selects.
   */
  function UpdateThumbColor(ratio: real): (text: string)
    ensures text == SelectColor(ratio).dark
  {
    FormatRgb(PickerColor(ratio))
  }

  // ---------------------------------------------------------------------
  // Properties

  /** Purple in HSL: hue 300 degrees, full saturation, lightness 1280/51 percent. */
  lemma DefaultColourHsl()
    ensures RgbToHsl(Rgb(128, 0, 128)) == Hsl(300.0, 100.0, 1280.0 / 51.0)
  {
    var r, g, b := 128.0 / 255.0, 0.0, 128.0 / 255.0;
    assert Max3(r, g, b) == r && Min3(r, g, b) == 0.0;
    assert Saturation(r, 0.0) == 1.0;
    assert HueFraction(r, g, b) == 5.0 / 6.0;
  }

  /**
   * The default purple lightens to rgb(255, 26, 255) (exact arithmetic): the
   * lightness rises from 1280/51 to 2810/51 percent, so q = 1 and p = 26/255.
   */
  lemma DefaultColourLightens()
    ensures Lighten(Rgb(128, 0, 128)) == Rgb(255, 26, 255)
    ensures FormatRgb(Lighten(Rgb(128, 0, 128))) == "rgb(255, 26, 255)"
  {
    DefaultColourHsl();
    var l := 2810.0 / 51.0 / 100.0;
    assert LightenedLightness(1280.0 / 51.0) == 2810.0 / 51.0;
    assert UpperAnchor(1.0, l) == 1.0;
    var p := 2.0 * l - 1.0;
    assert p * 255.0 == 26.0;
    assert Hue2Rgb(p, 1.0, 300.0 / 360.0 + 1.0 / 3.0) == 1.0;
    assert Hue2Rgb(p, 1.0, 300.0 / 360.0) == p;
    assert Hue2Rgb(p, 1.0, 300.0 / 360.0 - 1.0 / 3.0) == 1.0;
    assert HslToRgb(300.0, 100.0, 2810.0 / 51.0) == Rgb(255, 26, 255);
    assert FormatRgb(Rgb(255, 26, 255)) == "rgb(255, 26, 255)";
  }
}
