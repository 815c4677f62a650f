# Slider colour picker: colour arithmetic

This project models the colour arithmetic of the slider colour picker's client
script (`client/script.js`). The user clicks a vertical rainbow bar. The
script turns the click's position into a colour, lightens that colour through
HSL, and writes both as `rgb(R, G, B)` text. Four modules cover it:

- `ColourConvert` (colour_convert.dfy) models `rgbToHsl`, `hslToRgb` with its
  inner `hue2rgb`, and the "lighten" step `hslToRgb(h, s, Math.min(l + 30, 100))`.
- `Gradient` (gradient.dfy) models the position clamp, the seven-stop rainbow
  table and the per-channel interpolation. `selectColor` and
  `updateThumbColor` each hold their own copy of this lookup. The two tables
  (lines 85-93 and 129-132) have the same seven stops in the same order, so
  the table is defined once, as `GRADIENT_COLORS`.
- `RgbText` (rgb_text.dfy) models the `rgb(${r}, ${g}, ${b})` formatter and
  the digit-run reader `match(/\d+/g).map(Number)`.
- `Slider` (slider.dfy) models the values that `initialiseSlider`,
  `selectColor` and `updateThumbColor` compute. It does not model the page
  writes.

JavaScript numbers are modelled as exact reals. `Math.round(x)` is
`(x + 0.5).Floor`, which rounds halves up as JavaScript does, and
`Math.floor` is `.Floor`. The `switch (max)` in `rgbToHsl` becomes an if-chain
tried in the order r, g, b, so a tie goes to the earlier channel.

Under exact arithmetic `hslToRgb` undoes `rgbToHsl` exactly on every 8-bit
colour: `RoundTrip` proves `hslToRgb(rgbToHsl(c)) == c`. The other direction
is not claimed, since HSL triples that no 8-bit colour produces need not
survive it. `RoundTrip` holds for the exact-real model; nothing is claimed
about doubles.

At position 1 the code leaves the stop index at 6, reads the last stop twice
through `Math.min(stopIndex + 1, stops)` and uses blend 0, so the bar ends on
violet (`GradientEnds`).

Functions that only compute and carry no contract of their own are `Hue2Rgb`,
`UpperAnchor`, `HslToRgb`, `Lerp`, `Mix`, `MixColors`, `Gradient.Min`,
`FormatInt`, `FormatRgb`, `DigitsValue` and `DigitRuns`. Each has a row in the
table naming the lemmas that state what it does. `Gradient.Max` has no
counterpart in the script; it only states the upper bound in `MixBetween`.

## Model

| member | source | states |
|---|---|---|
| ColourConvert.Round | client/script.js:47 | `Math.round` returns the integer within half a unit of its argument, with halves rounded up |
| ColourConvert.Max3 | client/script.js:4 | `Math.max` of three values is one of them and at least each of them |
| ColourConvert.Min3 | client/script.js:4 | `Math.min` of three values is one of them and at most each of them |
| ColourConvert.SaturationBound | client/script.js:11 | in the chromatic branch, both saturation denominators (2 - max - min when l > 0.5, max + min otherwise) are positive and at least max - min, so the quotient is in (0, 1] |
| ColourConvert.Saturation | client/script.js:10-11 | the saturation of a chromatic colour is a fraction in (0, 1] |
| ColourConvert.SectorDiff | client/script.js:13-15 | the sector offset (x - y)/d times d gives back x - y; it lies in [-1, 1], is negative when x < y and positive when x > y |
| ColourConvert.HueFraction | client/script.js:12-17 | the six-sector hue, divided by 6, is a fraction in [0, 1) whichever channel is the maximum |
| ColourConvert.RgbToHsl | client/script.js:2-21 | for 8-bit channels the hue is in [0, 360) and saturation and lightness are in [0, 100]; lightness is the mean of the largest and smallest channel as a percentage of 255; saturation is 0 exactly when r = g = b |
| ColourConvert.AchromaticToHsl | client/script.js:3-20 | a grey (v, v, v) has hue 0, saturation 0 and lightness v/255*100 |
| ColourConvert.WrapOnce | client/script.js:32-33 | the two wrap steps of `hue2rgb` move t by at most one whole turn and bring any t in [-1, 2] into [0, 1] |
| ColourConvert.Hue2Rgb | client/script.js:31-38 | no contract of its own; `Hue2RgbBetweenAnchors` keeps it in [p, q], and `HueRecoversChannels` shows that its three calls give back the channels |
| ColourConvert.AnchorsOrdered | client/script.js:40-41 | for saturation and lightness fractions in [0, 1], the anchors satisfy 0 <= p <= q <= 1 |
| ColourConvert.UpperAnchor | client/script.js:40 | no contract of its own; `AnchorsOrdered` bounds it and `AnchorsRecoverExtremes` shows that it gives back the largest channel |
| ColourConvert.LerpBetween | client/script.js:101-103 | a linear interpolation from a to b with a fraction in [0, 1] stays between a and b |
| ColourConvert.Lerp | client/script.js:34-36 | no contract of its own; `LerpBetween` keeps it between its ends and `MixBetween` pins its ends |
| ColourConvert.Hue2RgbBetweenAnchors | client/script.js:31-38 | for p <= q and t in [-1, 2], `hue2rgb` returns a value in [p, q] |
| ColourConvert.RoundedChannel | client/script.js:47 | a fraction in [0, 1] scaled by 255 and rounded is an integer in [0, 255] |
| ColourConvert.HslToRgbInRange | client/script.js:24-48 | for h in [0, 360) and s, l in [0, 100], every output channel is an integer in [0, 255] |
| ColourConvert.HslToRgb | client/script.js:24-48 | no contract of its own; `HslToRgbInRange` gives 8-bit channels, `AchromaticToRgb` covers greys and `RoundTrip` shows that it inverts `RgbToHsl` |
| ColourConvert.AchromaticToRgb | client/script.js:28-47 | with s = 0 all three channels are equal, each round(l/100*255), whatever the hue |
| ColourConvert.AnchorsRecoverExtremes | client/script.js:40-41 | fed the saturation and lightness that `rgbToHsl` derives from the extremes max > min, the anchors are exactly q = max; p = min then follows by arithmetic from p = 2l - q, a proof step |
| ColourConvert.RedSectorLow | client/script.js:13 | when red is the maximum and g >= b, `hue2rgb` at h + 1/3, h and h - 1/3 with anchors (min, max) returns r, g and b |
| ColourConvert.RedSectorHigh | client/script.js:13 | when red is the maximum and g < b (the `+ 6` case), `hue2rgb` returns r, g and b |
| ColourConvert.GreenSector | client/script.js:14 | when green is the maximum and red is below it, `hue2rgb` returns r, g and b |
| ColourConvert.BlueSector | client/script.js:15 | when blue is the maximum and red and green are below it, `hue2rgb` returns r, g and b |
| ColourConvert.HueRecoversChannels | client/script.js:42-44 | for every chromatic colour in [0, 1]^3, the three `hue2rgb` calls at its hue fraction give back its three channels |
| ColourConvert.ChromaticRoundTrip | client/script.js:24-48 | `hslToRgb` of the chromatic branch's (h*360, s*100, l*100) gives each channel rounded after scaling by 255 |
| ColourConvert.GreyRoundTrip | client/script.js:28-29 | the lightness v/255*100 of the grey (v, v, v), fed back with saturation 0, gives (v, v, v) again |
| ColourConvert.ChromaticRgbRoundTrip | client/script.js:2-48 | every 8-bit colour that is not a grey comes back unchanged from `hslToRgb(rgbToHsl(c))` |
| ColourConvert.RoundTrip | client/script.js:2-48 | under exact arithmetic, `hslToRgb(rgbToHsl(c))` equals c for every 8-bit colour c |
| ColourConvert.LightenedLightness | client/script.js:66 | `Math.min(l + 30, 100)`: the result is at most 100 and at most l + 30, and equals one of them, so it is their minimum; it is at least l when l <= 100 |
| ColourConvert.Lighten | client/script.js:65-66 | lightening an 8-bit colour gives an 8-bit colour |
| ColourConvert.LightenBounds | client/script.js:106-107 | the lightness that the lighten step passes to `hslToRgb` is at least the colour's own lightness and at most 100, and the result is an 8-bit colour |
| ColourConvert.LightenGrey | client/script.js:65-66 | lightening the grey (v, v, v) gives the grey whose level is round(min(v/255*100 + 30, 100)/100*255) |
| ColourConvert.LightenWhite | client/script.js:66 | lightening white gives white |
| Gradient.ClampPosition | client/script.js:82 | the clamped position is in [0, 1]: it equals the ratio inside that range, 0 below it and 1 above it |
| Gradient.StopIndex | client/script.js:95-96 | the stop index is the floor of position*6: in [0, 6], with index <= position*6 < index + 1 |
| Gradient.Blend | client/script.js:99 | the blend is in [0, 1), and it is 0 at position 1 |
| Gradient.MixBetween | client/script.js:101-103 | an interpolated and rounded channel lies between the two channels it mixes; it is the first at blend 0 and the second at blend 1 |
| Gradient.Mix | client/script.js:101-103 | no contract of its own; `MixBetween` keeps it between the two channels it mixes, equal to the first at blend 0 and to the second at blend 1 |
| Gradient.MixColors | client/script.js:101-103 | no contract of its own; `GradientBetweenStops` and `GradientAtStop` state what the mixed colour is |
| Gradient.Min | client/script.js:98 | no contract of its own; `Math.min(stopIndex + 1, stops)`, which `GradientEnds` and `RampMeetsAtStops` rely on |
| Gradient.GradientColorAt | client/script.js:95-103 | the colour at any position in [0, 1] is an 8-bit colour |
| Gradient.PickerColor | client/script.js:82-103 | the colour for any pointer ratio, clamped first, is an 8-bit colour |
| Gradient.StopIndexOfSegment | client/script.js:96-99 | every position in [i/6, (i+1)/6) has stop index i and blend position*6 - i |
| Gradient.GradientAtStop | client/script.js:85-103 | at position k/6 the bar gives exactly stop k of the table, for each k in 0..6 |
| Gradient.GradientEnds | client/script.js:95-103 | position 0 gives (255, 0, 0) and position 1 gives (238, 130, 238), with stop index 6 and blend 0 at the end |
| Gradient.GradientMiddle | client/script.js:85-103 | position 0.5 gives the green stop (0, 128, 0) exactly |
| Gradient.RampMeetsAtStops | client/script.js:85-103 | the ramp is continuous: segment k - 1 taken to blend 1 lands on the colour shown at k/6 |
| Gradient.GradientBetweenStops | client/script.js:97-103 | each output channel lies between the matching channels of color1 and color2 |
| Gradient.PickerColorOutside | client/script.js:82-103 | a ratio at or below 0 reads red, and one at or above 1 reads violet |
| Gradient.ThumbTableIsTheSame | client/script.js:85-93 | the table written out again in `updateThumbColor` (lines 129-132) equals the click handler's table stop for stop |
| RgbText.Decimal | client/script.js:105 | the numeral of a natural number is a non-empty run of digits with no leading zero |
| RgbText.FormatInt | client/script.js:105 | no contract of its own; for non-negative values it is `Decimal`, which `DecimalValue` reads back |
| RgbText.FormatRgb | client/script.js:105 | no contract of its own; `ParseFormatted` reads its text back as the three channels and `FormatInjective` shows that different colours give different texts |
| RgbText.DigitsValue | client/script.js:64 | no contract of its own; `DecimalValue` shows that it reads a numeral as its number |
| RgbText.DigitRuns | client/script.js:64 | no contract of its own; `NoRunsWithoutDigits`, `SkipNonDigits`, `ReadNumeral` and `ParseFormatted` state what it reads |
| RgbText.LeadingDigits | client/script.js:64 | the leading run of digits is all digits and is followed by a non-digit or by the end of the text |
| RgbText.NoRunsWithoutDigits | client/script.js:64 | the reader finds no run exactly when the text has no digit, which is the case where `match` gives null |
| RgbText.DecimalValue | client/script.js:64 | `Number` of the numeral of n is n |
| RgbText.SkipNonDigits | client/script.js:64 | characters that are not digits add no runs |
| RgbText.LeadingDigitsOfRun | client/script.js:64 | a numeral followed by a non-digit is read as one whole run |
| RgbText.ReadNumeral | client/script.js:64 | the numeral of n followed by a non-digit reads as n, then the runs of the rest |
| RgbText.ReadField | client/script.js:64 | a separator without digits, the numeral of n and then a non-digit read as n followed by the runs of the rest |
| RgbText.ParseFormatted | client/script.js:105 | the digit runs of `rgb(R, G, B)` for non-negative R, G, B are exactly [R, G, B] |
| RgbText.FormatInjective | client/script.js:105 | two colours with non-negative channels that format to the same text are the same colour |
| Slider.DefaultColourRuns | client/script.js:63-64 | the digit runs of the default 'rgb(128, 0, 128)' are [128, 0, 128] |
| Slider.DefaultColourHsl | client/script.js:65 | the default purple is hue 300, saturation 100 and lightness 1280/51 |
| Slider.DefaultColourLightens | client/script.js:66 | the default purple lightens to (255, 26, 255), whose text is 'rgb(255, 26, 255)' |
| Slider.InitialiseSlider | client/script.js:63-66 | the slider starts with dark end 'rgb(128, 0, 128)' and light end 'rgb(255, 26, 255)' |
| Slider.SelectColor | client/script.js:82-107 | the selected and light texts read back as the colour under the pointer and its lightened partner, and both are 8-bit colours |
| Slider.UpdateThumbColor | client/script.js:126-143 | the thumb shows the same text that a click at the same position selects |

## Left out

- Page writes are not modelled. This covers `updateSlider`, the style-property and `dataset` writes in `initialiseSlider`, `selectColor` and `updateThumbColor`, and the `DOMContentLoaded` wiring (client/script.js:51-58, 68-73, 109-117, 145-147, 178-188). They only move the computed texts into the page.
- The pointer geometry is not modelled: `getBoundingClientRect`, `clientY` and the division y/height (client/script.js:78-81, 122-125). The model takes the ratio y/height as its input and clamps it as the script does.
- `saveSelectedColour` and `confirmSelection` (client/script.js:151-175) are not modelled. They are `fetch`, `console` and `alert` calls.
- server/server.js is not part of this model. It is an HTTP handler around a remote document store. Its own logic is a non-empty check and one array append. Every other step is a foreign library call or network I/O.
- IEEE-754 doubles are not modelled. Every value is an exact real, so the model does not capture inexact products such as position*6 or `===` on computed maxima. `RoundTrip` holds for the exact-real model; nothing is claimed about doubles.
- ColourConvert.RgbToHsl: requires channels in [0, 255]. Every caller passes such channels. Outside that range the script can divide by zero and yield Infinity or NaN, and the model does not represent that.
- RgbText.NoRunsWithoutDigits: where the text has no digit, the script's `match` returns null and `.map` throws. The model returns an empty sequence instead.
- `Number` of a very long digit run loses precision in JavaScript. The model reads it as an exact natural number.
- If the default colour text had fewer than three digit runs, the script would destructure undefined channels. The model does not represent this. `initialiseSlider` only reads its fixed default, which has three runs (`DefaultColourRuns`).
- Gradient.GradientColorAt: requires a position in [0, 1]. Both handlers clamp before the lookup. The unclamped lookup, which reads past the table, is not modelled.
