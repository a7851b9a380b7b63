# Colour engine of jquery-colorpickersliders, modelled in Dafny

jquery-colorpickersliders is a jQuery colour-picker widget. Its engine has two parts:

- an embedded copy of TinyColor 0.9.16, which parses CSS colour strings and colour records, converts between RGB, HSL and HSV, formats colours as text, and computes palettes and readability scores;
- the picker's own helpers, which convert through CIE XYZ / L\*a\*b\* / LCh, bring LCh colours back into the sRGB gamut by bisecting the chroma, sample gradient stops along one colour property, and base64-encode SVG backgrounds.

This project models that engine and proves what the engine promises about it.

- **Numbers** are mathematical reals. JavaScript's `Math.round`, `parseInt` truncation and the truncating `%` are written out in `JsValues`.
- **Numeric strings** in colour records are represented by what the engine reads from them: the `parseFloat` value, whether a `.` occurs, and whether a `%` occurs.
- **The colour-string matchers** become an explicit greedy scanner over the token grammar of the regular expressions (`Parser`). The leftmost-match search is explicit too.
- **`pow`, `sqrt`, `atan2`, `sin` and `cos`** in the CIE chain are parameters (a record of functions, `Cie.Maths`). Only the structural facts of that chain are proved.
- **A tinycolor object** is a class (`TinyColor.TinyColorObject`), because `setAlpha` is the one operation that updates its captured state. Everything else about it is a value (`TinyColor.Color`).
- **`isGoodRgb` and `XYZ2rgb`** overwrite fields of their argument in place. They are methods on small boxes with `modifies` clauses.
- **Loops become methods with invariants.** These are the `lch2rgb` bisection, the `getScaledGradientStops` sampling, the `base64encode` loop, the `analogous`/`monochromatic` loops, the `mostReadable` scan and the `flip` of the name table. Each is proved against a specification function.

Modules, in dependency order:

| module | file | what it holds |
|---|---|---|
| `JsValues` | js_values.dfy | Option/Result, colour-record fields, `Math.round`, truncation, JS `%` |
| `Bounds` | bounds.dfy | `bound01`, `boundAlpha`, `clamp01`, `convertToPercentage`, `isOnePointZero`, `isPercentage` |
| `Hex` | hex.dfy | `parseHex`, `toString(16)`, `pad2`, `rgbToHex` |
| `Conversions` | conversions.dfy | `rgbToRgb`, `rgbToHsl`, `hslToRgb`, `rgbToHsv`, `hsvToRgb` |
| `ConversionLaws` | conversion_laws.dfy | round trips of the HSL and HSV conversions |
| `Names` | names.dfy | the 148 colour names, `flip`, the `hexNames` table |
| `Parser` | parser.dfy | trimming, lowercasing, the matchers, `stringInputToObject`, `inputToRGB` |
| `ColorText` | color_text.dfy | what the formatting methods write, read back by the parser |
| `TinyColor` | color.dfy | `tinycolor(...)`, the object's accessors and string methods, `setAlpha`, `toName` |
| `ColorString` | color_string.dfy | `toString`, the percentage output, `equals`, `fromRatio` |
| `Palette` | palette.dfy | desaturate … monochromatic |
| `Readability` | readability.dfy | `readability`, `readable`, `mostReadable` |
| `Cie` | cie.dfy | the CIE stage functions and `rgb2lch` |
| `Gamut` | gamut.dfy | `isGoodRgb`, `lch2rgb` |
| `Gradient` | gradient.dfy | `modifyColor`, `csscolor`, `getScaledGradientStops` |
| `Base64` | base64.dfy | `base64encode` and its agreement with RFC 4648 |

## Model

| member | source | states |
|---|---|---|
| JsValues.NumText | jquery-colorpickersliders.all.js:818-824 | The text written for a number (`n * 100 + "%"`, or the number alone) reads back through `parseFloat` as that number. It carries the `%` exactly when asked to, and contains a `.` exactly when the number is not an integer. |
| JsValues.Round | jquery-colorpickersliders.all.js:11 | `Math.round(x)` is the integer n with x − 0.5 < n ≤ x + 0.5, so halves round up. |
| JsValues.Trunc | jquery-colorpickersliders.all.js:779 | `parseInt` of a number truncates toward zero. For x ≥ 0 the result n has n ≤ x < n + 1. For x < 0 it has n − 1 < x ≤ n. |
| JsValues.RemBelow | jquery-colorpickersliders.all.js:788 | `w % m` leaves w unchanged when 0 ≤ w < m. |
| JsValues.RemOnce | jquery-colorpickersliders.all.js:454 | `w % m` is w − m when m ≤ w < 2m. This is the single wrap of a hue rotation. |
| JsValues.RemTwice | jquery-colorpickersliders.all.js:500 | `w % m` is w − 2m when 2m ≤ w < 3m. |
| JsValues.Rem | jquery-colorpickersliders.all.js:788 | JavaScript's `x % m` for m > 0: x less m times the quotient truncated toward zero, which is not Dafny's Euclidean remainder. Its meaning is stated by RemSign, RemBelow, RemOnce and RemTwice. |
| JsValues.RemSign | jquery-colorpickersliders.all.js:788 | The remainder has the sign of the dividend: it lies in [0, m) for x ≥ 0 and in (−m, 0] for x < 0. It differs from x by a whole number of divisors. |
| JsValues.Clamp | jquery-colorpickersliders.all.js:236-238 | `mathMin(hi, mathMax(x, lo))` lies in [lo, hi] and leaves an in-range x unchanged. |
| Bounds.Bound01 | jquery-colorpickersliders.all.js:771-789 | `bound01` with percentages clamped to 0..100 (see Findings). The result is in [0, 1]. A `"1.0"`-style text maps to 1. A plain number x maps to 0 at or below 0, to 1 within 1e-6 of max or above it, and otherwise to x / max. A percentage p maps to 0 at or below 0, to 1 at or above 100, and otherwise to within 1/100 of p / 100. |
| Bounds.BoundPercent | jquery-colorpickersliders.all.js:778-788 | The percentage branch of the corrected `bound01`: p is clamped to [0, 100] (the source clamps it to [0, max], see Findings), scaled by `parseInt(p * max) / 100`, then divided by max. The result is in [0, 1]: 0 at or below 0%, 1 at or above 100% of an integral max, and within 1/100 of p/100 in between. |
| Bounds.BoundNumber | jquery-colorpickersliders.all.js:775-788 | The number branch: clamped into [0, max], snapped to 1 within 1e-6 of max, otherwise divided by max. |
| Bounds.Unit | jquery-colorpickersliders.all.js:783-788 | A value w in [0, max] becomes 1 when within 1e-6 of max. Otherwise it becomes w / max, with (w / max)·max = w because `%` leaves it alone. |
| Bounds.PercentUnit | jquery-colorpickersliders.all.js:779-788 | Every percentage v in [0, 100] comes out within 1/100 of v/100. Here 0% gives exactly 0, and 100% of an integral max gives exactly 1. |
| Bounds.PercentScaled | jquery-colorpickersliders.all.js:779 | `parseInt(v * max, 10) / 100` lies in [0, max] and at most 0.01 below v·max/100. It is max exactly for 100% of an integral max, and 0 for 0%. |
| Bounds.BoundAlpha | jquery-colorpickersliders.all.js:760-768 | An alpha in [0, 1] is kept. A missing (NaN) alpha, a negative one or one above 1 becomes 1. |
| Bounds.Clamp01 | jquery-colorpickersliders.all.js:792-794 | The value is clamped into [0, 1]: 0 below, 1 above, itself inside. |
| Bounds.ConvertToPercentage | jquery-colorpickersliders.all.js:818-824 | A number n ≤ 1 becomes the percentage text of 100·n, which no longer compares as a number. Anything else (numbers above 1, `%` texts) is returned unchanged. |
| Bounds.ConvertToPercentageIdempotent | jquery-colorpickersliders.all.js:818-824 | Converting twice is converting once. This is why `inputToRGB` can rewrite `color.s`/`color.v`/`color.l` in place and still reuse the record (212-213, 219-220). |
| Bounds.FractionThroughPercent | jquery-colorpickersliders.all.js:212-214 | A fraction x in [0, 1] is written as a percentage and bounded against 100. It comes back within 1/10000 of x, so `fromRatio` and the HSV/HSL records keep their ratios. |
| Bounds.Bound01PercentWraps | jquery-colorpickersliders.all.js:775-788 | As written, `bound01("200%", 255)` is 0 and `bound01("150%", 255)` is 0.5. The corrected Bound01 gives 1 for `"200%"`. |
| Bounds.Bound01AsWritten | jquery-colorpickersliders.all.js:770-789 | `bound01` as written, with a percentage clamped to [0, max] before scaling. The result is in [0, 1] for every input. |
| Bounds.Bound01Agrees | jquery-colorpickersliders.all.js:770-789 | `bound01` as written and the corrected Bound01 give the same value whenever no percentage above 100 or above max is involved (a `"1.0"` text needs max ≥ 100). The two differ only where Findings says. |
| Bounds.IsOnePointZero | jquery-colorpickersliders.all.js:803-805 | A string containing `.` whose `parseFloat` is exactly 1. Bound01 maps it to 1 for an integral max. |
| Bounds.IsPercentage | jquery-colorpickersliders.all.js:808-810 | A string containing `%`. Bound01 reads such a field against 100 rather than max. |
| Hex.DigitValue | jquery-colorpickersliders.all.js:797-799 | `parseInt(c, 16)` of one hex digit (either case) is below 16. |
| Hex.DigitChar | jquery-colorpickersliders.all.js:388 | The digit `toString(16)` writes for v < 16 is a lowercase hex digit that parses back to v. |
| Hex.ToHex | jquery-colorpickersliders.all.js:388 | `n.toString(16)` is a non-empty lowercase hex string without a leading zero. It is one character long exactly when n < 16. |
| Hex.ToHexRoundTrip | jquery-colorpickersliders.all.js:797-799 | `parseHex(n.toString(16))` is n. |
| Hex.ParseHex | jquery-colorpickersliders.all.js:797-799 | `parseInt(s, 16)` on a run of hex digits. Hex.ToHexRoundTrip states that it undoes `toString(16)`, and Hex.ParseHexPair what it gives on two digits. |
| Hex.Pad2 | jquery-colorpickersliders.all.js:813-815 | A one-character string gets a leading `'0'`. Every other string is unchanged. |
| Hex.HexPair | jquery-colorpickersliders.all.js:388-390 | For a byte n, `pad2(n.toString(16))` is exactly the two lowercase digits of n (high, low) and parses back to n. |
| Hex.PairShape | jquery-colorpickersliders.all.js:813-815 | Padding `toString(16)` of a byte yields its high digit followed by its low digit. |
| Hex.ParseHexPair | jquery-colorpickersliders.all.js:797-799 | Two hex digits parse as 16·high + low. |
| Hex.RoundByte | jquery-colorpickersliders.all.js:388 | `Math.round` of a channel in [0, 255] is a byte. |
| Hex.RgbToHex | jquery-colorpickersliders.all.js:385-399 | The result has 3 characters exactly when `allow3Char` is set and each channel's pair has equal digits; those 3 characters are the pairs' first digits. Otherwise it is the 6 characters of the three pairs in r, g, b order. |
| Hex.RgbToHexRoundTrip | jquery-colorpickersliders.all.js:385-399 | The output is 3 or 6 lowercase hex digits. Each pair (or each doubled digit) parses back to the rounded channel. |
| Conversions.Scale255 | jquery-colorpickersliders.all.js:325 | Channels in [0, 1] times 255 are channels in [0, 255]. |
| Conversions.Sextant | jquery-colorpickersliders.all.js:282-286 | For a chromatic colour, the hue before `h /= 6`, including the `+6` when g < b, lies in [0, 6). |
| Conversions.HslOf | jquery-colorpickersliders.all.js:273-291 | h lies in [0, 1), and s and l in [0, 1]. l is the mean of max and min. s is 0 exactly for grey (max = min), in which case h = s = 0. Otherwise s is the HSL saturation of max and min, and h is the sextant over 6. |
| Conversions.HslSaturation | jquery-colorpickersliders.all.js:281 | For min < max in [0, 1], d / (2 − max − min) or d / (max + min), chosen by l > 0.5, lies in (0, 1]. |
| Conversions.HueToChannel | jquery-colorpickersliders.all.js:305-312 | `hue2rgb(p, q, t)` for t in [−1, 2] lies between p and q. |
| Conversions.Profile | jquery-colorpickersliders.all.js:308-311 | After wrapping, the piecewise ramp of `hue2rgb` stays between p and q. |
| Conversions.RgbOfHsl | jquery-colorpickersliders.all.js:314-323 | Bounded h, s and l give channels in [0, 1]. With s = 0 all three channels equal l. |
| Conversions.HslQBounds | jquery-colorpickersliders.all.js:318-319 | 0 ≤ p = 2l − q ≤ q ≤ 1 for the q of either lightness branch. |
| Conversions.HsvOf | jquery-colorpickersliders.all.js:338-355 | h lies in [0, 1), and s and v in [0, 1]. v is the max channel. s is 0 exactly for grey, and otherwise s·max = max − min. The chromatic hue is the sextant over 6. |
| Conversions.HsvSaturation | jquery-colorpickersliders.all.js:341-342 | For channels min ≤ max in [0, 1], max = 0 ? 0 : (max − min) / max lies in [0, 1], is 0 exactly when max = min, and otherwise times max gives back the spread max − min. |
| Conversions.RgbOfHsv | jquery-colorpickersliders.all.js:364-378 | Bounded h, s and v give channels in [0, 1]. |
| Conversions.HsvSector | jquery-colorpickersliders.all.js:368-376 | Picking from p, q, t and v by `i % 6` gives channels in [0, 1] for every integer i. The index is reduced to 0..5, so every lookup hits the table. |
| Conversions.HsvTerms | jquery-colorpickersliders.all.js:370-372 | p, q and t all lie in [0, 1]. |
| Conversions.RgbToRgb | jquery-colorpickersliders.all.js:255-261 | Every channel lies in [0, 255]. A channel given as a number or a plain integer text inside [0, 255] passes through unchanged. |
| Conversions.RgbToHsl | jquery-colorpickersliders.all.js:267-292 | For any record fields, h lies in [0, 1) and s and l lie in [0, 1]. |
| Conversions.HslToRgb | jquery-colorpickersliders.all.js:298-326 | For any record fields, the channels lie in [0, 255]. |
| Conversions.RgbToHsv | jquery-colorpickersliders.all.js:332-356 | For any record fields, h lies in [0, 1) and s and v lie in [0, 1]. |
| Conversions.HsvToRgb | jquery-colorpickersliders.all.js:362-379 | For any record fields, the channels lie in [0, 255]. |
| ConversionLaws.HslRecoversExtremes | jquery-colorpickersliders.all.js:318-319 | For a chromatic colour, the q and p that `hslToRgb` rebuilds from `rgbToHsl`'s l and s are the original max and min. |
| ConversionLaws.HslChannels | jquery-colorpickersliders.all.js:320-322 | With p = min, q = max and the sextant hue, `hue2rgb` at h + 1/3, h and h − 1/3 gives back r, g and b, whichever channel is the maximum. |
| ConversionLaws.HslRoundTrip | jquery-colorpickersliders.all.js:267-326 | `hslToRgb` after `rgbToHsl`, on unit channels, returns the original colour exactly. |
| ConversionLaws.HsvSpread | jquery-colorpickersliders.all.js:368-376 | The HSV table lookup depends only on v, d = v·s and the position in the sector. |
| ConversionLaws.SectorAtSpread | jquery-colorpickersliders.all.js:368-376 | For v and s in [0, 1] with v·s = d, the sector table at the floor and fraction of a scaled hue equals the table written with the spread d. |
| ConversionLaws.HsvChannels | jquery-colorpickersliders.all.js:349-353 | The sector table at the sextant hue, with v = max and d = max − min, gives back r, g and b, whichever channel is the maximum. |
| ConversionLaws.HsvRoundTrip | jquery-colorpickersliders.all.js:332-379 | `hsvToRgb` after `rgbToHsv`, on unit channels, returns the original colour exactly. |
| ConversionLaws.HsvGrey | jquery-colorpickersliders.all.js:344-345 | A grey colour (max = min) converted to HSV and back is unchanged. |
| Names.LookupSpec | jquery-colorpickersliders.all.js:861-862 | `names[color]` is missing exactly when no entry has that name. Otherwise it is the value of the last entry with that name, as an object literal keeps the last write. |
| Names.Lookup | jquery-colorpickersliders.all.js:861-862 | `names[color]` on the object literal. Names.LookupSpec states that it is missing exactly when no entry has the key, and is otherwise the last such entry's value. |
| Names.FlipSpec | jquery-colorpickersliders.all.js:749-757 | The flipped table's keys are exactly the table's values. Each key maps to the name of the last entry holding that value (last write wins). |
| Names.FlipStep | jquery-colorpickersliders.all.js:751-755 | One more `flipped[o[i]] = i` keeps the loop's invariant: the keys are the values seen so far, each mapping to the last name seen with it. |
| Names.Flip | jquery-colorpickersliders.all.js:749-757 | The loop builds exactly FlipSpec of the entries. |
| Names.FlipInvertsLookup | jquery-colorpickersliders.all.js:742 | When names are distinct, looking up the name that `flip` stores for a value gives that value back. |
| Names.HexIsNeverAName | jquery-colorpickersliders.all.js:861-864 | No 3- or 6-digit hex string is a colour name, so hex input always reaches the hex matchers with `named` false. |
| Names.AllWellFormed | jquery-colorpickersliders.all.js:590-739 | Every name is lowercase letters. Every value is 3 or 6 lowercase hex digits. |
| Names.NameGivesHex | jquery-colorpickersliders.all.js:861-863 | A name found in the table is lowercase letters, and it maps to 3 or 6 lowercase hex digits. |
| Names.TransparentIsNoName | jquery-colorpickersliders.all.js:865-867 | `"transparent"` is not in the table, so its special case is reachable. |
| Names.AquaNamedCyan | jquery-colorpickersliders.all.js:742 | `hexNames["0ff"]` is `"cyan"`, not `"aqua"`: the later duplicate wins. |
| Names.FlipPicksLast | jquery-colorpickersliders.all.js:749-757 | An entry whose value no later entry repeats is what `flip` stores for that value. |
| Names.NamesSorted | jquery-colorpickersliders.all.js:590-739 | The table's names are in strict alphabetical order. |
| Names.DistinctNames | jquery-colorpickersliders.all.js:590-739 | No name occurs twice in the table. |
| Names.HexNameLooksUp | jquery-colorpickersliders.all.js:742 | Every `hexNames` entry maps to a name whose table value is that hex string. |
| Parser.TrimLeft | jquery-colorpickersliders.all.js:7 | Removing the `^[\s,#]+` prefix leaves no leading whitespace, comma or `#`, and never lengthens the string. |
| Parser.TrimRight | jquery-colorpickersliders.all.js:8 | Removing the `\s+$` suffix leaves no trailing whitespace. |
| Parser.LowerChar | jquery-colorpickersliders.all.js:859 | `toLowerCase` on one character, for the ASCII letters only: A-Z map to a-z and every other character is kept. |
| Parser.ToLower | jquery-colorpickersliders.all.js:859 | `toLowerCase` for the ASCII letters, applied character by character; it keeps the length. |
| Parser.DigitEnd | jquery-colorpickersliders.all.js:829 | The greedy `\d+` run from i ends at the first non-digit, and everything in between is a digit. |
| Parser.FracValue | jquery-colorpickersliders.all.js:832 | The digits after a `.` denote a fraction in [0, 1]. |
| Parser.ScanUnit | jquery-colorpickersliders.all.js:829-835 | A CSS unit (number or integer, optional sign, optional `%`) that matches at i consumes at least one character and yields a numeric text. |
| Parser.OpenEnd | jquery-colorpickersliders.all.js:840 | The greedy `[\s\|\(]+` run ends at the first character that is not whitespace, `\|` or `(`. |
| Parser.MidEnd | jquery-colorpickersliders.all.js:840 | The greedy `[,\|\s]+` run ends at the first character that is not a comma, `\|` or whitespace. |
| Parser.Units | jquery-colorpickersliders.all.js:840-841 | A successful scan of n separated units yields exactly n captures. |
| Parser.MatchAt | jquery-colorpickersliders.all.js:844-848 | A function-style matcher (`rgb`, `rgba`, `hsl`, `hsla`, `hsv`) that succeeds at a position yields exactly its 3 or 4 captures. |
| Parser.FirstMatch | jquery-colorpickersliders.all.js:874 | The scan finds the first position from p where the matcher succeeds, and no earlier position matches. If it finds none, no position from p matches. |
| Parser.Search | jquery-colorpickersliders.all.js:874-888 | `exec` finds nothing exactly when the matcher fails at every position. Otherwise it returns the captures of the leftmost position where it succeeds. |
| Parser.Fields3 | jquery-colorpickersliders.all.js:875 | The record built from three captures has exactly the three keys, holding captures 1, 2 and 3 in order. |
| Parser.Fields4 | jquery-colorpickersliders.all.js:878 | The record built from four captures has the three keys plus `a`, holding captures 1 to 4 in order. |
| Parser.StringInputToObject | jquery-colorpickersliders.all.js:857-907 | Any record produced has the r,g,b, the h,s,v or the h,s,l keys; otherwise the result is `false`. |
| Parser.TextToObject | jquery-colorpickersliders.all.js:860-906 | After the name lookup, a produced record is again a colour record. |
| Parser.MatchColor | jquery-colorpickersliders.all.js:873-906 | The matchers, tried in the order rgb, rgba, hsl, hsla, hsv, hex6, hex3, produce only colour records. |
| Parser.HexRecord | jquery-colorpickersliders.all.js:889-903 | A hex match yields exactly r, g and b, with the given format (`name` or `hex`). |
| Parser.OrElse | jquery-colorpickersliders.all.js:235 | `color.format \|\| format`: a truthy explicit format wins, otherwise the detected one is used. |
| Parser.InputToRgb | jquery-colorpickersliders.all.js:194-241 | Channels lie in [0, 255] and alpha in [0, 1]. Input that is no object gives `ok` false, no format, channels 0, 0, 0 and alpha 1. Otherwise the result is that of the record. |
| Parser.RecordToRgb | jquery-colorpickersliders.all.js:205-240 | Channels lie in [0, 255] and alpha in [0, 1]. `ok` holds exactly for a colour record. A truthy explicit format wins over the detected one. A non-colour record gives channels 0, 0, 0. |
| Parser.RecordColour | jquery-colorpickersliders.all.js:206-224 | Keys are resolved in the precedence r,g,b, then h,s,v, then h,s,l. The channels lie in [0, 255], and they are 0, 0, 0 when no shape matches. |
| Parser.RecordAlpha | jquery-colorpickersliders.all.js:226-231 | An `a` in [0, 1] is kept. A missing `a`, or one outside [0, 1], gives 1. |
| Parser.DetectedFormat | jquery-colorpickersliders.all.js:209-223 | A format (`rgb`/`prgb`, `hsv`, `hsl`) is detected exactly for colour records. |
| Parser.Rewrite | jquery-colorpickersliders.all.js:212-220 | The in-place rewrite of s/v/l keeps the record's keys and format. |
| Parser.RewriteKeepsColour | jquery-colorpickersliders.all.js:212-220 | Converting the rewritten record gives the same result as converting the original, so reusing the mutated record is harmless. |
| Parser.LowerKeepsSpace | jquery-colorpickersliders.all.js:859 | Lowercasing neither creates nor removes whitespace, commas or `#`. |
| Parser.TrimLeftLower | jquery-colorpickersliders.all.js:859 | Trimming the left and lowercasing commute. |
| Parser.TrimRightLower | jquery-colorpickersliders.all.js:859 | Trimming the right and lowercasing commute. |
| Parser.NormalizeIgnoresCase | jquery-colorpickersliders.all.js:859 | The normalised (trimmed, lowercased) input does not depend on letter case. |
| Parser.LowerTwice | jquery-colorpickersliders.all.js:859 | Lowercasing is idempotent. |
| Parser.StringInputIgnoresCase | jquery-colorpickersliders.all.js:857-907 | Parsing a string gives the same record as parsing its lowercase form. |
| Parser.TrimLeftJunk | jquery-colorpickersliders.all.js:7 | Leading whitespace, commas and `#` in front of a string are all removed. |
| Parser.TrimRightSpace | jquery-colorpickersliders.all.js:8 | Trailing whitespace after a string is all removed. |
| Parser.TrimLeftAll | jquery-colorpickersliders.all.js:7 | A string made only of leading junk trims to the empty string. |
| Parser.NormalizeIgnoresPadding | jquery-colorpickersliders.all.js:859 | Leading `[\s,#]` and trailing whitespace do not change the normalised input. |
| Parser.StringInputIgnoresPadding | jquery-colorpickersliders.all.js:857-907 | Parsing ignores leading `[\s,#]` and trailing whitespace. |
| Parser.TrimLeftSuffix | jquery-colorpickersliders.all.js:7 | The left-trimmed string is a suffix of the input, and everything removed is junk. |
| Parser.NoFunctionInHex | jquery-colorpickersliders.all.js:874-888 | A string of hex digits contains no function-style colour whose name starts with a non-hex letter (`rgb`, `hsl`, `hsv`). |
| Parser.NormalizeHexText | jquery-colorpickersliders.all.js:859 | `"#" + h`, for lowercase hex h, normalises to h. |
| Parser.MatchHex | jquery-colorpickersliders.all.js:889-903 | A 3- or 6-digit hex string is matched by the hex6 or hex3 matcher with the given format. |
| Parser.HexTextParses | jquery-colorpickersliders.all.js:857-907 | `"#" + h`, for lowercase hex h of 3 or 6 digits, parses to the hex record of h with format `hex`. |
| Parser.HexTextRoundTrip | jquery-colorpickersliders.all.js:857-907 | `"#" + rgbToHex(r, g, b)`, with either allow3Char, parses to the record of the rounded channels with format `hex`. |
| Parser.HexColourRoundTrip | jquery-colorpickersliders.all.js:194-241 | `inputToRGB("#" + rgbToHex(r, g, b))` is ok, has format `hex`, alpha 1, and exactly the rounded channels. |
| Parser.ByteRecordKept | jquery-colorpickersliders.all.js:205-210 | An r,g,b record of in-range numbers converts to exactly those channels, with alpha 1. |
| Parser.KeptRound | jquery-colorpickersliders.all.js:255-261 | A rounded byte passes `rgbToRgb` unchanged. |
| Parser.NamedColour | jquery-colorpickersliders.all.js:861-864 | A colour name, after normalisation, parses to the hex record of its table value with format `name`. |
| Parser.NamedText | jquery-colorpickersliders.all.js:889-903 | A name's hex value is matched with format `name`. |
| Parser.TransparentIsClear | jquery-colorpickersliders.all.js:865-866 | `"transparent"`, padded or capitalised in any way, gives channels 0, 0, 0, alpha 0, format `name`, and ok. |
| Parser.TransparentText | jquery-colorpickersliders.all.js:865-866 | The normalised `"transparent"` yields the record {r: 0, g: 0, b: 0, a: 0, format: name}. |
| Parser.TransparentConverts | jquery-colorpickersliders.all.js:226-240 | That record converts to an ok, fully transparent black. |
| Parser.AlphaRecordKept | jquery-colorpickersliders.all.js:205-231 | An r,g,b,a record of in-range numbers converts to exactly those channels and that alpha. |
| ColorText.NatText | jquery-colorpickersliders.all.js:87 | `String(n)` of a whole number is non-empty and starts with a digit. |
| ColorText.NatTextReads | jquery-colorpickersliders.all.js:829 | `String(n)` is all digits, has no leading zero, and reads back as n under `\d+`. |
| ColorText.FractionDigits | jquery-colorpickersliders.all.js:88 | The digits after `0.` in the text of `roundA` = k/100 (0 < k < 100) read back as k/100. |
| ColorText.ScanWritten | jquery-colorpickersliders.all.js:829-835 | A number written by the string methods, followed by `,` or `)`, is scanned as one CSS unit that reads back as the written value. |
| ColorText.ScanHundredths | jquery-colorpickersliders.all.js:832 | An alpha written as hundredths scans as k/100, flagged as containing a `.` exactly when 0 < k < 100. |
| ColorText.UnitsLaid | jquery-colorpickersliders.all.js:840-841 | Numbers written with `", "` between them are read back, in order, by the unit-and-separator part of the matcher. |
| ColorText.MatchFunction | jquery-colorpickersliders.all.js:840-848 | `name(x, y, z)` as the string methods write it matches `name` at position 0 with exactly the written values as captures. |
| ColorText.Found | jquery-colorpickersliders.all.js:874 | `exec` of the matcher for `name` on such a text returns those captures. |
| ColorText.ChainNone | jquery-colorpickersliders.all.js:873-906 | When no function matcher succeeds and the text does not start with a hex digit, the result is `false`. |
| ColorText.NormalFunctionText | jquery-colorpickersliders.all.js:859-864 | A functional text written by the object is already trimmed and lowercase, and it is not a colour name. |
| ColorText.FunctionTextObject | jquery-colorpickersliders.all.js:857-873 | Such a text reaches the matchers unchanged. |
| ColorText.RgbTextParses | jquery-colorpickersliders.all.js:874-876 | The `rgb` matcher, searched over `rgb(` three written numbers `)`, captures exactly the three numbers as written, giving the r,g,b record. |
| ColorText.RgbaTextParses | jquery-colorpickersliders.all.js:877-879 | The `rgba` matcher over four written numbers gives the r,g,b,a record of them. |
| ColorText.HslTextParses | jquery-colorpickersliders.all.js:880-882 | The `hsl` matcher over three written numbers gives the h,s,l record of them. |
| ColorText.HslaTextParses | jquery-colorpickersliders.all.js:883-885 | The `hsla` matcher over four written numbers gives the h,s,l,a record of them. |
| ColorText.HsvTextParses | jquery-colorpickersliders.all.js:886-888 | The `hsv` matcher over three written numbers gives the h,s,v record of them. |
| ColorText.RgbTextObject | jquery-colorpickersliders.all.js:874-876 | The `rgb(r, g, b)` text that `toRgbString` writes parses back to the r,g,b record of the written numbers. |
| ColorText.RgbaTextObject | jquery-colorpickersliders.all.js:877-879 | The `rgba(r, g, b, a)` text parses back to the r,g,b,a record of the written numbers. |
| ColorText.HslTextObject | jquery-colorpickersliders.all.js:880-882 | The `hsl(h, s%, l%)` text parses back to the h,s,l record of the written numbers. |
| ColorText.HslaTextObject | jquery-colorpickersliders.all.js:883-885 | The `hsla(h, s%, l%, a)` text parses back to the h,s,l,a record. |
| ColorText.HsvTextObject | jquery-colorpickersliders.all.js:886-888 | The `hsv(h, s%, v%)` text parses back to the h,s,v record. |
| ColorText.HsvaTextUnread | jquery-colorpickersliders.all.js:843-851 | There is no `hsva` matcher, so an `hsva(h, s%, v%, a)` text, which `toHsvString` writes for a < 1, does not parse at all (`false`). |
| TinyColor.AlphaHundredths | jquery-colorpickersliders.all.js:31 | `Math.round(100 * a)` for an alpha in [0, 1] is a whole number of hundredths, at most 100. |
| TinyColor.Snap | jquery-colorpickersliders.all.js:38-40 | A channel below 1 is rounded (to 0 or 1), and every other channel is kept. The result is within 0.5 of the input, and an already snapped channel is unchanged. |
| TinyColor.FromParsed | jquery-colorpickersliders.all.js:26-46 | The object built from `inputToRGB`'s result keeps `ok` and alpha. A truthy `opts.format` wins over the parsed format. Channels move by at most 0.5, and snapped ones not at all. `roundA` is alpha rounded to hundredths. |
| TinyColor.Make | jquery-colorpickersliders.all.js:16-26 | A tinycolor passed in is returned as is. Any other input is converted through `inputToRGB`. |
| TinyColor.WithAlpha | jquery-colorpickersliders.all.js:50-53 | Setting alpha changes only `a` and `roundA`. The `alpha` property captured at construction keeps its old value. |
| TinyColor.TinyColorObject.constructor | jquery-colorpickersliders.all.js:16-46 | A new object holds exactly `tinycolor(arg, opts)`. |
| TinyColor.TinyColorObject.GetAlpha | jquery-colorpickersliders.all.js:47-49 | `getAlpha` returns the current alpha, which lies in [0, 1]. |
| TinyColor.TinyColorObject.SetAlpha | jquery-colorpickersliders.all.js:50-53 | `setAlpha(value)` stores `boundAlpha(value)` and its hundredths, and leaves everything else as it was. |
| TinyColor.NewColor | jquery-colorpickersliders.all.js:21-24 | An existing tinycolor object is returned itself, not a copy. Any other input gives a fresh object holding the converted colour. |
| TinyColor.Rounded | jquery-colorpickersliders.all.js:83 | `Math.round` of a channel is a whole number in [0, 255], within 0.5 of the channel. |
| TinyColor.ToRgb | jquery-colorpickersliders.all.js:82-84 | `toRgb` returns exactly r, g, b and a, with a the current alpha. |
| TinyColor.WrittenAlpha | jquery-colorpickersliders.all.js:85-89 | The alpha that the rgb text carries is 1 for an opaque colour (`rgb(...)`) and `roundA` otherwise (`rgba(...)`). |
| TinyColor.ToRgbRebuilds | jquery-colorpickersliders.all.js:82-84 | `tinycolor(c.toRgb())` is ok with format `rgb`, the rounded channels and the same alpha. |
| TinyColor.RgbRecordRead | jquery-colorpickersliders.all.js:205-210 | The r,g,b record parsed from whole-number texts converts to exactly those channels, with alpha 1 and format `rgb`. |
| TinyColor.RgbaRecordRead | jquery-colorpickersliders.all.js:205-231 | The r,g,b,a record parsed from whole numbers and a hundredths alpha converts to exactly those numbers. |
| TinyColor.HundredthsKept | jquery-colorpickersliders.all.js:31 | Rounding k/100 to hundredths gives k back. |
| TinyColor.OpaqueRgbText | jquery-colorpickersliders.all.js:85-87 | `inputToRGB(c.toRgbString())` of an opaque colour gives the rounded channels, alpha 1 and format `rgb`. |
| TinyColor.TranslucentRgbText | jquery-colorpickersliders.all.js:85-88 | For a translucent colour it gives the rounded channels and alpha `roundA`. |
| TinyColor.RgbStringRoundTrip | jquery-colorpickersliders.all.js:85-89 | `tinycolor(c.toRgbString())` is ok with format `rgb`, the rounded channels, and the written alpha (1, or `roundA`) as its alpha and `roundA`. |
| TinyColor.ToRgbString | jquery-colorpickersliders.all.js:85-89 | `rgb(r, g, b)` when fully opaque, otherwise `rgba(r, g, b, roundA)`. TinyColor.RgbStringRoundTrip states that parsing it gives the rounded channels and the written alpha; ColorString.RgbStringSame states when two colours write the same text. |
| TinyColor.HexText | jquery-colorpickersliders.all.js:76-78 | `toHex` is 3 or 6 lowercase hex digits. |
| TinyColor.HexStringRoundTrip | jquery-colorpickersliders.all.js:79-81 | `tinycolor(c.toHexString(allow3Char))` is ok with format `hex`, the rounded channels and alpha 1. |
| TinyColor.HexString | jquery-colorpickersliders.all.js:79-81 | `#` followed by `toHex`. TinyColor.HexStringRoundTrip states that parsing it gives the rounded channels, fully opaque. |
| TinyColor.ToName | jquery-colorpickersliders.all.js:98-104 | Alpha exactly 0 gives `"transparent"`. Otherwise a name is returned exactly when the short hex of the colour is in `hexNames`, and `false` is returned when it is not. |
| TinyColor.HexRecordChannels | jquery-colorpickersliders.all.js:889-903 | Parsing the colour's short hex gives back the rounded channels. |
| TinyColor.NameRoundTrip | jquery-colorpickersliders.all.js:98-104 | The name `toName` returns parses back to the rounded channels, with format `name` and alpha 1. |
| TinyColor.KeywordReads | jquery-colorpickersliders.all.js:861-864 | A keyword whose table value is the colour's short hex parses to the rounded channels with format `name`. |
| TinyColor.NamedRecordRead | jquery-colorpickersliders.all.js:889-903 | A `name`-format hex record converts to the rounded channels, alpha 1 and format `name`. |
| TinyColor.RoundNat | jquery-colorpickersliders.all.js:60 | `Math.round` of a non-negative number is a natural number. |
| TinyColor.Channels | jquery-colorpickersliders.all.js:55 | The unit channels the conversions see, scaled by 255, are the `rgbToRgb` of the object's channels. |
| TinyColor.ToHsl | jquery-colorpickersliders.all.js:65-68 | `toHsl` returns exactly h, s, l and a. h is in degrees in [0, 360), s and l are in [0, 1], and a is the current alpha. |
| TinyColor.ToHslDescribes | jquery-colorpickersliders.all.js:65-68 | Converting `toHsl`'s h/360, s and l back with `hslToRgb` gives the object's channels as `rgbToRgb` bounds them. |
| TinyColor.HslBack | jquery-colorpickersliders.all.js:65-68 | The record built from `rgbToHsl` with h in degrees converts back to the same unit channels. |
| TinyColor.ToHsv | jquery-colorpickersliders.all.js:54-57 | `toHsv` returns exactly h, s, v and a. h is in degrees in [0, 360), s and v are in [0, 1], and a is the current alpha. |
| TinyColor.ToHsvDescribes | jquery-colorpickersliders.all.js:54-57 | Converting `toHsv`'s values back with `hsvToRgb` gives the object's channels as `rgbToRgb` bounds them. |
| TinyColor.ReadWheelNumbers | jquery-colorpickersliders.all.js:60-62 | The three numbers of an hsl/hsv text read back as a whole hue and two whole percentages. |
| TinyColor.HslRecordRead | jquery-colorpickersliders.all.js:218-224 | An h,s,l record with percentage s and l converts through `hslToRgb`, with format `hsl` and alpha 1. |
| TinyColor.HslaRecordRead | jquery-colorpickersliders.all.js:218-231 | The same with an alpha of k/100 keeps that alpha. |
| TinyColor.HsvRecordRead | jquery-colorpickersliders.all.js:211-217 | An h,s,v record with percentage s and v converts through `hsvToRgb`, with format `hsv` and alpha 1. |
| TinyColor.HslTextReads | jquery-colorpickersliders.all.js:69-73 | `hsl(h, s%, l%)` reads back as `hslToRgb` of those whole numbers, with format `hsl` and alpha 1. |
| TinyColor.HslaTextReads | jquery-colorpickersliders.all.js:69-74 | `hsla(h, s%, l%, a)` reads back the same way, with the written alpha. |
| TinyColor.HsvTextReads | jquery-colorpickersliders.all.js:58-62 | `hsv(h, s%, v%)` reads back as `hsvToRgb` of those whole numbers, with format `hsv`. |
| TinyColor.HslStringReads | jquery-colorpickersliders.all.js:69-74 | `inputToRGB(c.toHslString())` is `hslToRgb` of the rounded h, s and l, with format `hsl` and the written alpha. |
| TinyColor.HslString | jquery-colorpickersliders.all.js:69-74 | `hsl(...)` or `hsla(...)` of the rounded hue, saturation and lightness. TinyColor.HslStringReads states that the parser reads the written numbers back. |
| TinyColor.HsvStringReads | jquery-colorpickersliders.all.js:58-62 | `inputToRGB(c.toHsvString())` of an opaque colour is `hsvToRgb` of the rounded h, s and v, with format `hsv`. |
| TinyColor.HsvString | jquery-colorpickersliders.all.js:58-63 | `hsv(...)`, or `hsva(...)` for a translucent colour. TinyColor.HsvStringReads states that the opaque text reads back; TinyColor.HsvaStringUnread states that the `hsva` text does not. |
| TinyColor.HsvaStringUnread | jquery-colorpickersliders.all.js:58-63 | For a translucent colour, `c.toHsvString()` writes `hsva(...)`, which `inputToRGB` does not accept (`ok` is false). |
| ColorString.PercentOf | jquery-colorpickersliders.all.js:91 | `Math.round(bound01(x, 255) * 100)` is a whole percentage, at most 100, and within 1.3 of x / 2.55. |
| ColorString.PercentScale | jquery-colorpickersliders.all.js:91 | `bound01(x, 255)` scaled back to 0..255 is within 0.001 of x. |
| ColorString.ToPercentageRgb | jquery-colorpickersliders.all.js:90-92 | `toPercentageRgb` returns exactly r, g, b and a. r, g and b are `%` texts, and a is the current alpha. |
| ColorString.PercentChannel | jquery-colorpickersliders.all.js:255-261 | A whole percentage p read back by `rgbToRgb` is a channel in [0, 255] within 0.01 of 2.55·p. |
| ColorString.PercentRecordRead | jquery-colorpickersliders.all.js:205-231 | An r,g,b record of whole percentage texts converts with format `prgb` to those percentages of 255, keeping its alpha. |
| ColorString.PercentageStringRoundTrip | jquery-colorpickersliders.all.js:93-97 | `inputToRGB(c.toPercentageRgbString())` is ok with format `prgb` and the written alpha. Each channel is within 2 of the original. |
| ColorString.PercentageRgbString | jquery-colorpickersliders.all.js:93-97 | `rgb(p%, q%, r%)` or `rgba(..., roundA)` of the channel percentages. ColorString.PercentageStringRoundTrip states what parsing it gives back. |
| ColorString.OpaquePercentText | jquery-colorpickersliders.all.js:93-95 | For an opaque colour the `rgb(p%, q%, r%)` text reads back as those percentages of 255, with alpha 1. |
| ColorString.TranslucentPercentText | jquery-colorpickersliders.all.js:93-96 | For a translucent colour the `rgba(...)` text reads back the same way, with alpha `roundA`. |
| ColorString.ToString | jquery-colorpickersliders.all.js:120-155 | With no format argument, 0 < a < 1 and a stored format of hex/hex6/hex3/name, the result is `toRgbString`. An explicit `rgb` gives `toRgbString`. An unknown format or a `toName` miss falls back to `toHexString`, and so does having no format at all. |
| ColorString.ToStringWrites | jquery-colorpickersliders.all.js:120-155 | For every format other than prgb, hsl and hsv, `toString` writes rgb text for a translucent colour with no explicit format and a hex or name stored format, rgb text for `rgb`, three-digit hex for `hex3`, the name for `name` when one exists, and six-digit hex otherwise. |
| ColorString.ToStringReadsBack | jquery-colorpickersliders.all.js:120-155 | For rgb, hex and name output (a name only when a ≠ 0), `toString` re-parses to the rounded channels. |
| ColorString.RgbTextRounded | jquery-colorpickersliders.all.js:85-89 | `toRgbString` re-parses to the rounded channels. |
| ColorString.HexTextRounded | jquery-colorpickersliders.all.js:79-81 | `toHexString`, with either allow3Char, re-parses to the rounded channels. |
| ColorString.NameTextRounded | jquery-colorpickersliders.all.js:98-104 | The name `toName` returns re-parses to the rounded channels. |
| ColorString.Equals | jquery-colorpickersliders.all.js:403-406 | `equals` is false whenever either argument is falsy. |
| ColorString.EqualsSameColour | jquery-colorpickersliders.all.js:403-406 | Equal colours have the same rounded channels and the same written alpha. |
| ColorString.RgbStringSame | jquery-colorpickersliders.all.js:85-89 | Two colours write the same `toRgbString` text if and only if their rounded channels agree, both or neither are fully opaque, and they write the same alpha. |
| ColorString.EqualsExactly | jquery-colorpickersliders.all.js:403-406 | `equals` holds if and only if neither argument is falsy and the two colours agree in their rounded channels, in being fully opaque, and in the alpha they write. |
| ColorString.EqualsSeesNearOpaque | jquery-colorpickersliders.all.js:403-406 | Alpha 0.999 and alpha 1 have the same `roundA`, but `equals` still tells them apart: one writes `rgba(..., 1)` and the other `rgb(...)`. |
| ColorString.RatioRecord | jquery-colorpickersliders.all.js:162-175 | `fromRatio` keeps every key and `a`, and passes every other value through `convertToPercentage`. |
| ColorString.FromRatio | jquery-colorpickersliders.all.js:161-178 | A string argument is passed to `tinycolor` unchanged. |
| ColorString.FromRatioScales | jquery-colorpickersliders.all.js:161-178 | `fromRatio({r: x, g: y, b: z})` with ratios in [0, 1] gives format `prgb`, alpha 1, and channels within 0.01 of 255·x, 255·y, 255·z. |
| ColorString.RatioChannel | jquery-colorpickersliders.all.js:170 | A ratio written as a percentage and bounded against 255 comes back within 0.01 of 255·x. |
| Palette.FromRecord | jquery-colorpickersliders.all.js:426 | `tinycolor(record)` yields a well-formed colour. |
| Palette.FromRecordIsMake | jquery-colorpickersliders.all.js:426 | FromRecord is `tinycolor` applied to the record. |
| Palette.HslRecord | jquery-colorpickersliders.all.js:423 | `tinycolor(color).toHsl()` has exactly h, s, l and a, with the bounds of `toHsl`. |
| Palette.Amount | jquery-colorpickersliders.all.js:422 | A missing amount defaults to 10. An explicit 0 is kept as 0, and any other given amount is used as is. |
| Palette.Nudged | jquery-colorpickersliders.all.js:424-425 | Only the one key changes, to `clamp01(old + delta)`. Every other key and the format are kept. |
| Palette.Desaturate | jquery-colorpickersliders.all.js:421-427 | The HSL record with `s` lowered by amount/100 and clamped to [0, 1] (Palette.Nudged), made into a colour. Palette.NudgedKeepsAlpha states that alpha is kept. |
| Palette.Saturate | jquery-colorpickersliders.all.js:428-434 | The HSL record with `s` raised by amount/100 and clamped (Palette.Nudged). Palette.NudgedKeepsAlpha states that alpha is kept. |
| Palette.Greyscale | jquery-colorpickersliders.all.js:435-437 | Desaturate by 100. Palette.GreyscaleIsGrey states that the three channels are equal. |
| Palette.Lighten | jquery-colorpickersliders.all.js:438-444 | The HSL record with `l` raised by amount/100 and clamped (Palette.Nudged). Palette.LightenFullIsWhite states that lightening by 100 gives white. |
| Palette.Darken | jquery-colorpickersliders.all.js:445-451 | The HSL record with `l` lowered by amount/100 and clamped (Palette.Nudged). Palette.DarkenFullIsBlack states that darkening by 100 gives black. |
| Palette.HslRecordChannels | jquery-colorpickersliders.all.js:426 | An h,s,l record of numbers converts to the snapped `hslToRgb` of its values. |
| Palette.HslEnds | jquery-colorpickersliders.all.js:314-325 | With lightness 0 or 1 every hue and saturation gives grey at that lightness. |
| Palette.GreyscaleIsGrey | jquery-colorpickersliders.all.js:435-437 | `greyscale` (desaturate by 100) gives r = g = b. |
| Palette.LightenFullIsWhite | jquery-colorpickersliders.all.js:438-444 | `lighten(color, 100)` is white. |
| Palette.DarkenFullIsBlack | jquery-colorpickersliders.all.js:445-451 | `darken(color, 100)` is black. |
| Palette.NudgedKeepsAlpha | jquery-colorpickersliders.all.js:421-451 | desaturate, saturate, lighten and darken keep the input's alpha. |
| Palette.TurnOnWheel | jquery-colorpickersliders.all.js:454 | `(h + d) % 360` for a hue on the wheel and a turn of at most 360 stays on the wheel. It is h + d, or h + d − 360 when that passes 360. |
| Palette.WithHue | jquery-colorpickersliders.all.js:454 | Setting `hsl.h` changes only the hue. |
| Palette.ComplementOpposite | jquery-colorpickersliders.all.js:452-456 | The complement's hue is on the wheel, exactly 180 degrees from the original in one direction or the other. |
| Palette.Complement | jquery-colorpickersliders.all.js:452-456 | The HSL record with its hue turned by 180 degrees. Palette.ComplementOpposite states that the new hue is on the wheel and opposite the old one. |
| Palette.SpunRecord | jquery-colorpickersliders.all.js:469-470 | Each new record has h turned by the given angle mod 360, the original s and l, and no `a`. |
| Palette.SpunOpaque | jquery-colorpickersliders.all.js:469-470 | Those records carry no alpha, so the colours built from them are opaque. |
| Palette.Triad | jquery-colorpickersliders.all.js:464-472 | Three colours: the original first, then the hue turned by 120 and by 240. |
| Palette.Tetrad | jquery-colorpickersliders.all.js:473-482 | Four colours: the original first, then the hue turned by 90, 180 and 270. |
| Palette.SplitComplement | jquery-colorpickersliders.all.js:483-491 | Three colours: the original first, then the hue turned by 72 and by 216. |
| Palette.TurnTwice | jquery-colorpickersliders.all.js:469-470 | Two turns that add up to at most 360 degrees are one turn by their sum. |
| Palette.EvenSplits | jquery-colorpickersliders.all.js:464-482 | The triad hues are three distinct points 120 degrees apart, and the tetrad hues four distinct points 90 degrees apart. Each closes up back at the original hue. |
| Palette.SplitFlanksComplement | jquery-colorpickersliders.all.js:483-491 | The split-complement hues lie 108 degrees before and 36 degrees after the complement. |
| Palette.Span | jquery-colorpickersliders.all.js:500-515 | The wheel being stepped round (360 for hues, 1 for values) has positive size. |
| Palette.SteppedWraps | jquery-colorpickersliders.all.js:500-503 | After k steps the value is x0 + k·step minus a whole number of wraps of the span. |
| Palette.SteppedOnWheel | jquery-colorpickersliders.all.js:500-503 | Steps of at most one span, from a start on the wheel, stay on [0, span). |
| Palette.FullCircle | jquery-colorpickersliders.all.js:511-515 | n steps of span / n return exactly to the start. |
| Palette.Int32 | jquery-colorpickersliders.all.js:500 | The operand of `>> 1` is converted to a signed 32-bit integer. It lies in the 32-bit range and is unchanged when already in it. |
| Palette.OrDefault | jquery-colorpickersliders.all.js:493 | `results \|\| 6`: a positive count is kept and 0 becomes the default. |
| Palette.SlicesOrDefault | jquery-colorpickersliders.all.js:494 | `slices \|\| 30`: any non-zero number of slices is kept and 0 becomes 30, so `360 / slices` is always defined. |
| Palette.RewriteWithHue | jquery-colorpickersliders.all.js:500-502 | `tinycolor(hsl)` rewriting s and l in place, followed by a new hue, is the same as rewriting the record that has the new hue. So reusing `hsl` across iterations is faithful. |
| Palette.RewriteTwice | jquery-colorpickersliders.all.js:212-220 | The in-place rewrite of s and l is idempotent. |
| Palette.Analogous | jquery-colorpickersliders.all.js:492-505 | `results \|\| 6` colours: the original first, then the hue record at each successive step of `360 / slices` from the centred start. Any non-zero number of slices, negative or fractional, is accepted. |
| Palette.AnalogousSteps | jquery-colorpickersliders.all.js:500-503 | The loop pushes exactly `results − 1` colours, and the k-th one has the hue after k steps. |
| Palette.RewrittenSameColour | jquery-colorpickersliders.all.js:212-220 | A record converts to the same colour before and after the in-place rewrite. |
| Palette.AnalogousStartOnWheel | jquery-colorpickersliders.all.js:500 | `((h − (part·results >> 1)) + 720) % 360` is on the wheel. |
| Palette.DefaultHalfSpan | jquery-colorpickersliders.all.js:493-497 | With the defaults, part is 12 degrees and the start lies 36 degrees back. |
| Palette.DefaultAnalogousCentred | jquery-colorpickersliders.all.js:492-505 | With the defaults the third pushed colour has the original hue, and every pushed hue is on the wheel. |
| Palette.HsvRecordOf | jquery-colorpickersliders.all.js:514 | The pushed record has exactly h, s and v. |
| Palette.Monochromatic | jquery-colorpickersliders.all.js:506-519 | `results \|\| 6` colours. The k-th keeps the original h and s and has v stepped k times by `1/results` mod 1. |
| Palette.MonochromaticSteps | jquery-colorpickersliders.all.js:513-516 | The `while (results--)` loop pushes exactly `count` colours, the k-th with v after k steps. |
| Palette.MonochromaticCycle | jquery-colorpickersliders.all.js:513-516 | Every stepped v is in [0, 1). After `results` steps v returns to its start when that start is below 1. |
| Readability.ChannelsOf | jquery-colorpickersliders.all.js:531-532 | The `toRgb` channels are whole numbers in [0, 255], each within 0.5 of the colour's channel. |
| Readability.Brightness | jquery-colorpickersliders.all.js:533-534 | The weighted brightness (299 r + 587 g + 114 b) / 1000 lies in [0, 255]. |
| Readability.Gap | jquery-colorpickersliders.all.js:536-538 | `Math.max(x, y) − Math.min(x, y)` is \|x − y\|. |
| Readability.ContrastBetween | jquery-colorpickersliders.all.js:533-544 | The brightness difference lies in [0, 255] and the colour difference in [0, 765]. The colour difference is 0 exactly when the two channel triples are equal. |
| Readability.Readability | jquery-colorpickersliders.all.js:530-545 | The same bounds hold for any two colours. The colour difference is 0 exactly when their rounded channels agree, and then both differences are 0. |
| Readability.Readable | jquery-colorpickersliders.all.js:552-555 | Brightness difference above 125 and colour difference above 500. Readability.ReadabilitySymmetric, SelfUnreadable and BlackOnWhite state that it is symmetric, false for a colour against itself, and true for black on white. |
| Readability.ReadabilitySymmetric | jquery-colorpickersliders.all.js:530-555 | `readability` and `readable` do not depend on the order of their arguments. |
| Readability.ContrastSymmetric | jquery-colorpickersliders.all.js:533-544 | Both differences are symmetric in the two channel triples. |
| Readability.SelfUnreadable | jquery-colorpickersliders.all.js:552-555 | A colour against itself has zero contrast and is never readable. |
| Readability.BlackOnWhite | jquery-colorpickersliders.all.js:552-555 | Black against white has brightness difference 255 and colour difference 765, so it is readable (> 125 and > 500). |
| Readability.GreyBrightness | jquery-colorpickersliders.all.js:533 | The weights sum to 1000, so a grey's brightness is its level. |
| Readability.Score | jquery-colorpickersliders.all.js:573 | `3·(brightness / 125) + color / 500` is non-negative, and 0 only for zero contrast. |
| Readability.RankOf | jquery-colorpickersliders.all.js:571-573 | A candidate is ranked by whether it is readable against the base (the 125 and 500 thresholds) and by its score. The score is 0 exactly when the candidate has the base's rounded channels. |
| Readability.BeatsIsLexicographic | jquery-colorpickersliders.all.js:575-577 | The replacement test is the strict lexicographic order (readable first, then strictly higher score). It is irreflexive and asymmetric, and two ranks neither of which beats the other are equal. |
| Readability.BeatsTransitive | jquery-colorpickersliders.all.js:575-577 | If p beats q and s does not beat q, then p beats s. |
| Readability.Leader | jquery-colorpickersliders.all.js:563-582 | The index of the best-so-far colour after n candidates, if any, is among them. |
| Readability.Standing | jquery-colorpickersliders.all.js:563-565 | The rank compared against is the best's rank, or the initial `bestScore = 0`, `bestIsReadable = false`. |
| Readability.LeaderIsFirstBest | jquery-colorpickersliders.all.js:566-582 | No candidate seen beats the chosen one. The chosen one beats the start and beats every earlier candidate, so the first of equals wins ties. |
| Readability.NoLeaderWhenNoneBeatsStart | jquery-colorpickersliders.all.js:563-583 | No colour is chosen exactly when no candidate beats the starting rank. |
| Readability.ReadableLeader | jquery-colorpickersliders.all.js:575-578 | Once any readable candidate exists, a readable colour is chosen. |
| Readability.Ranks | jquery-colorpickersliders.all.js:571-573 | Each candidate in the list is ranked against the base, in order. |
| Readability.Chosen | jquery-colorpickersliders.all.js:580-583 | The result is `null` exactly when no index was chosen. |
| Readability.MostReadable | jquery-colorpickersliders.all.js:562-584 | The loop returns the chosen candidate as a tinycolor, or `null`, exactly as the best-so-far specification Leader selects it. |
| Readability.MostReadableNull | jquery-colorpickersliders.all.js:562-584 | `mostReadable` returns `null` exactly when every candidate has the base's rounded channels, and in particular for an empty list. |
| Readability.MostReadableIsReadable | jquery-colorpickersliders.all.js:562-584 | When some candidate is readable against the base, the returned colour is readable. |
| Cie.BlackIsOrigin | jquery-colorpickersliders.all.js:2373-2411 | `rgb2XYZ` sends black to the origin of XYZ, whatever the power function is. |
| Cie.RgbToXyz | jquery-colorpickersliders.all.js:2373-2411 | Linearised channels times 100 through the D65 matrix. Cie.BlackIsOrigin states that black maps to the origin. |
| Cie.NeutralHasNoHue | jquery-colorpickersliders.all.js:2413-2447 | `XYZ2CIELab` gives a = b = 0 for every colour proportional to the D65 reference white (95.047, 100, 108.883). |
| Cie.XyzToLab | jquery-colorpickersliders.all.js:2413-2447 | L\*a\*b\* relative to the D65 white point. Cie.NeutralHasNoHue and Cie.WhitePoint state that neutral colours have a\* = b\* = 0 and the white point has lightness 100. |
| Cie.WhitePoint | jquery-colorpickersliders.all.js:2413-2447 | The reference white itself maps to L*a*b* (100, 0, 0) when the cube root of 1 is 1. |
| Cie.LabToLch | jquery-colorpickersliders.all.js:2449-2465 | `CIELab2CIELCH` keeps the lightness and produces no alpha. |
| Cie.HueOnCircle | jquery-colorpickersliders.all.js:2457-2462 | The hue lands in (0, 360]: an angle of 0 becomes 360, a positive angle gives a hue of at most 180 and a non-positive one a hue of at least 180. |
| Cie.LchToLab | jquery-colorpickersliders.all.js:2467-2475 | `CIELCH2CIELab` keeps the lightness. |
| Cie.ZeroChromaIsGrey | jquery-colorpickersliders.all.js:2467-2475 | Zero chroma gives a = b = 0 whatever the hue. |
| Cie.DarkLabRoundTrip | jquery-colorpickersliders.all.js:2477-2511 | `CIELab2XYZ` undoes `XYZ2CIELab` exactly for colours whose three channels stay on the linear branch of both. |
| Cie.LabToXyz | jquery-colorpickersliders.all.js:2477-2511 | The inverse curve back to XYZ. Cie.DarkLabRoundTrip states that it undoes Cie.XyzToLab on the straight parts of both curves. |
| Cie.LineUndone | jquery-colorpickersliders.all.js:2477-2511 | For one channel on the linear branch, expanding the compressed value and scaling by the white point gives the value back. |
| Cie.XyzToRgbScaled | jquery-colorpickersliders.all.js:2521-2548 | The matrix, gamma and rounding steps of `XYZ2rgb` give whole-number channels. |
| Cie.Hundredth | jquery-colorpickersliders.all.js:2517-2519 | The argument's coordinates are divided by 100. |
| Cie.XyzToRgb | jquery-colorpickersliders.all.js:2513-2551 | `XYZ2rgb` returns whole-number channels. |
| Cie.DarkChannelRoundTrip | jquery-colorpickersliders.all.js:2373-2551 | A whole channel value 0 to 10 survives linearisation in `rgb2XYZ` followed by gamma and rounding in `XYZ2rgb`. |
| Cie.XyzBox.constructor | jquery-colorpickersliders.all.js:2513 | The box holds the XYZ object passed to `XYZ2rgb`. |
| Cie.XyzBox.ToRgb | jquery-colorpickersliders.all.js:2513-2551 | `XYZ2rgb` leaves its argument divided by 100, in place, and returns the rgb of the original coordinates. |
| Cie.RgbToLch | jquery-colorpickersliders.all.js:2257-2265 | `rgb2lch` copies the alpha exactly when the input has one, and takes the lightness from the L*a*b* conversion. |
| Cie.LchToRgb | jquery-colorpickersliders.all.js:2272 | The direct LCh to rgb chain gives whole-number channels. |
| Gamut.Clamped | jquery-colorpickersliders.all.js:2308-2314 | Clamping lands in 0..255 and leaves a colour already in 0..255 unchanged. |
| Gamut.ClampedNear | jquery-colorpickersliders.all.js:2236-2255 | A colour inside the tolerated range [-1, 258] moves by at most 3 per channel when clamped. |
| Gamut.RgbBox.constructor | jquery-colorpickersliders.all.js:2236 | The box holds the rgb object passed to `isGoodRgb`. |
| Gamut.RgbBox.IsGoodRgb | jquery-colorpickersliders.all.js:2236-2255 | The answer is true exactly when every channel is within [-1, 258]; then the object is clamped to 0..255 in place, and otherwise left alone. |
| Gamut.RgbBox.ClampToBytes | jquery-colorpickersliders.all.js:2308-2314 | The object's channels are clamped to 0..255 in place. |
| Gamut.Bisect | jquery-colorpickersliders.all.js:2289-2302 | The chroma search makes at least one pass and stops by pass 100. |
| Gamut.Pow2 | jquery-colorpickersliders.all.js:2292 | The product of the halvings is at least 1. |
| Gamut.BisectHalves | jquery-colorpickersliders.all.js:2292 | Each pass halves the gap between the good and bad chroma: the final gap times 2^passes is the initial gap. |
| Gamut.BisectStops | jquery-colorpickersliders.all.js:2302 | The search ends with 100 passes made or with a gap of at most 0.9. |
| Gamut.BisectBrackets | jquery-colorpickersliders.all.js:2296-2301 | The good end is still its starting value or a chroma whose colour is acceptable; the bad end is still its starting value or a chroma whose colour is not. |
| Gamut.Fit | jquery-colorpickersliders.all.js:2267-2328 | `lch2rgb` returns channels in 0..255; `isok` holds exactly when the direct conversion is acceptable, and then the rgb is that conversion clamped; the alpha changes only for an unacceptable colour with an opacity below 1. |
| Gamut.FitSearch | jquery-colorpickersliders.all.js:2284-2302 | Started from chroma -1 and the colour's own chroma, the search makes 1 to 100 passes, ends by its stop condition and halves the gap on each pass. |
| Gamut.FitCases | jquery-colorpickersliders.all.js:2267-2328 | An acceptable colour is returned clamped with its own alpha; otherwise the last probe of the search is clamped and its alpha faded by the opacity. |
| Gamut.ProbeBox | jquery-colorpickersliders.all.js:2294 | A fresh rgb object holds the conversion of the colour at the probed chroma. |
| Gamut.LchToRgbFitted | jquery-colorpickersliders.all.js:2267-2328 | The imperative `lch2rgb`, with its do-while loop and the in-place `isGoodRgb`, computes exactly `Fit`. |
| Gradient.ModifyColor | jquery-colorpickersliders.all.js:2330-2340 | The copy succeeds exactly when the property is present, and otherwise fails with "Missing color property: " and the name; the copy has the same keys, the new value at the property and every other value unchanged. |
| Gradient.ModifyUndone | jquery-colorpickersliders.all.js:2330-2340 | Writing the old value back restores the colour. |
| Gradient.ModifyLastWins | jquery-colorpickersliders.all.js:2330-2340 | Of two modifications of the same property, the last one wins. |
| Gradient.Paint | jquery-colorpickersliders.all.js:2355-2368 | No colour text without `r` or `h`; hsla text exactly when there is `h` but no `r`; rgba text exactly when there is `r` and an alpha below 1. |
| Gradient.LchOf | jquery-colorpickersliders.all.js:2350-2353 | The LCh colour read from the properties has an alpha exactly when the properties have `a`. |
| Gradient.FittedProps | jquery-colorpickersliders.all.js:2304-2327 | The object `lch2rgb` returns has keys r, g, b and `a` exactly when an alpha was set, with those values, and no `c` or `h`. |
| Gradient.CssColor | jquery-colorpickersliders.all.js:2342-2371 | An LCh colour always comes out as rgb or rgba text with channels in 0..255. |
| Gradient.CssFadesInvalid | jquery-colorpickersliders.all.js:2342-2371 | An LCh colour outside the gamut, with an opacity below 1, comes out as rgba text whose alpha is the colour's alpha times the opacity, or the opacity when it has none. |
| Gradient.CssOpaqueRgb | jquery-colorpickersliders.all.js:2360-2367 | An rgb colour with no alpha below 1 comes out as rgb text of its rounded channels, even when it also has HSL properties. |
| Gradient.Given | jquery-colorpickersliders.all.js:2089-2099 | A missing argument takes its default, a given one its value. |
| Gradient.Painted | jquery-colorpickersliders.all.js:2110-2118 | With an opacity of at least 1 the stop is always ok; below 1 it is ok exactly when the LCh colour converts to an acceptable rgb. |
| Gradient.PaintedCases | jquery-colorpickersliders.all.js:2110-2118 | Below opacity 1 the stop colour is the fitted rgb painted with that opacity; otherwise the modified colour is painted directly. |
| Gradient.StopAt | jquery-colorpickersliders.all.js:2105-2125 | Stop i's raw colour has the colour's keys, the scaled value at the property and every other value unchanged. |
| Gradient.PaintStop | jquery-colorpickersliders.all.js:2110-2124 | One loop iteration's stop: the colour text and `isok` flag that `Painted` gives for the modified colour and opacity, the position rounded to hundredths, and the modified colour as raw colour; at opacity 1 or more the stop is always ok. |
| Gradient.GetScaledGradientStops | jquery-colorpickersliders.all.js:2088-2129 | No stops for a non-positive count; a missing property fails with the `modifyColor` error; otherwise exactly `steps` stops, stop i as `StopAt` describes it. |
| Gradient.StopsSweep | jquery-colorpickersliders.all.js:2106-2107 | The first stop carries the minimum value and the last the maximum. |
| Gradient.ScaledEnds | jquery-colorpickersliders.all.js:2106-2107 | The scaled value at stage 0 is exactly the minimum and at the last stage exactly the maximum. |
| Gradient.StopsSpan | jquery-colorpickersliders.all.js:2122 | The first stop sits at the minimum position and the last at the maximum, both rounded to two decimals. |
| Gradient.PositionEnds | jquery-colorpickersliders.all.js:2122 | The position of the first stage is the minimum position rounded to hundredths, that of the last stage the maximum position rounded to hundredths. |
| Gradient.StopsInOrder | jquery-colorpickersliders.all.js:2122 | Positions never decrease along the stops when the minimum position is not above the maximum. |
| Base64.Run | jquery-colorpickersliders.all.js:2204 | A run of consecutive characters, used to spell the alphabet. |
| Base64.PadIsNoDigit | jquery-colorpickersliders.all.js:2204 | The padding character `=` is not one of the 64 digits. |
| Base64.Digit | jquery-colorpickersliders.all.js:2204 | `b64.charAt(h)` for a 6-bit value is one of the 64 digits. |
| Base64.QuadOf | jquery-colorpickersliders.all.js:2226 | One pass appends four characters. |
| Base64.Quad | jquery-colorpickersliders.all.js:2215-2226 | The group of three units becomes four characters. |
| Base64.Quads | jquery-colorpickersliders.all.js:2214-2229 | The loop produces four characters per started group of three units. |
| Base64.Base64Encode | jquery-colorpickersliders.all.js:2203-2234 | The imperative encoder, with its do-while loop and `tmp_arr`, returns exactly `Encoding(data)`. |
| Base64.EncodeGroup | jquery-colorpickersliders.all.js:2215-2226 | One loop body returns the quad of the units from position i. |
| Base64.EncodingLength | jquery-colorpickersliders.all.js:2203-2234 | The encoding has 4·⌈n/3⌉ characters. |
| Base64.QuadsDigits | jquery-colorpickersliders.all.js:2214-2229 | Every character the loop produces is a digit. |
| Base64.QuadDigits | jquery-colorpickersliders.all.js:2215-2226 | Each of a quad's four characters is a digit. |
| Base64.EncodingShape | jquery-colorpickersliders.all.js:2231-2233 | The encoding is digits followed by exactly 0, 2 or 1 `=` for n mod 3 = 0, 1 or 2. |
| Base64.PadsAtTheEnd | jquery-colorpickersliders.all.js:2231-2233 | A character is `=` exactly when it lies in the padding at the end. |
| Base64.GroupDigits | jquery-colorpickersliders.all.js:2219-2224 | The section 4 split of RFC 4648 gives four digits. |
| Base64.Octets | jquery-colorpickersliders.all.js:2215-2217 | Code units below 256 read as octets keep their values. |
| Base64.Octet | jquery-colorpickersliders.all.js:2215-2217 | A code unit below 256 keeps its value as an octet. |
| Base64.SixBitDigits | jquery-colorpickersliders.all.js:2219-2224 | Packing three octets and cutting the 24 bits with shifts and masks gives the same four digits as the split of section 4 of RFC 4648. |
| Base64.FirstDigit | jquery-colorpickersliders.all.js:2221 | `bits >> 18 & 0x3f` is the top six bits of the first octet. |
| Base64.SecondDigit | jquery-colorpickersliders.all.js:2222 | `bits >> 12 & 0x3f` is the low two bits of the first octet followed by the top four of the second. |
| Base64.ThirdDigit | jquery-colorpickersliders.all.js:2223 | `bits >> 6 & 0x3f` is the low four bits of the second octet followed by the top two of the third. |
| Base64.FourthDigit | jquery-colorpickersliders.all.js:2224 | `bits & 0x3f` is the low six bits of the third octet. |
| Base64.QuadIsGroup | jquery-colorpickersliders.all.js:2215-2226 | On byte-valued units, one pass produces the four digits that section 4 of RFC 4648 gives the group, with missing units read as zero. |
| Base64.EncodingIsRfc4648 | jquery-colorpickersliders.all.js:2203-2234 | On a string whose code units are all below 256, `base64encode` is the base 64 encoding of section 4 of RFC 4648, padding included. |
| Base64.LastGroup | jquery-colorpickersliders.all.js:2227-2233 | The last group of one, two or three octets is encoded and padded as section 4 of RFC 4648 prescribes. |
| Base64.GroupStep | jquery-colorpickersliders.all.js:2214-2227 | A full leading group contributes its four digits ahead of the encoding of the rest, both in the encoder and in RFC 4648. |

## Left out

- The jQuery widget (lines 957-2052) is not part of this model. That covers DOM construction, event binding, dragging, popups, dialogs, `localStorage` swatches and the `Date.now`/`setTimeout` throttling. All of it is UI, I/O or timing.
- `getEventCoordinates`, `calculateEventPositionPercentage`, `detectWhichGradientIsSupported`, `svgSupported` and the `render*` functions are left out. They read browser events and geometry, probe browser features, or write CSS.
- `getGradientStopsCSSString` (2131-2152) is left out. It only concatenates CSS and SVG text for the renderers, using JavaScript's number-to-string formatting.
- `tinycolor.random` is left out, because it depends on `Math.random`.
- `toFilter` is left out. It is legacy Internet Explorer output built on number-to-hex string formatting.
- `_tc_id` keeps only its role as the "already a tinycolor" marker (`TinyColor.Make`, `TinyColor.NewColor`). The counter value itself is left out.
- Floating point is not modelled: numbers are exact reals. IEEE rounding, NaN produced by arithmetic, and `Infinity` are left out.
- Numeric strings are represented by their `parseFloat` value and the presence of `.` and `%`. A channel string that `parseFloat` reads as NaN is left out; a NaN alpha is modelled as a missing alpha, which `boundAlpha` maps to 1.
- JavaScript number-to-string conversion is abstract. The text written for a number is any decimal that reads back to that number (`ColorText`).
- JavaScript regular-expression semantics are not modelled. The matchers are a greedy scanner over their token grammar, with a leftmost search.
- `pow`, `sqrt`, `atan2`, `sin` and `cos` are parameters (`Cie.Maths`), so the numeric content of the CIE chain is not modelled. The model proves no round trip of LCh to RGB outside the linear branches, and no convergence of the chroma bisection to a particular value.
- Cie.RgbToLch: states the alpha copy and the lightness only, because the remaining coordinates depend on the abstract `atan2` and `sqrt`.
- Cie.XyzToRgb: states whole-number channels only, because the values depend on the abstract `pow`.
- Cie.LchToRgb: states whole-number channels only, for the same reason.
- Cie.LabToLch: states the kept lightness; the hue range is the separate lemma `Cie.HueOnCircle`, which assumes that `atan2` lies in [-π, π].
- Gamut.Bisect: states the pass bounds only; the halving, the stop condition and the bracketing are separate lemmas. It gives no convergence claim.
- Gradient.CssColor: for colours without `c`, the contract states nothing. That output is covered by `Gradient.Paint`, `Gradient.CssOpaqueRgb` and `Gradient.CssFadesInvalid`.
- Gradient.CssColor: requires `CssReady`. The properties read must be present, and an HSL colour must carry `s` and `l`. The source would otherwise write `undefined` or `NaN` into the text.
- Gradient.GetScaledGradientStops: requires `steps != 1`. With one step, `i / (steps - 1)` is `0 / 0`, which is NaN. A non-positive count returns no stops, as in the source.
- Gradient.GetScaledGradientStops: below opacity 1 it requires `LchReady`, meaning the colour has `l`, `c` and `h`, because `lch2rgb` reads them.
- Gradient.GetScaledGradientStops: a stop's `color` is the structured CSS value that `csscolor` produces. Passing it through `tinycolor(csscolor).toRgbString()` is not modelled. The formatting of that text is modelled separately (`ColorText`, `TinyColor`).
- Gradient.GetScaledGradientStops: the thrown `modifyColor` error becomes a `Failure` result, and the input colour is a value that cannot change.
- Base64.Base64Encode: code units above 255 are encoded as written, with overlapping bits. Agreement with section 4 of RFC 4648 is proved for byte-valued input only (`Base64.EncodingIsRfc4648`). The falsy input `""` comes back as it is; the other falsy values (`null`, `undefined`) are not strings and are left out.
- Conversions.RgbToHsl: the contract states bounds only. The round trip with `hslToRgb` is the separate lemma `ConversionLaws.HslRoundTrip`.
- Conversions.RgbToHsv: the contract states bounds only. The round trip with `hsvToRgb` is the separate lemma `ConversionLaws.HsvRoundTrip`.
- `toHsvString` writes `hsva(...)` for a translucent colour, and no matcher reads that text. The model keeps this behaviour (`ColorText.HsvaTextUnread`, `TinyColor.HsvaStringUnread`).
- Conversions.RgbToRgb: percentages above 100 saturate at 255, where the source's `bound01` wraps them (`rgb(200%, 0, 0)` has red 0 there). The model uses the corrected `bound01` (see Findings); Bounds.Bound01Agrees states that the two agree everywhere else.
- Conversions.HslToRgb: percentages above 100 saturate, where the source wraps them (`hsl(150%, …)` reads hue 0.5 of the wheel there, 1 here). Same corrected `bound01` as above.
- Conversions.HsvToRgb: percentages above 100 saturate, where the source wraps them. Same corrected `bound01` as above.
- Parser.RecordColour: channel, hue, saturation, lightness and value percentages above 100 saturate, where the source wraps them. Same corrected `bound01` as above.
- Parser.RecordToRgb: percentages above 100 saturate, where the source wraps them, because it reads fields through RecordColour.
- Parser.InputToRgb: percentages above 100 saturate, where the source wraps them, because it reads fields through RecordColour.
- Bounds.BoundPercent: clamps a percentage to [0, 100], where the source clamps it to [0, max]. The as-written code is Bounds.Bound01AsWritten, and Bounds.Bound01Agrees states where the two agree.
- Parser.ToLower: lowercases the ASCII letters only. JavaScript's `toLowerCase` also maps other letters, for example `À` to `à`, U+212A KELVIN SIGN to `k`, and U+0130 to two characters. So a text such as `khaki` spelled with the Kelvin sign names a colour in the source but not here.
- Parser.LowerChar: maps A-Z only, for the same reason as Parser.ToLower.
- Palette.Analogous: `results` is a natural number. With a negative or fractional count, `--results` (line 500) never reaches 0 and the source loops forever, so those counts are left out.
- Palette.Monochromatic: `results` is a natural number, because with a negative or fractional count `results--` (line 513) never reaches 0 and the source loops forever.

## Findings

| source | as written | input that shows it | evidently intended | confidence | as-written member | corrected member |
|---|---|---|---|---|---|---|
| jquery-colorpickersliders.all.js:775-779 | A percentage is clamped to [0, max] instead of [0, 100]. It is then scaled by `parseInt(n * max) / 100`, which can exceed max, and `% max` wraps it. | `bound01("200%", 255)` is 0, and `bound01("150%", 255)` is 0.5. | Percentages above 100% saturate to 1, as values above max do. | not executed | Bounds.Bound01PercentWraps | Bounds.Bound01 |
