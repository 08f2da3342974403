# Image watermark compositor, modelled in Dafny

A model of the watermark compositor of ImageWatermark (`src/main/kotlin/Main.kt`):
the per-pixel blend rule, the two placement strategies (`addGridWatermark`,
which fills a fresh base-sized image with the tiled watermark, and
`addSingleWatermark`, which blends the watermark into the base image itself at a
chosen offset), and the checks `main` and `createBufferedImage` make on the
decoded images and on the user's replies before and after compositing.

Modules, one per concern:

- `Wrappers` — `Option` and a failure-compatible `Result`.
- `Errors` — one variant per exception the program raises.
- `Pixels` — a pixel as java.awt.Color sees it, `(r, g, b, a)` with channels in
  0..255; how the base (`Color(getRGB)`, alpha forced to 255) and the watermark
  (`Color(getRGB, hasalpha)`, alpha kept only in translucent mode) are read.
- `Blend` — the shared `when` of the blend rule and its properties.
- `Compositor` — the two placement strategies as methods over `array2<Pixel>`
  (indexed `[x, y]`, `Length0` the width), with loop invariants.
- `Text` — Kotlin's `split(" ")`, `toIntOrNull()` and `lowercase()`.
- `Validation` — the pixel-format, dimension, transparency, percentage, position,
  method and file-name checks, as pure functions.
- `Session` — `main` minus its I/O, checking in the program's order.

Integer widths: every product in the blend is at most 100 * 255 and every pixel
coordinate lies inside an image, so no Kotlin `Int` overflow can occur there and
the model uses unbounded integers; the blend's `/` has non-negative operands, so
Kotlin's truncating division and Dafny's agree. The only place where the 32-bit
range matters is number parsing, which the model bounds explicitly (`IntMin`,
`IntMax`).

Notes on the program's behaviour:

- The single placement writes into the base image and returns it; the output is
  not a fresh 3-component RGB raster, and the unused `outputImageType` argument
  is dropped.
- When the single placement meets an invalid watermark pixel, the base is
  already partly overwritten; the program discards it, so only the success case
  states the new base.
- The transparency colour is compared with `Color.equals`, i.e. on packed ARGB;
  the colour is opaque, and it is only offered when the watermark is read
  without alpha, so this amounts to exact RGB equality (`Blend.KeyIsRgbEquality`).
- A colour-key number too long for an `Int` fails with a NumberFormatException
  from `toInt()` rather than with InvalidTransparencyColorException.
- A BITMASK watermark is not TRANSLUCENT: it gets the transparency-colour prompt
  and is read without alpha.

## Model

| member | source | states |
|---|---|---|
| `Pixels.ReadBase` | src/main/kotlin/Main.kt:32 | a base pixel is read with its colour channels kept and its alpha forced to 255 |
| `Pixels.ReadWatermark` | src/main/kotlin/Main.kt:33 | a watermark pixel keeps its colour channels; its alpha is the stored one only when read with alpha (a TRANSLUCENT watermark), else 255, as a base pixel is read |
| `Blend.MatchesKey` | src/main/kotlin/Main.kt:35 | a watermark pixel equals the transparency colour exactly when a colour is set, the pixel is opaque and its three colour channels equal the colour's |
| `Blend.Mix` | src/main/kotlin/Main.kt:36-40 | a blended channel lies between the watermark and base channels (so in 0..255, never rejected by `Color`); opacity 100 gives the watermark channel, 0 the base channel |
| `Blend.MixBounds` | src/main/kotlin/Main.kt:37-39 | the weighted sum `p*w + (100-p)*i` lies between 100 times the smaller and 100 times the larger channel |
| `Blend.BlendPixel` | src/main/kotlin/Main.kt:34-42 | the rule fails exactly for a watermark alpha strictly between 0 and 255 (a key match is opaque), always with InvalidWatermarkImage; on an opaque base the result is opaque |
| `Blend.Composite` | src/main/kotlin/Main.kt:32-42 | one output pixel fails exactly when the watermark pixel is rejected (alpha mode and 0 < alpha < 255); a transparent or keyed watermark pixel yields the base pixel read without alpha; otherwise each channel is the mix at the opacity; the result is opaque |
| `Blend.OpacityExtremes` | src/main/kotlin/Main.kt:37-39 | at opacity 100 an opaque non-key watermark pixel replaces the base colour, at opacity 0 the base colour is kept |
| `Blend.KeyedPixelIsKept` | src/main/kotlin/Main.kt:35 | a watermark pixel equal to the transparency colour leaves the base pixel, even though its alpha is 255 |
| `Blend.KeyIsRgbEquality` | src/main/kotlin/Main.kt:35 | without the alpha channel, matching the transparency colour is exact RGB equality whatever the stored alpha |
| `Blend.HalfWhiteOverBlack` | src/main/kotlin/Main.kt:37-39 | white at opacity 50 over black gives (127, 127, 127) |
| `Compositor.AddGridWatermark` | src/main/kotlin/Main.kt:21-47 | fails exactly when some visited watermark pixel is rejected; otherwise returns a fresh image of the base's size whose pixel (x, y) is the blend of base (x, y) with watermark (x mod width, y mod height); the base is only read |
| `Compositor.AddSingleWatermark` | src/main/kotlin/Main.kt:49-77 | with the offset inside the base, fails exactly when some watermark pixel is rejected; otherwise returns the base itself, where pixel (x+xPos, y+yPos) is the blend of its old value with watermark (x, y) and every pixel outside the footprint is unchanged |
| `Compositor.GridFailsIffInvalidPixel` | src/main/kotlin/Main.kt:29-33 | with a base at least as large as the watermark the grid visits every watermark pixel, so it fails exactly when the single placement would |
| `Compositor.OnlyTranslucentFails` | src/main/kotlin/Main.kt:33 | when the watermark is read without alpha no pixel is rejected |
| `Text.Split` | src/main/kotlin/Main.kt:112 | `split(" ")` yields one more piece than there are spaces, none containing a space |
| `Text.JoinSplit` | src/main/kotlin/Main.kt:112 | joining the pieces of a split with the delimiter gives back the string |
| `Text.SplitJoin` | src/main/kotlin/Main.kt:112 | splitting delimiter-free pieces joined by the delimiter gives back the pieces |
| `Text.ParseInt` | src/main/kotlin/Main.kt:104 | `toIntOrNull` yields a value exactly for an optional `-` or `+` followed by at least one digit whose signed value fits in 32 bits, and that value is the digits' value with the sign applied |
| `Text.ParseRender` | src/main/kotlin/Main.kt:104 | every 32-bit Int reads back from its decimal rendering |
| `Text.LowerCase` | src/main/kotlin/Main.kt:93 | `lowercase()` keeps the length and lower-cases letter by letter |
| `Validation.CheckFormat` | src/main/kotlin/Main.kt:16-17 | an image is accepted exactly with 3 colour components and 24 or 32 bits per pixel; the component count is checked first |
| `Validation.CheckDimensions` | src/main/kotlin/Main.kt:87 | accepted exactly when the watermark is neither wider nor taller than the base |
| `Validation.YesIgnoringCase` | src/main/kotlin/Main.kt:93 | a yes to the alpha prompt is three characters long (the full characterisation is `YesIgnoringCaseSpelled`) |
| `Validation.YesExactly` | src/main/kotlin/Main.kt:94 | a yes to the transparency-colour prompt is also a yes to the case-insensitive alpha prompt |
| `Validation.YesIgnoringCaseSpelled` | src/main/kotlin/Main.kt:93 | the alpha prompt accepts exactly the eight case variants of "yes" |
| `Validation.PromptsDifferInCase` | src/main/kotlin/Main.kt:93-94 | "YES" is a yes to the alpha prompt and a no to the transparency-colour prompt |
| `Validation.DigitTriple` | src/main/kotlin/Main.kt:96 | a reply matching `\d+ \d+ \d+` contains exactly two spaces (the full characterisation is `DigitTripleAccepts` and `DigitTripleShape`) |
| `Validation.DigitTripleAccepts` | src/main/kotlin/Main.kt:96 | every string of the shape `\d+ \d+ \d+` passes the pattern check |
| `Validation.DigitTripleShape` | src/main/kotlin/Main.kt:96 | every string passing the pattern check is three digit runs joined by single spaces |
| `Validation.ParseColorKey` | src/main/kotlin/Main.kt:95-99 | a reply not of the pattern fails with InvalidTransparencyColor; an accepted colour is the three runs' values |
| `Validation.ToInt` | src/main/kotlin/Main.kt:97 | on a digit run, `toInt()` succeeds exactly when its value fits in an Int, yielding that value; otherwise it throws NumberFormatException naming the run |
| `Validation.ColorKeyRoundTrip` | src/main/kotlin/Main.kt:96-99 | a colour written as three decimal numbers reads back as that colour |
| `Validation.ColorKeyRange` | src/main/kotlin/Main.kt:98 | a well-shaped reply whose numbers fit in an Int is accepted exactly when every number is at most 255, else InvalidTransparencyColor |
| `Validation.ColorKeyOfInts` | src/main/kotlin/Main.kt:97-99 | once the three runs convert to Ints, the colour is accepted exactly when all three lie in 0..255, and is then those three values |
| `Validation.ColorKeyOverflow` | src/main/kotlin/Main.kt:97 | the first digit run (of any of the three) too long for an Int, every earlier one fitting, fails with NumberFormatException naming that run, before the range check |
| `Validation.ParsePercentage` | src/main/kotlin/Main.kt:103-105 | accepted exactly when the reply is an Int in 0..100; a non-integer and an out-of-range Int fail with their own errors |
| `Validation.PercentageRoundTrip` | src/main/kotlin/Main.kt:104-105 | every Int written in decimal is accepted as itself exactly when it lies in 0..100, else out of range |
| `Validation.ParsePosition` | src/main/kotlin/Main.kt:112-114 | anything but exactly two space-separated tokens, or two tokens of which one is not an Int, is InvalidPositionInput; two Int tokens are accepted as their values exactly when each lies in 0..diff, else PositionInputOutOfRange |
| `Validation.PositionRoundTrip` | src/main/kotlin/Main.kt:110-114 | two Ints written in decimal are accepted exactly when each lies in 0..diff (diff itself included), else PositionInputOutOfRange |
| `Validation.ParsePlacement` | src/main/kotlin/Main.kt:108-118 | "grid" is accepted as the grid; "single" is accepted exactly when the position is, as Single at exactly that position, and otherwise fails with the position's error; anything else is InvalidPositionMethod |
| `Validation.ChooseTransparency` | src/main/kotlin/Main.kt:90-100 | a TRANSLUCENT watermark uses alpha exactly on a case-insensitive "yes" and never has a key; any other watermark reads without alpha, has no key unless the reply is exactly "yes", and then has the parsed colour as key, or fails with the colour parser's error |
| `Validation.Configure` | src/main/kotlin/Main.kt:87-118 | accepted exactly when the dimensions, transparency choice, percentage and placement are all accepted, and then the settings are exactly those parsed values; a failure carries the error of the first rejected step in main's order (dimensions, transparency, percentage, placement); an accepted single offset keeps the watermark inside the base |
| `Validation.Prepare` | src/main/kotlin/Main.kt:83-87 | the base's format is checked before the watermark's and both before Configure, whose result is returned once both pass; acceptance implies both formats valid, the watermark no larger than the base, and settings equal to the parsed transparency choice, percentage and placement |
| `Validation.OutputFormat` | src/main/kotlin/Main.kt:120-125 | an accepted name yields its last three characters as format tag, which is "jpg" or "png" |
| `Validation.OutputFormatIff` | src/main/kotlin/Main.kt:121 | a name is accepted exactly when it is a non-empty single-line stem, a dot and "jpg" or "png" |
| `Session.Watermark` | src/main/kotlin/Main.kt:79-127 | a failed check returns its error with the base untouched; otherwise the composite fails exactly for a watermark with a rejected pixel; then the file name decides; on success the output is the grid or single result stated by the compositor |
| `Session.OnlyTranslucentWatermarksFail` | src/main/kotlin/Main.kt:90-93 | an invalid-watermark failure needs a TRANSLUCENT watermark and a yes to the alpha prompt |

## Left out

- Terminal I/O (`reply`, `readln`, `println`) and the catch-all that prints the error message: the replies are a record of strings and errors are returned as values.
- File existence, `ImageIO.read` and `ImageIO.write`: images arrive decoded as pixel arrays with their colour-model facts, and the output is described (image, format tag, file name) rather than encoded; InExistentFileException therefore has no variant.
- Exception message texts; each exception is one `Errors.Error` variant.
- ARGB packing in `getRGB`/`setRGB`: pixels are `(r, g, b, a)` records; an output pixel's alpha is modelled as 255, which is what a TYPE_INT_RGB image reads back.
- `Text.ParseInt`: only ASCII digits are modelled; `toIntOrNull()` also accepts other Unicode decimal digits.
- `Text.LowerCase`: only ASCII letters are lower-cased; no other character lower-cases to "y", "e" or "s", so the alpha prompt's comparison is exact.
- `Compositor.AddSingleWatermark`: the base's contents after a failed composite are not stated.
- `Validation.YesIgnoringCase`: its own contract states only the length of an accepted reply; the exact set of accepted replies is stated by the lemma `Validation.YesIgnoringCaseSpelled`.
- `Validation.DigitTriple`: its own contract states only that an accepted reply has two spaces; the exact shape is stated by the lemmas `Validation.DigitTripleAccepts` and `Validation.DigitTripleShape`.
