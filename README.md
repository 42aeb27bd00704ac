# Colour transformation of an editor theme, in Dafny

This project models the colour core of a small Kotlin tool that rewrites an IDE colour
theme. Every colour text in a JSON theme goes through the same steps:

1. It is parsed into a `Clr`, or rejected (`Clr.parseOrNull`, through `java.awt.Color.decode`).
2. It is shifted by a delta from a look-up table indexed by luma band and hue cell (`mapColorLUT`).
3. It is shifted again by a fixed boost of +10 saturation and +10 brightness points (`processColor`).
4. It is written back as `#rrggbb` (`Clr.toHex`).

The JSON walk (`processJson`) applies this to every text field of an object and
descends into nested objects. It leaves arrays and non-text scalars alone.

Modules:

- `HexText` (hex.dfy): hex digits, parsing and fixed-width rendering, and Kotlin's
  `Int.toHexString()`.
- `AwtColor` (awt.dfy): the parts of `java.awt.Color` that the code calls: `decode`,
  `RGBtoHSB` and `HSBtoRGB` (which backs `getHSBColor`). They are written out after the
  JDK's algorithms, with float arithmetic taken as exact real arithmetic. Under that
  reading `HSBtoRGB(RGBtoHSB(c)) == c` is proved for every colour (`HsbRoundTrip`).
- `Adjustments` (adjustment.dfy): the `HSB` delta and its `plus`.
- `Colors` (color.dfy): `Clr` with its derived hue, saturation, brightness and luma, and
  its `plus`, `minus`, `toHex` and `parseOrNull`.
- `ColorLut` (lut.dfy): `mapColorLUT`, as six luma bands of ten hue cells each.
- `Transform` (transform.dfy): `processColor` and `mapValueJson`.
- `JsonTheme` (json.dfy): Jackson's object tree and `processJson`.
  - `ObjectNode` is a class whose field list `ProcessJson` and `Replace` update in place.
  - The walk is proved against the specification function `RewrittenFields`.
  - The shape of the rewrite is stated for any text mapping. The facts about colours are
    stated for `mapValueJson`.

Three behaviours of the Kotlin code are easy to miss:

- A colour text may have any number of hex digits, as long as their value is at most
  `Int.MAX_VALUE`. Only the low 24 bits are kept.
- A three-digit text such as `fff` is the number 0x000fff. It is not CSS shorthand for
  `ffffff` (`ShortFormIsNotExpanded`).
- Output is always lower case, because that is what `Int.toHexString()` writes.

## Model

| member | source | states |
|---|---|---|
| `Adjustments.Wrap` | src/Main.kt:196 | an exact integer wraps to the Kotlin `Int` congruent to it modulo 2^32, and an `Int` stays as it is |
| `Adjustments.WrapSum` | src/Main.kt:202 | wrapping an operand first does not change a wrapped sum, so `Int` addition wraps consistently |
| `Adjustments.Hsb.Plus` | src/Main.kt:200-206 | `HSB.plus` with `HSB()` on either side gives the other delta back; the hue sum wraps as an `Int` |
| `Adjustments.Hsb.Negated` | src/Main.kt:162 | the negated copy `minus` builds cancels the delta under `plus` from either side |
| `Adjustments.MinValueIsOwnNegation` | src/Main.kt:162 | `-Int.MIN_VALUE` wraps to itself, so `HSB(Int.MIN_VALUE)` is its own negation |
| `Adjustments.PlusCommutesAndAssociates` | src/Main.kt:200-206 | the componentwise `plus` is commutative and associative |
| `Adjustments.NegatedTwice` | src/Main.kt:162 | negating the copy that `minus` builds a second time gives the delta back, `Int.MIN_VALUE` included |
| `HexText.IntToHexString` | src/Main.kt:174 | `Int.toHexString()` yields exactly eight lower-case digits whose value is the 32-bit two's-complement pattern of the Int |
| `HexText.ParseFixed` | src/Main.kt:174 | a value rendered at a width it fits in parses back to itself |
| `HexText.FixedParse` | src/Main.kt:174 | hex digits parsed and re-rendered at their own width are the same digits in lower case |
| `AwtColor.Decode` | src/Main.kt:186 | `Color.decode` of `#digits` succeeds exactly when the digits are non-empty, all hex, and worth at most `Int.MAX_VALUE`; the colour is the low 24 bits of that value |
| `AwtColor.LowBits` | src/Main.kt:186 | the three bytes `Color.decode` extracts, packed again, are the value's low 24 bits |
| `AwtColor.RgbToHsb` | src/Main.kt:146-148 | `RGBtoHSB` gives hue in [0, 1), saturation and brightness in [0, 1]; brightness is the largest channel over 255; saturation is zero exactly for greys |
| `AwtColor.HsbToRgb` | src/Main.kt:158 | `HSBtoRGB` gives a colour whose largest channel is the brightness rounded to a channel value; zero saturation gives a grey |
| `AwtColor.HsbRoundTrip` | src/Main.kt:146-158 | `HSBtoRGB` of a colour's own `RGBtoHSB` triple is that colour again |
| `Colors.Clr.HsbFractions` | src/Main.kt:146-148 | `_hsb` lies in the unit ranges: hue below 1, saturation and brightness at most 1 |
| `Colors.Clr.Hue` | src/Main.kt:149 | `hue` is a whole degree 0..359 |
| `Colors.Clr.Saturation` | src/Main.kt:150 | `saturation` is a percentage 0..100 |
| `Colors.Clr.Brightness` | src/Main.kt:151 | `brightness` is the largest channel scaled to 0..100 |
| `Colors.Clr.Luma` | src/Main.kt:152 | `luma` (the weighted channel sum over 255) lies in [0, 1] |
| `Colors.LumaExamples` | src/Main.kt:165-166 | the luma weights sum to one: black has luma 0, white 1, pure red 0.299 |
| `Colors.NormalizedOverflowSum` | src/Main.kt:168-171 | a sum up to 1 is kept; a larger sum becomes its remainder modulo 1, in [0, 1) and a whole number away from the sum |
| `Colors.CoerceIn` | src/Main.kt:156-157 | `coerceIn(0f, 1f)` keeps values inside the range and clamps the others to the nearer end |
| `Colors.Clr.Shifted` | src/Main.kt:154-157 | the triple `plus` passes on: hue shifted by `d.hue / 360` and wrapped once past 1; saturation and brightness shifted by `d / 100` and clamped to [0, 1] |
| `Colors.Clr.Plus` | src/Main.kt:154-159 | the colour `plus` builds has the shifted brightness, rounded, as its brightest channel; a shifted saturation of zero gives a grey |
| `Colors.Clr.Minus` | src/Main.kt:161-163 | subtracting a delta that does not lower brightness never raises the brightest channel |
| `Colors.PlusZeroIsIdentity` | src/Main.kt:154-159 | `c + HSB()` is `c` |
| `Colors.MinusIsPlusNegated` | src/Main.kt:161-163 | `minus(d)` is `plus` of the negated delta; `minus(HSB())` is the identity |
| `Colors.Clr.ToHex` | src/Main.kt:173-176 | `toHex` is the colour's six lower-case hex digits, behind a '#' when asked; the dropped "ff" is the alpha byte (`AlphaDigits`) |
| `Colors.AlphaDigits` | src/Main.kt:174 | the hex string of an opaque colour's Int is "ff" followed by its six RGB digits |
| `Colors.ParseOrNull` | src/Main.kt:179-191 | `parseOrNull` succeeds exactly when the text, less one leading '#', is a non-empty run of hex digits worth at most `Int.MAX_VALUE`; it never fails otherwise |
| `Colors.ParseOfDigits` | src/Main.kt:180-184 | accepted digits give the same colour with or without the leading '#' |
| `Colors.ToHexParseRoundTrip` | src/Main.kt:173-191 | `parseOrNull(c.toHex(p)) == c` for both prefixes |
| `Colors.SixDigitsRoundTrip` | src/Main.kt:173-191 | six hex digits in either case parse, with or without '#', and `toHex` renders them back in lower case |
| `Colors.ParseRejectsMalformed` | src/Main.kt:185-189 | the empty text, a bare '#', a doubled '#', a non-hex character and a sign after the '#' give null |
| `Colors.ParseEightDigits` | src/Main.kt:185-190 | for example, "7f121111" is accepted and cut to the colour 121111, while "ff121111" is beyond `Int.MAX_VALUE` and gives null (the general rule is `ParseOrNull`'s) |
| `Colors.ShortFormIsNotExpanded` | src/Main.kt:179-191 | "fff" parses as 0x000fff and renders as "000fff" |
| `ColorLut.LumaBand` | src/Main.kt:211-363 | the outer `when (c.luma)` picks the band whose half-open range holds the luma; the last band is closed at 1.0; it falls through to `else` exactly outside [0, 1] |
| `ColorLut.HueCell` | src/Main.kt:214-236 | the inner `when (c.hue)` picks the cell whose range holds the hue; it falls through to `else` exactly outside 0..360 |
| `ColorLut.HueEdges` | src/Main.kt:214-361 | every band splits 0..360 into ten cells with strictly increasing edges |
| `ColorLut.BandsArePartition` | src/Main.kt:211-363 | a luma in a band's range selects that band: no two bands overlap |
| `ColorLut.CellsArePartition` | src/Main.kt:214-236 | a hue in a cell's range selects that cell: no two cells overlap |
| `ColorLut.EveryColourHasCell` | src/Main.kt:211-363 | every colour reaches a band and a cell; neither `else` branch is taken for a colour |
| `ColorLut.KeywordTealEdge` | src/Main.kt:299-301 | hues 180..189 are light green - teal in the keyword band and teal - blue in every other band |
| `ColorLut.Lookup` | src/Main.kt:211-364 | a luma outside every band (the outer `else`) gives `HSB()`; a hue outside every cell (the inner `else`) gives the band's base delta alone |
| `ColorLut.MapColorLut` | src/Main.kt:211-364 | with the current table, `mapColorLUT` gives `HSB()` for every colour |
| `ColorLut.LookupIsZero` | src/Main.kt:211-364 | every entry of the table is the zero delta |
| `ColorLut.NumbersSampleCell` | src/Main.kt:289-301 | the sample 58858C has luma in the keyword band and hue 188, which that band puts in cell 4 and the next band in cell 5 |
| `Transform.ProcessColor` | src/Main.kt:136-138 | with the current table, `processColor(c)` is `c` plus the boost alone (the table's zero delta leaves the colour as it is) |
| `Transform.BoostTarget` | src/Main.kt:137 | the boost keeps the hue and raises saturation and brightness by 0.1 each, capped at 1; neither decreases |
| `Transform.PlusNeverDarkens` | src/Main.kt:154-159 | a delta with non-negative brightness never lowers a colour's largest channel, rounding included |
| `Transform.ProcessColorNeverDarkens` | src/Main.kt:136-138 | `processColor` never lowers a colour's largest channel |
| `Transform.ProcessColorExample` | src/Main.kt:136-138 | `processColor` turns 121111 into 2c2525 |
| `Transform.MapValueJson` | src/Main.kt:123-132 | `mapValueJson` answers null exactly when the text is not a colour; otherwise it answers `#` and six lower-case digits, which parse back to `processColor` of the parsed colour |
| `Transform.MapValueJsonTwice` | src/Main.kt:123-132 | mapping a mapped text again processes the colour twice |
| `Transform.MapValueJsonExample` | src/Main.kt:123-132 | `mapValueJson` of "121111" and of "#121111" is "#2c2525" |
| `JsonTheme.ReplaceField` | src/Main.kt:114 | `replace` keeps every other field; it puts the new value at the key's first position when the key is present (length kept) and appends it when the key is new |
| `JsonTheme.ReplaceAt` | src/Main.kt:114 | with distinct keys, replacing under field `i`'s key changes field `i` only |
| `JsonTheme.ObjectNode.Replace` | src/Main.kt:114 | the node's fields become the `replace`d list |
| `JsonTheme.ObjectNode.ProcessJson` | src/Main.kt:101-121 | the loop leaves the object's fields equal to the rewritten field list, and every object keeps distinct keys |
| `JsonTheme.RewrittenFields` | src/Main.kt:101-121 | the rewrite keeps the number of fields and every key in its place |
| `JsonTheme.RewrittenFieldAt` | src/Main.kt:106-119 | field `i` of the result is field `i` with its value rewritten |
| `JsonTheme.TextRewrite` | src/Main.kt:110-115 | a text is replaced exactly when it parses as a colour, by a canonical text of the processed colour; any other text stays |
| `JsonTheme.Rewritten` | src/Main.kt:109-119 | the rewrite keeps a value's kind: objects stay objects and texts stay texts; arrays are not descended into and scalars are left as they are |
| `JsonTheme.RewrittenSameShape` | src/Main.kt:101-121 | the rewrite keeps the tree's shape: the same keys in the same order, texts stay texts |
| `JsonTheme.ProcessedTreeSettled` | src/Main.kt:101-132 | after the walk every text reachable through objects is canonical `#rrggbb` or not a colour at all |
| `JsonTheme.RewrittenWellFormed` | src/Main.kt:101-121 | the rewrite keeps every object's keys distinct |

## Left out

- Reading the input files, `main`, and writing the output are not modelled: the file
  arguments, the XML document walk and `ObjectMapper.writeValue`. The XML walk's own
  guard (only values of length 6 are considered, src/Main.kt:49) is outside the model
  with it.
- The Jackson step that renames the theme and points it at the new editor scheme
  (src/Main.kt:82-99) is not modelled.
- The `println` in `mapValueJson` is not modelled. It logs a changed colour and has no
  effect on the result.
- Float arithmetic is not modelled: every Float computation is exact real arithmetic.
  A luma that lies exactly on a band edge can round to the band below under floats. For
  0078a5 the exact luma is 89250/255000 = 0.35, which falls in the band starting at 0.35,
  while the Float sum of src/Main.kt:166 is just below 0.35. `ColorLut.EveryColourHasCell`
  and the band a given colour falls in are therefore stated for exact arithmetic.
- `java.awt.Color`'s `decode`, `RGBtoHSB` and `HSBtoRGB` are library code. They are
  written out here after the JDK's published algorithms, and that is an assumption of
  the model.
- `AwtColor.Decode` takes only texts that start with '#', which is all `parseOrNull`
  passes it. It reads ASCII hex digits only, while `Integer.decode` also accepts other
  Unicode digits.
- `AwtColor.HsbToRgb` requires saturation and brightness in [0, 1]. `Clr.plus` always
  clamps them into that range; `Color.HSBtoRGB` itself accepts any float.
- `JsonTheme.ObjectNode.ProcessJson`: the source walks the deep copy's entries. It
  processes a nested `ObjectNode` in place through the original's entry, and the model
  sees that through the objects' values. Here the nested object is processed as a fresh
  `ObjectNode` and put back under its key. Aliasing between Jackson nodes is not
  modelled. The method requires distinct keys, which a Jackson `ObjectNode` always has.
- Numbers, booleans and null are kept as one `Scalar` literal. Their own values are not
  modelled because the walk never looks at them.
- The commented-out helpers after `mapColorLUT` (src/Main.kt:366-394) are not modelled,
  because they are not code.
- test/Test.kt only prints the luma and hue of sample colours. One of them (58858C) is
  stated as `ColorLut.NumbersSampleCell`, and 121111 is used in the worked examples.
