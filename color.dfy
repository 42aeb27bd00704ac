/** The `Clr` colour value: a `java.awt.Color` (24 RGB bits, opaque) together with the
    hue, saturation, brightness and luma derived from it, the application of an `HSB`
    delta, hex rendering and null-instead-of-throw parsing. */
module Colors {
  import opened Options
  import opened HexText
  import opened AwtColor
  import opened Adjustments

  /** Kotlin's `coerceIn(lo, hi)`. */
  function CoerceIn(x: real, lo: real, hi: real): (r: real)
    requires lo <= hi
    ensures lo <= r <= hi
    ensures lo <= x <= hi ==> r == x
    ensures x < lo ==> r == lo
    ensures hi < x ==> r == hi
  {
    if x < lo then lo else if x > hi then hi else x
  }

  /** `Clr.normalizedOverflowSum`: a sum up to 1 is kept as it is (a negative sum too);
      a larger one is replaced by its remainder modulo 1 (`sum % 1f`, which for a
      positive sum is its fractional part). */
  function NormalizedOverflowSum(a: real, b: real): (r: real)
    ensures a + b <= 1.0 ==> r == a + b
    ensures 1.0 < a + b ==> 0.0 <= r < 1.0 && (a + b - r).Floor as real == a + b - r
    ensures r <= 1.0
  {
    var sum := a + b;
    if sum <= 1.0 then sum else sum - sum.Floor as real
  }

  /** The luma weights: red, green and blue in perceptual proportion, summing to one. */
  const RedWeight: real := 0.299
  const GreenWeight: real := 0.587
  const BlueWeight: real := 0.114

  /** `Clr`: every attribute is a function of the wrapped colour's RGB value. */
  datatype Clr = Clr(rgb: Rgb24)
  {
    function Red(): int { RedOf(rgb) }
    function Green(): int { GreenOf(rgb) }
    function Blue(): int { BlueOf(rgb) }

    /** `_hsb`: `Color.RGBtoHSB` of the three channels. */
    function HsbFractions(): (f: Fractions)
      ensures 0.0 <= f.hue < 1.0 && 0.0 <= f.saturation <= 1.0 && 0.0 <= f.brightness <= 1.0
    {
      PackOfChannels(rgb);
      RgbToHsb(Red(), Green(), Blue())
    }

    /** `hue`: the hue fraction in whole degrees (`(h * 360).toInt()`, which truncates),
        always a degree of the wheel 0..359. */
    function Hue(): (h: int)
      ensures 0 <= h < 360
    {
      (HsbFractions().hue * 360.0).Floor
    }

    /** `saturation` as a percentage. */
    function Saturation(): (s: real)
      ensures 0.0 <= s <= 100.0
    {
      HsbFractions().saturation * 100.0
    }

    /** `brightness` as a percentage: the largest channel, scaled to 0..100. */
    function Brightness(): (v: real)
      ensures 0.0 <= v <= 100.0
      ensures v * 255.0 == 100.0 * Max3(Red(), Green(), Blue()) as real
    {
      PackOfChannels(rgb);
      HsbFractions().brightness * 100.0
    }

    /** `calcLuma`: the weighted channel sum over 255, always within [0, 1]. */
    function Luma(): (l: real)
      ensures 0.0 <= l <= 1.0
    {
      PackOfChannels(rgb);
      (RedWeight * Red() as real + GreenWeight * Green() as real + BlueWeight * Blue() as real) / 255.0
    }

    /** The HSB triple `Clr.plus(d)` hands to `Color.getHSBColor`: the hue shifted by
        `d.hue / 360` and wrapped once it passes 1, saturation and brightness shifted by
        `d / 100` and clamped to [0, 1]. */
    function Shifted(d: Hsb): (t: Fractions)
      ensures 0.0 <= t.saturation <= 1.0 && 0.0 <= t.brightness <= 1.0 && t.hue <= 1.0
      ensures var s := HsbFractions().saturation + d.saturation / 100.0;
              (0.0 <= s <= 1.0 ==> t.saturation == s) &&
              (s < 0.0 ==> t.saturation == 0.0) && (1.0 < s ==> t.saturation == 1.0)
      ensures var b := HsbFractions().brightness + d.brightness / 100.0;
              (0.0 <= b <= 1.0 ==> t.brightness == b) &&
              (b < 0.0 ==> t.brightness == 0.0) && (1.0 < b ==> t.brightness == 1.0)
      ensures var h := HsbFractions().hue + d.hue as real / 360.0;
              (h <= 1.0 ==> t.hue == h) &&
              (1.0 < h ==> 0.0 <= t.hue < 1.0 && (h - t.hue).Floor as real == h - t.hue)
    {
      var f := HsbFractions();
      Fractions(
        NormalizedOverflowSum(f.hue, d.hue as real / 360.0),
        CoerceIn(f.saturation + d.saturation / 100.0, 0.0, 1.0),
        CoerceIn(f.brightness + d.brightness / 100.0, 0.0, 1.0))
    }

    /** `Clr.plus(d)`: the colour `Color.getHSBColor` builds from the shifted triple. Its
        brightest channel is the shifted brightness rounded to a channel, and a shifted
        saturation of zero gives a grey. */
    function Plus(d: Hsb): (r: Clr)
      ensures Max3(r.Red(), r.Green(), r.Blue()) == Channel(Shifted(d).brightness)
      ensures Shifted(d).saturation == 0.0 ==> r.Red() == r.Green() == r.Blue()
    {
      var t := Shifted(d);
      Clr(HsbToRgb(t.hue, t.saturation, t.brightness))
    }

    /** `Clr.minus(d)`: `plus` of the negated delta, so a delta that does not lower
        brightness, subtracted, never brightens the brightest channel. */
    function Minus(d: Hsb): (r: Clr)
      ensures 0.0 <= d.brightness ==> Max3(r.Red(), r.Green(), r.Blue()) <= Max3(Red(), Green(), Blue())
    {
      var f := HsbFractions();
      var t := Shifted(d.Negated());
      PackOfChannels(rgb);
      ChannelOfWhole(f.brightness, Max3(Red(), Green(), Blue()));
      assert 0.0 <= d.brightness ==> Channel(t.brightness) <= Channel(f.brightness) by {
        if 0.0 <= d.brightness {
          ChannelMonotone(t.brightness, f.brightness);
        }
      }
      Plus(d.Negated())
    }

    /** `toHex`: `color.rgb` (alpha 0xff in the top byte, so a negative Int) as Kotlin
        hex, its leading "ff" dropped, optionally behind a '#'. */
    function ToHex(withHashPrefix: bool): (s: string)
      ensures |s| == if withHashPrefix then 7 else 6
      ensures s == if withHashPrefix then "#" + Fixed(rgb, 6) else Fixed(rgb, 6)
    {
      var argb := rgb - 0x100_0000;
      AlphaDigits(rgb);
      var full := IntToHexString(argb);
      assert full == "ff" + Fixed(rgb, 6);
      var hex := full[2..];
      assert hex == Fixed(rgb, 6);
      if withHashPrefix then "#" + hex else hex
    }
  }

  /** The eight hex digits of an opaque colour's 32-bit value are "ff" and then the six
      digits of its RGB value. */
  lemma AlphaDigits(rgb: Rgb24)
    ensures IntToHexString(rgb - 0x100_0000) == "ff" + Fixed(rgb, 6)
  {
    Pow16Values(6);
    Pow16Values(2);
    FixedSplit(0xff, rgb, 2, 6);
    assert Fixed(0xff, 2) == "ff";
  }

  /** `Clr.parseOrNull`: a '#' is put in front unless the text already starts with one,
      and `Color.decode`'s failure becomes None. The digits after the '#' must be a
      non-empty run of hex digits worth at most Int.MAX_VALUE; the colour keeps their
      low 24 bits. */
  function ParseOrNull(hex: string): (c: Option<Clr>)
    ensures var digits := if |hex| > 0 && hex[0] == '#' then hex[1..] else hex;
            (c.Some? <==> |digits| > 0 && AllHex(digits) && ParseHex(digits) <= MaxInt) &&
            (c.Some? ==> c.value.rgb == ParseHex(digits) % 0x100_0000)
  {
    var colorHex := if |hex| > 0 && hex[0] == '#' then hex else "#" + hex;
    assert colorHex[1..] == if |hex| > 0 && hex[0] == '#' then hex[1..] else hex;
    match Decode(colorHex)
    case None => None
    case Some(rgb) => Some(Clr(rgb))
  }

  // ---------------------------------------------------------------- properties

  /** Applying `HSB()` gives the colour back: the unshifted triple is `_hsb` itself,
      and `HSBtoRGB` undoes `RGBtoHSB` exactly. */
  lemma PlusZeroIsIdentity(c: Clr)
    ensures c.Plus(Zero) == c
  {
    var f := c.HsbFractions();
    assert c.Shifted(Zero) == f;
    PackOfChannels(c.rgb);
    HsbRoundTrip(c.Red(), c.Green(), c.Blue());
  }

  /** `minus` applies the negated delta, `minus` of a negated delta is `plus` of the
      delta, and `minus(HSB())` is the identity. */
  lemma MinusIsPlusNegated(c: Clr, d: Hsb)
    ensures c.Minus(d) == c.Plus(d.Negated())
    ensures c.Minus(d.Negated()) == c.Plus(d)
    ensures c.Minus(Zero) == c
  {
    assert c.Minus(d.Negated()) == c.Plus(d) by {
      NegatedTwice(d);
    }
    assert c.Minus(Zero) == c by {
      assert Zero.Negated() == Zero by { assert Zero.Plus(Zero.Negated()) == Zero; }
      PlusZeroIsIdentity(c);
    }
  }

  /** The luma weights sum to one, so black has luma 0, white 1 and pure red 0.299. */
  lemma LumaExamples()
    ensures RedWeight + GreenWeight + BlueWeight == 1.0
    ensures Clr(0x000000).Luma() == 0.0
    ensures Clr(0xffffff).Luma() == 1.0
    ensures Clr(0xff0000).Luma() == 0.299
  {
  }

  /** Digits that `Color.decode` accepts parse to the same colour with or without the
      '#' in front. */
  lemma ParseOfDigits(digits: string, v: Rgb24)
    requires |digits| > 0 && AllHex(digits) && ParseHex(digits) == v
    ensures ParseOrNull(digits) == Some(Clr(v))
    ensures ParseOrNull("#" + digits) == Some(Clr(v))
  {
    assert ("#" + digits)[1..] == digits;
    assert digits[0] != '#';
  }

  /** Rendering and parsing back gives the same colour, with or without the '#'. */
  lemma ToHexParseRoundTrip(c: Clr, withHashPrefix: bool)
    ensures ParseOrNull(c.ToHex(withHashPrefix)) == Some(c)
  {
    var digits := Fixed(c.rgb, 6);
    assert ParseHex(digits) == c.rgb by { Pow16Values(6); ParseFixed(c.rgb, 6); }
    ParseOfDigits(digits, c.rgb);
  }

  /** Six hex digits, with or without '#', in either case, parse to a colour that
      renders as the same six digits in lower case. */
  lemma SixDigitsRoundTrip(s: string)
    requires |s| == 6 && AllHex(s)
    ensures ParseOrNull(s).Some? && ParseOrNull("#" + s) == ParseOrNull(s)
    ensures ParseOrNull(s).value.ToHex(false) == Lowered(s)
    ensures ParseOrNull(s).value.ToHex(true) == "#" + Lowered(s)
  {
    var v := ParseHex(s);
    assert v < 0x100_0000 by { Pow16Values(6); }
    ParseOfDigits(s, v);
    FixedParse(s);
  }

  /** Texts `parseOrNull` turns down: empty, a bare '#', a doubled '#', a non-hex
      character, a sign after the '#'. */
  lemma ParseRejectsMalformed()
    ensures ParseOrNull("") == None
    ensures ParseOrNull("#") == None
    ensures ParseOrNull("##121111") == None
    ensures ParseOrNull("12111g") == None
    ensures ParseOrNull("-121111") == None
  {
    assert "##121111"[1..][0] == '#' && !IsHexDigit('#');
    assert ("#" + "12111g")[1..] == "12111g" && "12111g"[5] == 'g' && !IsHexDigit('g');
    assert ("#" + "-121111")[1..] == "-121111" && "-121111"[0] == '-' && !IsHexDigit('-');
  }

  /** Eight digits are accepted while their value is at most Int.MAX_VALUE, and then cut
      to 24 bits: "7f121111" is the colour 121111, "ff121111" is turned down. */
  lemma ParseEightDigits(s: string)
    requires s == "7f121111" || s == "ff121111"
    ensures ParseOrNull(s) == if s[0] == '7' then Some(Clr(0x121111)) else None
  {
    assert AllHex(s) && s[0] != '#';
    HexEight(s);
    assert ParseHex(s) == if s[0] == '7' then 0x7f121111 else 0xff121111;
  }

  /** A three-digit text is a number like any other, not a CSS shorthand: "fff" is the
      colour 0x000fff. */
  lemma ShortFormIsNotExpanded()
    ensures ParseOrNull("fff") == Some(Clr(0x000fff))
    ensures ParseOrNull("fff").value.ToHex(false) == "000fff"
  {
    ShortFormValue();
    ShortFormRender();
    ParseOfDigits("fff", 0xfff);
  }

  /** The value of "fff". */
  lemma ShortFormValue()
    ensures ParseHex("fff") == 0xfff
  {
    var s := "fff";
    assert s[..0] == [] && s[..3] == s;
    ParseHexStep(s, 0); ParseHexStep(s, 1); ParseHexStep(s, 2);
  }

  /** The six-digit rendering of 0xfff. */
  lemma ShortFormRender()
    ensures Fixed(0xfff, 6) == "000fff"
  {
    assert Fixed(0, 3) == "000" by {
      assert Fixed(0, 1) == "0";
      assert Fixed(0, 2) == "00";
    }
    assert Fixed(0xf, 4) == "000f";
    assert Fixed(0xff, 5) == "000ff";
  }

  /** Unfolds `ParseHex` over an eight-character text. */
  lemma HexEight(s: string)
    requires |s| == 8 && AllHex(s)
    ensures ParseHex(s) ==
            ((((((DigitValue(s[0]) * 16 + DigitValue(s[1])) * 16 + DigitValue(s[2])) * 16
              + DigitValue(s[3])) * 16 + DigitValue(s[4])) * 16 + DigitValue(s[5])) * 16
              + DigitValue(s[6])) * 16 + DigitValue(s[7])
  {
    assert s[..0] == [] && s[..8] == s;
    ParseHexStep(s, 0); ParseHexStep(s, 1); ParseHexStep(s, 2); ParseHexStep(s, 3);
    ParseHexStep(s, 4); ParseHexStep(s, 5); ParseHexStep(s, 6); ParseHexStep(s, 7);
  }
}
