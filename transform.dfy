/** `processColor` and `mapValueJson`: the colour pipeline (table delta, then a fixed
    saturation and brightness boost) and its use on one JSON text value. */
module Transform {
  import opened Options
  import opened HexText
  import opened AwtColor
  import opened Adjustments
  import opened Colors
  import opened ColorLut

  /** The fixed delta `processColor` applies after the table: +10 saturation points and
      +10 brightness points, hue unchanged. */
  const Boost: Hsb := Hsb(0, 10.0, 10.0)

  /** `processColor`: the table's delta first, then the boost, as two applications of
      `Clr.plus`. With the all-zero table the first application gives the colour back,
      so `processColor` is a single application of the boost. */
  function ProcessColor(c: Clr): (r: Clr)
    ensures r == c.Plus(Boost)
  {
    PlusZeroIsIdentity(c);
    c.Plus(MapColorLut(c)).Plus(Boost)
  }

  /** `mapValueJson` on the text of a `TextNode`: None when the text is not a colour
      (the source's null), otherwise the processed colour as '#' and six lower-case hex
      digits, which parses back to that colour. */
  function MapValueJson(text: string): (r: Option<string>)
    ensures r.Some? <==> ParseOrNull(text).Some?
    ensures r.Some? ==> |r.value| == 7 && r.value[0] == '#' && AllLowerHex(r.value[1..])
    ensures r.Some? ==> ParseOrNull(r.value) == Some(ProcessColor(ParseOrNull(text).value))
  {
    match ParseOrNull(text)
    case None => None
    case Some(c) =>
      var p := ProcessColor(c);
      ToHexParseRoundTrip(p, true);
      Some(p.ToHex(true))
  }

  // ---------------------------------------------------------------- properties

  /** The HSB triple the boost hands to `getHSBColor`: the same hue, saturation and
      brightness each raised by 0.1 and capped at 1, so neither ever decreases. */
  lemma BoostTarget(c: Clr)
    ensures var f := c.HsbFractions();
            var t := c.Shifted(Boost);
            t.hue == f.hue &&
            t.saturation == (if f.saturation + 0.1 <= 1.0 then f.saturation + 0.1 else 1.0) &&
            t.brightness == (if f.brightness + 0.1 <= 1.0 then f.brightness + 0.1 else 1.0) &&
            f.saturation <= t.saturation && f.brightness <= t.brightness
  {
  }

  /** A delta that does not lower brightness never darkens the brightest channel,
      RGB rounding included. */
  lemma PlusNeverDarkens(c: Clr, d: Hsb)
    requires 0.0 <= d.brightness
    ensures var p := c.Plus(d);
            Max3(c.Red(), c.Green(), c.Blue()) <= Max3(p.Red(), p.Green(), p.Blue())
  {
    var f := c.HsbFractions();
    var t := c.Shifted(d);
    PackOfChannels(c.rgb);
    ChannelOfWhole(f.brightness, Max3(c.Red(), c.Green(), c.Blue()));
    ChannelMonotone(f.brightness, t.brightness);
  }

  /** `processColor` never darkens a colour's brightest channel. */
  lemma ProcessColorNeverDarkens(c: Clr)
    ensures var p := ProcessColor(c);
            Max3(c.Red(), c.Green(), c.Blue()) <= Max3(p.Red(), p.Green(), p.Blue())
  {
    PlusNeverDarkens(c, Boost);
  }

  /** A colour's text, processed and rendered, then processed again, is rendered from
      the processed colour: `mapValueJson` of its own output is `processColor` applied
      twice. */
  lemma MapValueJsonTwice(text: string)
    requires MapValueJson(text).Some?
    ensures var once := MapValueJson(text).value;
            MapValueJson(once).Some? &&
            ParseOrNull(MapValueJson(once).value) == Some(ProcessColor(ProcessColor(ParseOrNull(text).value)))
  {
  }

  // ---------------------------------------------------------------- a worked example

  /** The darkest background sample 121111 (red 18, green 17, blue 17): hue 0,
      saturation 1/18, brightness 18/255. */
  lemma ExampleFractions()
    ensures RgbToHsb(18, 17, 17) == Fractions(0.0, 1.0 / 18.0, 18.0 / 255.0)
  {
    assert Max3(18, 17, 17) == 18 && Min3(18, 17, 17) == 17;
    assert HueFraction(18, 17, 17) == 0.0;
  }

  /** Boosted by 0.1 each, saturation 7/45 and brightness 29/170 at hue 0 give red 44,
      green 37, blue 37. */
  lemma ExampleBoosted()
    ensures HsbToRgb(0.0, 7.0 / 45.0, 29.0 / 170.0) == 0x2c2525
  {
    var s := 7.0 / 45.0;
    var b := 29.0 / 170.0;
    assert Channel(b) == 44;
    assert Shade(b, s, 1.0) == 29.0 * 38.0 / (170.0 * 45.0);
    assert Channel(Shade(b, s, 1.0)) == 37;
    assert SectorColor(0, 0.0, s, b) == Pack(44, 37, 37);
  }

  /** `processColor` turns 121111 into 2c2525. */
  lemma ProcessColorExample(c: Clr)
    requires c.rgb == 0x121111
    ensures ProcessColor(c).rgb == 0x2c2525
  {
    var t := Fractions(0.0, 7.0 / 45.0, 29.0 / 170.0);
    assert c.Shifted(Boost) == t by {
      assert c.Red() == 18 && c.Green() == 17 && c.Blue() == 17;
      ExampleFractions();
    }
    assert c.Plus(Boost).rgb == 0x2c2525 by { ExampleBoosted(); }
  }

  lemma ExampleParse()
    ensures ParseHex("121111") == 0x121111
  {
    var s := "121111";
    assert s[..0] == [] && s[..6] == s;
    ParseHexStep(s, 0); ParseHexStep(s, 1); ParseHexStep(s, 2);
    ParseHexStep(s, 3); ParseHexStep(s, 4); ParseHexStep(s, 5);
  }

  lemma ExampleRender()
    ensures "#" + Fixed(0x2c2525, 6) == "#2c2525"
  {
    assert Fixed(0x2, 1) == "2";
    assert Fixed(0x2c, 2) == "2c";
    assert Fixed(0x2c2, 3) == "2c2";
    assert Fixed(0x2c25, 4) == "2c25";
    assert Fixed(0x2c252, 5) == "2c252";
  }

  /** `mapValueJson` of the node text "121111" or "#121111" is "#2c2525". */
  lemma MapValueJsonExample(text: string)
    requires text == "121111" || text == "#121111"
    ensures MapValueJson(text) == Some("#2c2525")
  {
    ExampleParse();
    var c :| ParseOrNull(text) == Some(c) && c.rgb == 0x121111 by {
      ParseOfDigits("121111", 0x121111);
    }
    var p := ProcessColor(c);
    ProcessColorExample(c);
    assert p.ToHex(true) == "#2c2525" by {
      assert Fixed(p.rgb, 6) == Fixed(0x2c2525, 6);
      ExampleRender();
    }
  }
}
