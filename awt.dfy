/** The parts of `java.awt.Color` the colour model calls: `Color.decode` on a '#'-prefixed
    string, `Color.RGBtoHSB` and `Color.HSBtoRGB` (through `Color.getHSBColor`). They are
    written out after the library's published algorithms, with `float` arithmetic taken
    as exact real arithmetic. */
module AwtColor {
  import opened Options
  import opened HexText

  /** A colour's 24 RGB bits; the alpha byte of every colour here is 0xff. */
  type Rgb24 = x: int | 0 <= x < 0x100_0000

  const MaxInt: int := 0x7fff_ffff

  predicate IsChannel(x: int) { 0 <= x <= 255 }

  function RedOf(rgb: Rgb24): int { rgb / 0x1_0000 }
  function GreenOf(rgb: Rgb24): int { (rgb / 0x100) % 0x100 }
  function BlueOf(rgb: Rgb24): int { rgb % 0x100 }

  /** The 24-bit value `(r << 16) | (g << 8) | b` of three channels. */
  function Pack(r: int, g: int, b: int): (rgb: Rgb24)
    requires IsChannel(r) && IsChannel(g) && IsChannel(b)
    ensures RedOf(rgb) == r && GreenOf(rgb) == g && BlueOf(rgb) == b
  {
    var x := r * 0x1_0000 + g * 0x100 + b;
    ShortSplit(x, r, g * 0x100 + b);
    ByteSplit(x, r * 0x100 + g, b);
    ByteSplit(r * 0x100 + g, r, g);
    x
  }

  lemma PackOfChannels(rgb: Rgb24)
    ensures IsChannel(RedOf(rgb)) && IsChannel(GreenOf(rgb)) && IsChannel(BlueOf(rgb))
    ensures Pack(RedOf(rgb), GreenOf(rgb), BlueOf(rgb)) == rgb
  {
  }

  function Max3(a: int, b: int, c: int): (m: int)
    ensures m >= a && m >= b && m >= c && (m == a || m == b || m == c)
  {
    var ab := if a > b then a else b;
    if c > ab then c else ab
  }

  function Min3(a: int, b: int, c: int): (m: int)
    ensures m <= a && m <= b && m <= c && (m == a || m == b || m == c)
  {
    var ab := if a < b then a else b;
    if c < ab then c else ab
  }

  // ---------------------------------------------------------------- Color.decode

  /** `Color.decode(nm)` for a string that starts with '#': `Integer.decode` reads the
      rest as a base-16 number (no sign after the '#', at least one digit, at most
      Int.MAX_VALUE, otherwise NumberFormatException, modelled as None), and the colour
      is built from its three low bytes (see `LowBits`). */
  function Decode(nm: string): (r: Option<Rgb24>)
    requires |nm| > 0 && nm[0] == '#'
    ensures r.Some? <==> |nm| > 1 && AllHex(nm[1..]) && ParseHex(nm[1..]) <= MaxInt
    ensures r.Some? ==> r.value == ParseHex(nm[1..]) % 0x100_0000
  {
    var digits := nm[1..];
    if |digits| == 0 || !AllHex(digits) then None
    else
      var i := ParseHex(digits);
      if i > MaxInt then None
      else
        Some(i % 0x100_0000)
  }

  /** `Color.decode` builds its colour from `(i >> 16) & 0xFF`, `(i >> 8) & 0xFF` and
      `i & 0xFF`; packed back together those three bytes are the low 24 bits of `i`,
      which is how `Decode` states its result. */
  lemma LowBits(i: nat)
    ensures Pack((i / 0x1_0000) % 0x100, (i / 0x100) % 0x100, i % 0x100) == i % 0x100_0000
  {
    var q := i / 0x100_0000;
    var lo := i % 0x100_0000;
    var r, g, b := lo / 0x1_0000, (lo / 0x100) % 0x100, lo % 0x100;
    assert i == q * 0x100_0000 + lo;
    ShortSplit(lo, r, lo % 0x1_0000);
    ShortSplit(i, q * 0x100 + r, lo % 0x1_0000);
    ByteSplit(q * 0x100 + r, q, r);
    ByteSplit(lo, lo / 0x100, b);
    ByteSplit(lo / 0x100, r, g);
    ByteSplit(i, q * 0x1_0000 + lo / 0x100, b);
    ByteSplit(q * 0x1_0000 + lo / 0x100, q * 0x100 + r, g);
  }

  /** Division by 256 with remainder, from a decomposition. */
  lemma ByteSplit(x: int, k: int, m: int)
    requires 0 <= m < 0x100 && x == k * 0x100 + m
    ensures x / 0x100 == k && x % 0x100 == m
  {
  }

  /** Division by 65536 with remainder, from a decomposition. */
  lemma ShortSplit(x: int, k: int, m: int)
    requires 0 <= m < 0x1_0000 && x == k * 0x1_0000 + m
    ensures x / 0x1_0000 == k && x % 0x1_0000 == m
  {
  }

  // ---------------------------------------------------------------- Color.RGBtoHSB

  /** The three fractions `RGBtoHSB` stores in its `float[3]`. */
  datatype Fractions = Fractions(hue: real, saturation: real, brightness: real)

  /** `a / d` for `0 <= a <= d`, as a fraction of the unit interval. */
  lemma UnitRatio(a: int, d: int)
    requires 0 <= a <= d && d > 0
    ensures 0.0 <= a as real / d as real <= 1.0
  {
  }

  /** `Color.RGBtoHSB(r, g, b, null)`: brightness is the largest channel over 255,
      saturation the spread over the largest channel, hue the position on the colour
      wheel as a fraction of a turn. */
  function RgbToHsb(r: int, g: int, b: int): (f: Fractions)
    requires IsChannel(r) && IsChannel(g) && IsChannel(b)
    ensures 0.0 <= f.hue < 1.0
    ensures 0.0 <= f.saturation <= 1.0
    ensures 0.0 <= f.brightness <= 1.0
    ensures f.brightness * 255.0 == Max3(r, g, b) as real
    ensures f.saturation == 0.0 <==> r == g == b
  {
    var cmax := Max3(r, g, b);
    var cmin := Min3(r, g, b);
    var brightness := cmax as real / 255.0;
    var saturation := if cmax != 0 then (cmax - cmin) as real / cmax as real else 0.0;
    UnitRatio(cmax - cmin, if cmax == 0 then 1 else cmax);
    var hue := if saturation == 0.0 then 0.0 else HueFraction(r, g, b);
    Fractions(hue, saturation, brightness)
  }

  /** The hue branch of `RGBtoHSB`, for colours that are not grey. */
  function HueFraction(r: int, g: int, b: int): (h: real)
    requires IsChannel(r) && IsChannel(g) && IsChannel(b)
    requires Max3(r, g, b) != Min3(r, g, b)
    ensures 0.0 <= h < 1.0
  {
    var cmax := Max3(r, g, b);
    var cmin := Min3(r, g, b);
    var d := (cmax - cmin) as real;
    var redc := (cmax - r) as real / d;
    var greenc := (cmax - g) as real / d;
    var bluec := (cmax - b) as real / d;
    UnitRatio(cmax - r, cmax - cmin);
    UnitRatio(cmax - g, cmax - cmin);
    UnitRatio(cmax - b, cmax - cmin);
    assert r == cmax || g == cmax || b == cmax;
    assert r == cmin || g == cmin || b == cmin;
    var h :=
      (if r == cmax then bluec - greenc
       else if g == cmax then 2.0 + redc - bluec
       else 4.0 + greenc - redc) / 6.0;
    if h < 0.0 then h + 1.0 else h
  }

  // ---------------------------------------------------------------- Color.HSBtoRGB

  /** `(int) (x * 255.0f + 0.5f)`: a fraction rounded to the nearest channel value. */
  function Channel(x: real): (c: int)
    requires 0.0 <= x <= 1.0
    ensures IsChannel(c)
  {
    (x * 255.0 + 0.5).Floor
  }

  /** `brightness * (1 - saturation * u)`, the shape of `HSBtoRGB`'s p, q and t. */
  function Shade(brightness: real, saturation: real, u: real): (x: real)
    requires 0.0 <= brightness <= 1.0 && 0.0 <= saturation <= 1.0 && 0.0 <= u <= 1.0
    ensures 0.0 <= x <= brightness
  {
    UnitProduct(saturation, u);
    UnitProduct(brightness, 1.0 - saturation * u);
    brightness * (1.0 - saturation * u)
  }

  /** The product of two fractions is a fraction no larger than the first. */
  lemma UnitProduct(a: real, b: real)
    requires 0.0 <= a <= 1.0 && 0.0 <= b <= 1.0
    ensures 0.0 <= a * b <= a
  {
    NonNegProduct(a, b);
    NonNegProduct(a, 1.0 - b);
  }

  lemma NonNegProduct(a: real, b: real)
    requires 0.0 <= a && 0.0 <= b
    ensures 0.0 <= a * b
  {
  }

  /** One of the six `case`s of `HSBtoRGB`'s switch on the colour-wheel sector. */
  function SectorColor(sector: int, f: real, saturation: real, brightness: real): (rgb: Rgb24)
    requires 0 <= sector <= 5 && 0.0 <= f < 1.0
    requires 0.0 <= saturation <= 1.0 && 0.0 <= brightness <= 1.0
    ensures Max3(RedOf(rgb), GreenOf(rgb), BlueOf(rgb)) == Channel(brightness)
  {
    var v := Channel(brightness);
    var p := Channel(Shade(brightness, saturation, 1.0));
    var q := Channel(Shade(brightness, saturation, f));
    var t := Channel(Shade(brightness, saturation, 1.0 - f));
    ChannelMonotone(Shade(brightness, saturation, 1.0), brightness);
    ChannelMonotone(Shade(brightness, saturation, f), brightness);
    ChannelMonotone(Shade(brightness, saturation, 1.0 - f), brightness);
    Arrange(sector, v, p, q, t)
  }

  /** The order in which sector `sector` lays out the channels `v` (the brightest), `p`
      (the darkest), and `q` (odd sectors) or `t` (even sectors). */
  function Arrange(sector: int, v: int, p: int, q: int, t: int): (rgb: Rgb24)
    requires IsChannel(v) && IsChannel(p) && IsChannel(q) && IsChannel(t)
    ensures p <= v && q <= v && t <= v ==> Max3(RedOf(rgb), GreenOf(rgb), BlueOf(rgb)) == v
  {
    if sector == 0 then Pack(v, t, p)
    else if sector == 1 then Pack(q, v, p)
    else if sector == 2 then Pack(p, v, t)
    else if sector == 3 then Pack(p, q, v)
    else if sector == 4 then Pack(t, p, v)
    else Pack(v, p, q)
  }

  /** Rounding to a channel never reverses the order of two fractions. */
  lemma ChannelMonotone(x: real, y: real)
    requires 0.0 <= x <= y <= 1.0
    ensures Channel(x) <= Channel(y)
  {
  }

  /** `Color.HSBtoRGB(hue, saturation, brightness)` without its alpha byte. Any hue is
      accepted (only its fractional part counts); saturation and brightness are the
      clamped fractions `Clr.plus` passes. The brightest channel is the brightness
      rounded to a channel value, and zero saturation gives a grey. */
  function HsbToRgb(hue: real, saturation: real, brightness: real): (rgb: Rgb24)
    requires 0.0 <= saturation <= 1.0 && 0.0 <= brightness <= 1.0
    ensures Max3(RedOf(rgb), GreenOf(rgb), BlueOf(rgb)) == Channel(brightness)
    ensures saturation == 0.0 ==> RedOf(rgb) == GreenOf(rgb) == BlueOf(rgb)
  {
    if saturation == 0.0 then
      var v := Channel(brightness);
      Pack(v, v, v)
    else
      var h := (hue - hue.Floor as real) * 6.0;
      SectorColor(h.Floor, h - h.Floor as real, saturation, brightness)
  }

  // ---------------------------------------------------------------- round trip

  /** A fraction that is a channel value over 255 rounds back to that channel. */
  lemma ChannelOfWhole(x: real, n: int)
    requires IsChannel(n) && x * 255.0 == n as real
    ensures 0.0 <= x <= 1.0 && Channel(x) == n
  {
  }

  /** The shade at `u` of brightness `m / 255` and saturation `d / m` is channel `n`
      when `d * u == m - n`. */
  lemma ShadeOfWhole(bri: real, sat: real, m: int, d: int, u: real, n: int)
    requires 0 < d <= m <= 255 && IsChannel(n) && 0.0 <= u <= 1.0
    requires 0.0 <= sat <= 1.0 && 0.0 <= bri <= 1.0
    requires bri * 255.0 == m as real && sat * m as real == d as real
    requires d as real * u == (m - n) as real
    ensures Channel(Shade(bri, sat, u)) == n
  {
    var x := Shade(bri, sat, u);
    assert x * 255.0 == m as real - (sat * m as real) * u;
    ChannelOfWhole(x, n);
  }

  /** `a / d - c / d == (a - c) / d`. */
  lemma RatioDiff(a: int, c: int, d: int)
    requires d > 0
    ensures a as real / d as real - c as real / d as real == (a - c) as real / d as real
  {
  }

  /** `a / d` keeps the sign of `a`, lies in [-1, 1] when `|a| <= d`, and reaches 1 only
      at `a == d`. */
  lemma Ratio(a: int, d: int)
    requires d > 0 && -d <= a <= d
    ensures var w := a as real / d as real;
            -1.0 <= w <= 1.0 && (w == 1.0 <==> a == d) &&
            (0.0 <= w <==> 0 <= a) && w * d as real == a as real
  {
  }

  /** `k + a / d == (a + k * d) / d`. */
  lemma RatioShift(a: int, k: int, d: int)
    requires d > 0
    ensures k as real + a as real / d as real == (a + k * d) as real / d as real
  {
  }

  /** `RGBtoHSB`'s hue when red is the largest channel, as sector plus fraction:
      `(g - b) / spread`, moved up a whole turn when negative. */
  lemma HueWhenRedMax(r: int, g: int, b: int)
    requires IsChannel(r) && IsChannel(g) && IsChannel(b)
    requires r == Max3(r, g, b) != Min3(r, g, b)
    ensures var d := (r - Min3(r, g, b)) as real;
            HueFraction(r, g, b) * 6.0 ==
              if g < b then 5.0 + (r - b) as real / d else (g - b) as real / d
  {
    var d := r - Min3(r, g, b);
    var w := (g - b) as real / d as real;
    RatioDiff(r - b, r - g, d);
    Ratio(g - b, d);
    assert HueFraction(r, g, b) == if w / 6.0 < 0.0 then w / 6.0 + 1.0 else w / 6.0;
    if g < b {
      RatioShift(g - b, 1, d);
      assert g - b + d == r - b;
    }
  }

  /** `RGBtoHSB`'s hue when green is the largest channel and red is not. */
  lemma HueWhenGreenMax(r: int, g: int, b: int)
    requires IsChannel(r) && IsChannel(g) && IsChannel(b)
    requires r < g == Max3(r, g, b)
    ensures var d := (g - Min3(r, g, b)) as real;
            HueFraction(r, g, b) * 6.0 ==
              if b < r then 1.0 + (g - r) as real / d else 2.0 + (b - r) as real / d
  {
    var d := g - Min3(r, g, b);
    var w := 2.0 + (b - r) as real / d as real;
    RatioDiff(g - r, g - b, d);
    Ratio(b - r, d);
    assert HueFraction(r, g, b) == w / 6.0;
    if b < r {
      RatioShift(b - r, 1, d);
      assert b - r + d == g - r;
    }
  }

  /** `RGBtoHSB`'s hue when blue alone is the largest channel. */
  lemma HueWhenBlueMax(r: int, g: int, b: int)
    requires IsChannel(r) && IsChannel(g) && IsChannel(b)
    requires r < b && g < b
    ensures var d := (b - Min3(r, g, b)) as real;
            HueFraction(r, g, b) * 6.0 ==
              if r < g then 3.0 + (b - g) as real / d else 4.0 + (r - g) as real / d
  {
    var d := b - Min3(r, g, b);
    var w := 4.0 + (r - g) as real / d as real;
    RatioDiff(b - g, b - r, d);
    Ratio(r - g, d);
    assert HueFraction(r, g, b) == w / 6.0;
    if r < g {
      RatioShift(r - g, 1, d);
      assert r - g + d == b - g;
    }
  }

  /** A hue whose sixfold is `k + frac` selects sector `k` with fraction `frac`. */
  lemma SectorOf(hue: real, saturation: real, brightness: real, k: int, frac: real)
    requires 0.0 < saturation <= 1.0 && 0.0 <= brightness <= 1.0 && 0.0 <= hue < 1.0
    requires 0 <= k <= 5 && 0.0 <= frac < 1.0 && hue * 6.0 == k as real + frac
    ensures HsbToRgb(hue, saturation, brightness) == SectorColor(k, frac, saturation, brightness)
  {
    FloorOf(hue, 0);
    var h := (hue - hue.Floor as real) * 6.0;
    assert h == k as real + frac;
    FloorOf(h, k);
    assert h - h.Floor as real == frac;
  }

  lemma FloorOf(x: real, k: int)
    requires k as real <= x < k as real + 1.0
    ensures x.Floor == k
  {
  }

  /** `HSBtoRGB` of a hue whose sixfold is `k + frac`, at brightness `m / 255` and
      saturation `d / m`, gives the channels `m`, `m - d` and `x` in sector `k`'s order:
      `x` is `q` where the sector's fraction is `(m - x) / d` (odd sectors) and `t` where
      it is `(x - m + d) / d` (even sectors). */
  lemma {:induction false} SectorRoundTrip(hue: real, sat: real, bri: real, k: int, frac: real,
                                           m: int, d: int, x: int)
    requires 0 < d <= m <= 255 && m - d <= x <= m && 0 <= k <= 5
    requires 0.0 < sat <= 1.0 && 0.0 <= bri <= 1.0
    requires bri * 255.0 == m as real && sat * m as real == d as real
    requires 0.0 <= hue < 1.0 && hue * 6.0 == k as real + frac
    requires 0.0 <= frac < 1.0
    requires frac * d as real == (if k % 2 == 1 then m - x else x - m + d) as real
    ensures HsbToRgb(hue, sat, bri) == Arrange(k, m, m - d, x, x)
  {
    SectorChannels(sat, bri, k, frac, m, d, x);
    SectorOf(hue, sat, bri, k, frac);
    var q := Channel(Shade(bri, sat, frac));
    var t := Channel(Shade(bri, sat, 1.0 - frac));
    assert SectorColor(k, frac, sat, bri) == Arrange(k, m, m - d, q, t);
    ArrangeUses(k, m, m - d, q, t, x);
  }

  /** Odd sectors use `q` and not `t`, even sectors `t` and not `q`. */
  lemma ArrangeUses(k: int, v: int, p: int, q: int, t: int, x: int)
    requires 0 <= k <= 5
    requires IsChannel(v) && IsChannel(p) && IsChannel(q) && IsChannel(t) && IsChannel(x)
    requires if k % 2 == 1 then q == x else t == x
    ensures Arrange(k, v, p, q, t) == Arrange(k, v, p, x, x)
  {
    if k == 0 {
    } else if k == 1 {
    } else if k == 2 {
    } else if k == 3 {
    } else if k == 4 {
    } else {
    }
  }

  /** The rounded channels `HSBtoRGB` computes in sector `k`: `v` is `m`, `p` is `m - d`,
      and `q` (odd sectors) or `t` (even sectors) is `x`. */
  lemma SectorChannels(sat: real, bri: real, k: int, frac: real, m: int, d: int, x: int)
    requires 0 < d <= m <= 255 && m - d <= x <= m
    requires 0.0 < sat <= 1.0 && 0.0 <= bri <= 1.0
    requires bri * 255.0 == m as real && sat * m as real == d as real
    requires 0.0 <= frac < 1.0
    requires frac * d as real == (if k % 2 == 1 then m - x else x - m + d) as real
    ensures Channel(bri) == m
    ensures Channel(Shade(bri, sat, 1.0)) == m - d
    ensures k % 2 == 1 ==> Channel(Shade(bri, sat, frac)) == x
    ensures k % 2 == 0 ==> Channel(Shade(bri, sat, 1.0 - frac)) == x
  {
    ChannelOfWhole(bri, m);
    ShadeOfWhole(bri, sat, m, d, 1.0, m - d);
    if k % 2 == 1 {
      ShadeOfWhole(bri, sat, m, d, frac, x);
    } else {
      ShadeOfWhole(bri, sat, m, d, 1.0 - frac, x);
    }
  }

  /** The fractions `RGBtoHSB` gives a colour that is not grey. */
  lemma NotGrey(r: int, g: int, b: int)
    requires IsChannel(r) && IsChannel(g) && IsChannel(b)
    requires Max3(r, g, b) != Min3(r, g, b)
    ensures var f := RgbToHsb(r, g, b);
            var m := Max3(r, g, b);
            f.hue == HueFraction(r, g, b) && 0.0 < f.saturation &&
            f.saturation * m as real == (m - Min3(r, g, b)) as real
  {
  }

  /** `SectorRoundTrip` with the sector's fraction given as `a / d`. */
  lemma SectorCase(hue: real, sat: real, bri: real, k: int, m: int, d: int, x: int, a: int)
    requires 0 < d <= m <= 255 && m - d <= x <= m && 0 <= k <= 5 && 0 <= a < d
    requires 0.0 < sat <= 1.0 && 0.0 <= bri <= 1.0
    requires bri * 255.0 == m as real && sat * m as real == d as real
    requires 0.0 <= hue < 1.0 && hue * 6.0 == k as real + a as real / d as real
    requires a == if k % 2 == 1 then m - x else x - m + d
    ensures HsbToRgb(hue, sat, bri) == Arrange(k, m, m - d, x, x)
  {
    Ratio(a, d);
    SectorRoundTrip(hue, sat, bri, k, a as real / d as real, m, d, x);
  }

  /** The round trip for colours whose red channel is the largest. */
  lemma {:induction false} RedMaxRoundTrip(r: int, g: int, b: int, hue: real, sat: real, bri: real)
    requires IsChannel(r) && IsChannel(g) && IsChannel(b)
    requires r == Max3(r, g, b) != Min3(r, g, b)
    requires 0.0 <= hue < 1.0 && 0.0 < sat <= 1.0 && 0.0 <= bri <= 1.0
    requires bri * 255.0 == r as real && sat * r as real == (r - Min3(r, g, b)) as real
    requires var d := (r - Min3(r, g, b)) as real;
             hue * 6.0 == if g < b then 5.0 + (r - b) as real / d else (g - b) as real / d
    ensures HsbToRgb(hue, sat, bri) == Pack(r, g, b)
  {
    var d := r - Min3(r, g, b);
    if g < b {
      SectorCase(hue, sat, bri, 5, r, d, b, r - b);
      assert Arrange(5, r, r - d, b, b) == Pack(r, g, b);
    } else if g < r {
      assert hue * 6.0 == 0 as real + (g - b) as real / d as real;
      SectorCase(hue, sat, bri, 0, r, d, g, g - b);
      assert Arrange(0, r, r - d, g, g) == Pack(r, g, b);
    } else {
      assert hue * 6.0 == 1 as real + 0 as real / d as real by { Ratio(g - b, d); }
      SectorCase(hue, sat, bri, 1, r, d, r, 0);
      assert Arrange(1, r, r - d, r, r) == Pack(r, g, b);
    }
  }

  /** The round trip for colours whose green channel is the largest and red is not. */
  lemma {:induction false} GreenMaxRoundTrip(r: int, g: int, b: int, hue: real, sat: real, bri: real)
    requires IsChannel(r) && IsChannel(g) && IsChannel(b)
    requires r < g == Max3(r, g, b)
    requires 0.0 <= hue < 1.0 && 0.0 < sat <= 1.0 && 0.0 <= bri <= 1.0
    requires bri * 255.0 == g as real && sat * g as real == (g - Min3(r, g, b)) as real
    requires var d := (g - Min3(r, g, b)) as real;
             hue * 6.0 == if b < r then 1.0 + (g - r) as real / d else 2.0 + (b - r) as real / d
    ensures HsbToRgb(hue, sat, bri) == Pack(r, g, b)
  {
    var d := g - Min3(r, g, b);
    if b < r {
      SectorCase(hue, sat, bri, 1, g, d, r, g - r);
      assert Arrange(1, g, g - d, r, r) == Pack(r, g, b);
    } else if b < g {
      SectorCase(hue, sat, bri, 2, g, d, b, b - r);
      assert Arrange(2, g, g - d, b, b) == Pack(r, g, b);
    } else {
      assert hue * 6.0 == 3 as real + 0 as real / d as real by { Ratio(b - r, d); }
      SectorCase(hue, sat, bri, 3, g, d, g, 0);
      assert Arrange(3, g, g - d, g, g) == Pack(r, g, b);
    }
  }

  /** The round trip for colours whose blue channel alone is the largest. */
  lemma {:induction false} BlueMaxRoundTrip(r: int, g: int, b: int, hue: real, sat: real, bri: real)
    requires IsChannel(r) && IsChannel(g) && IsChannel(b)
    requires r < b && g < b
    requires 0.0 <= hue < 1.0 && 0.0 < sat <= 1.0 && 0.0 <= bri <= 1.0
    requires bri * 255.0 == b as real && sat * b as real == (b - Min3(r, g, b)) as real
    requires var d := (b - Min3(r, g, b)) as real;
             hue * 6.0 == if r < g then 3.0 + (b - g) as real / d else 4.0 + (r - g) as real / d
    ensures HsbToRgb(hue, sat, bri) == Pack(r, g, b)
  {
    var d := b - Min3(r, g, b);
    if r < g {
      SectorCase(hue, sat, bri, 3, b, d, g, b - g);
      assert Arrange(3, b, b - d, g, g) == Pack(r, g, b);
    } else {
      SectorCase(hue, sat, bri, 4, b, d, r, r - g);
      assert Arrange(4, b, b - d, r, r) == Pack(r, g, b);
    }
  }

  /** The round trip from `RGBtoHSB`'s own fractions when red is the largest channel. */
  lemma RedMaxHsb(r: int, g: int, b: int)
    requires IsChannel(r) && IsChannel(g) && IsChannel(b)
    requires r == Max3(r, g, b) != Min3(r, g, b)
    ensures var f := RgbToHsb(r, g, b);
            HsbToRgb(f.hue, f.saturation, f.brightness) == Pack(r, g, b)
  {
    var f := RgbToHsb(r, g, b);
    NotGrey(r, g, b);
    HueWhenRedMax(r, g, b);
    RedMaxRoundTrip(r, g, b, f.hue, f.saturation, f.brightness);
  }

  /** The round trip from `RGBtoHSB`'s own fractions when green is the largest channel and red is smaller. */
  lemma GreenMaxHsb(r: int, g: int, b: int)
    requires IsChannel(r) && IsChannel(g) && IsChannel(b)
    requires r < g == Max3(r, g, b)
    ensures var f := RgbToHsb(r, g, b);
            HsbToRgb(f.hue, f.saturation, f.brightness) == Pack(r, g, b)
  {
    var f := RgbToHsb(r, g, b);
    NotGrey(r, g, b);
    HueWhenGreenMax(r, g, b);
    GreenMaxRoundTrip(r, g, b, f.hue, f.saturation, f.brightness);
  }

  /** The round trip from `RGBtoHSB`'s own fractions when blue alone is the largest channel. */
  lemma BlueMaxHsb(r: int, g: int, b: int)
    requires IsChannel(r) && IsChannel(g) && IsChannel(b)
    requires r < b && g < b
    ensures var f := RgbToHsb(r, g, b);
            HsbToRgb(f.hue, f.saturation, f.brightness) == Pack(r, g, b)
  {
    var f := RgbToHsb(r, g, b);
    NotGrey(r, g, b);
    HueWhenBlueMax(r, g, b);
    BlueMaxRoundTrip(r, g, b, f.hue, f.saturation, f.brightness);
  }

  /** `HSBtoRGB(RGBtoHSB(r, g, b))` is `(r, g, b)` again, with exact arithmetic. */
  lemma HsbRoundTrip(r: int, g: int, b: int)
    requires IsChannel(r) && IsChannel(g) && IsChannel(b)
    ensures var f := RgbToHsb(r, g, b);
            HsbToRgb(f.hue, f.saturation, f.brightness) == Pack(r, g, b)
  {
    var cmax := Max3(r, g, b);
    if cmax == Min3(r, g, b) {
      ChannelOfWhole(RgbToHsb(r, g, b).brightness, r);
    } else if r == cmax {
      RedMaxHsb(r, g, b);
    } else if g == cmax {
      GreenMaxHsb(r, g, b);
    } else {
      BlueMaxHsb(r, g, b);
    }
  }
}
