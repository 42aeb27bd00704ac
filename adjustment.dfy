/** The `HSB` data class: a signed hue / saturation / brightness delta. Hue is in whole
    degrees (a Kotlin `Int`, so 32-bit and wrapping), saturation and brightness in
    percentage points; all default to zero. */
module Adjustments {

  /** Kotlin's `Int`: 32-bit two's complement. */
  type Int32 = x: int | -0x8000_0000 <= x < 0x8000_0000

  const Modulus: int := 0x1_0000_0000

  /** The `Int` that an exact integer result wraps to: the one congruent to it modulo 2^32. */
  function Wrap(x: int): (w: Int32)
    ensures (x - w) % Modulus == 0
    ensures -0x8000_0000 <= x < 0x8000_0000 ==> w == x
  {
    (x + 0x8000_0000) % Modulus - 0x8000_0000
  }

  /** Wrapping ignores whole multiples of 2^32. */
  lemma WrapShift(x: int, k: int)
    ensures Wrap(x + k * Modulus) == Wrap(x)
  {
    var a := x + 0x8000_0000;
    var q := a / Modulus;
    var r := a % Modulus;
    assert a == q * Modulus + r;
    assert a + k * Modulus == (q + k) * Modulus + r;
    Euclid(a + k * Modulus, q + k, r);
  }

  /** The Euclidean remainder modulo 2^32 of `q * 2^32 + r` is `r`. */
  lemma Euclid(a: int, q: int, r: int)
    requires 0 <= r < Modulus && a == q * Modulus + r
    ensures a % Modulus == r
  {
  }

  /** Wrapping an operand first does not change the wrapped sum. */
  lemma WrapSum(x: int, y: int)
    ensures Wrap(Wrap(x) + y) == Wrap(x + y)
  {
  }

  datatype Hsb = Hsb(hue: Int32, saturation: real, brightness: real)
  {
    /** `HSB.plus`: componentwise sum, the hue wrapping as an `Int` does. `HSB()` leaves
        the other delta as it is. */
    function Plus(other: Hsb): (r: Hsb)
      ensures other == Hsb(0, 0.0, 0.0) ==> r == this
      ensures this == Hsb(0, 0.0, 0.0) ==> r == other
    {
      Hsb(Wrap(hue + other.hue), saturation + other.saturation, brightness + other.brightness)
    }

    /** The copy `Clr.minus` makes: every field negated (`-Int.MIN_VALUE` wraps to
        itself). It cancels the delta under `plus` from either side. */
    function Negated(): (r: Hsb)
      ensures Plus(r) == Hsb(0, 0.0, 0.0) && r.Plus(this) == Hsb(0, 0.0, 0.0)
    {
      var h: int := hue;
      WrapSum(-h, h);
      WrapSum(h, -h);
      Hsb(Wrap(-h), -saturation, -brightness)
    }
  }

  /** `HSB()`, all fields at their defaults. */
  const Zero: Hsb := Hsb(0, 0.0, 0.0)

  /** `plus` is commutative and associative, the hue wrapping included. */
  lemma PlusCommutesAndAssociates(a: Hsb, b: Hsb, c: Hsb)
    ensures a.Plus(b) == b.Plus(a)
    ensures a.Plus(b).Plus(c) == a.Plus(b.Plus(c))
  {
    WrapSum(a.hue + b.hue, c.hue);
    WrapSum(b.hue + c.hue, a.hue);
    assert a.hue + b.hue + c.hue == b.hue + c.hue + a.hue;
  }

  /** Negating twice gives the delta back, `Int.MIN_VALUE` included. That the negation
      cancels the delta under `plus` is `Hsb.Negated`'s own contract. */
  lemma NegatedTwice(a: Hsb)
    ensures a.Negated().Negated() == a
  {
  }

  /** `HSB(hue = Int.MIN_VALUE)` is its own negation: the source's `-hsb.hue` wraps. */
  lemma MinValueIsOwnNegation(a: Hsb)
    requires a == Hsb(-0x8000_0000, 0.0, 0.0)
    ensures a.Negated() == a
  {
  }
}
