/** Hexadecimal text: the digit alphabet, parsing a run of hex digits to a number, and
    the fixed-width lower-case rendering that Kotlin's `Int.toHexString()` produces. */
module HexText {

  predicate IsHexDigit(c: char) {
    ('0' <= c <= '9') || ('a' <= c <= 'f') || ('A' <= c <= 'F')
  }

  predicate IsLowerHexDigit(c: char) {
    ('0' <= c <= '9') || ('a' <= c <= 'f')
  }

  predicate AllHex(s: string) {
    forall i :: 0 <= i < |s| ==> IsHexDigit(s[i])
  }

  predicate AllLowerHex(s: string) {
    forall i :: 0 <= i < |s| ==> IsLowerHexDigit(s[i])
  }

  /** The value of one hex digit, either case. */
  function DigitValue(c: char): (v: nat)
    requires IsHexDigit(c)
    ensures v < 16
    ensures IsLowerHexDigit(c) ==> LowerDigit(v) == c
  {
    if '0' <= c <= '9' then c as int - '0' as int
    else if 'a' <= c <= 'f' then c as int - 'a' as int + 10
    else c as int - 'A' as int + 10
  }

  /** The lower-case digit of a value below 16. */
  function LowerDigit(v: nat): (c: char)
    requires v < 16
    ensures IsLowerHexDigit(c)
  {
    if v < 10 then ('0' as int + v) as char else ('a' as int + v - 10) as char
  }

  function ToLower(c: char): (d: char)
    requires IsHexDigit(c)
    ensures IsLowerHexDigit(d) && DigitValue(d) == DigitValue(c)
  {
    if 'A' <= c <= 'F' then (c as int - 'A' as int + 'a' as int) as char else c
  }

  /** A hex string with its upper-case letters lowered. */
  function Lowered(s: string): (t: string)
    requires AllHex(s)
    ensures |t| == |s| && AllLowerHex(t)
  {
    seq(|s|, i requires 0 <= i < |s| => ToLower(s[i]))
  }

  function Pow16(n: nat): (p: nat)
    ensures p >= 1
  {
    if n == 0 then 1 else 16 * Pow16(n - 1)
  }

  /** The number a run of hex digits denotes, most significant digit first
      (what `Integer.parseInt(s, 16)` computes before its overflow check). */
  function ParseHex(s: string): (v: nat)
    requires AllHex(s)
    ensures v < Pow16(|s|)
  {
    if s == [] then 0 else ParseHex(s[..|s| - 1]) * 16 + DigitValue(s[|s| - 1])
  }

  /** The lowest `width` hex digits of `v`, lower case, zero-padded on the left. */
  function Fixed(v: nat, width: nat): (s: string)
    ensures |s| == width && AllLowerHex(s) && AllHex(s)
  {
    if width == 0 then [] else Fixed(v / 16, width - 1) + [LowerDigit(v % 16)]
  }

  /** Kotlin's `Int.toHexString()` with the default format: the 32-bit two's-complement
      pattern of `x` as exactly eight lower-case hex digits. */
  function IntToHexString(x: int): (s: string)
    requires -0x8000_0000 <= x < 0x8000_0000
    ensures |s| == 8 && AllLowerHex(s)
    ensures ParseHex(s) == (if x < 0 then x + 0x1_0000_0000 else x)
  {
    var u := if x < 0 then x + 0x1_0000_0000 else x;
    assert Pow16(8) == 0x1_0000_0000 by { Pow16Values(8); }
    ParseFixed(u, 8);
    Fixed(u, 8)
  }

  /** `ParseHex` on a prefix one digit longer: the shorter prefix's value, times 16,
      plus the new digit. */
  lemma ParseHexStep(s: string, k: nat)
    requires AllHex(s) && k < |s|
    ensures ParseHex(s[..k + 1]) == ParseHex(s[..k]) * 16 + DigitValue(s[k])
  {
    assert s[..k + 1][..k] == s[..k];
  }

  /** Unfolds `Pow16` far enough for concrete widths. */
  lemma Pow16Values(n: nat)
    requires n <= 8
    ensures Pow16(n) == [1, 0x10, 0x100, 0x1000, 0x1_0000, 0x10_0000, 0x100_0000, 0x1000_0000, 0x1_0000_0000][n]
  {
    if n > 0 { Pow16Values(n - 1); }
  }

  /** Rendering a value that fits and parsing it back gives the value. */
  lemma {:induction false} ParseFixed(v: nat, width: nat)
    requires v < Pow16(width)
    ensures ParseHex(Fixed(v, width)) == v
  {
    if width > 0 {
      var s := Fixed(v, width);
      assert s[..width - 1] == Fixed(v / 16, width - 1);
      assert s[width - 1] == LowerDigit(v % 16);
      ParseFixed(v / 16, width - 1);
    }
  }

  /** Parsing digits and rendering them at their own width gives the digits, lowered. */
  lemma {:induction false} FixedParse(s: string)
    requires AllHex(s)
    ensures Fixed(ParseHex(s), |s|) == Lowered(s)
  {
    if s != [] {
      var n := |s|;
      var init := s[..n - 1];
      var d := DigitValue(s[n - 1]);
      var v := ParseHex(s);
      assert v / 16 == ParseHex(init) && v % 16 == d;
      FixedParse(init);
      assert LowerDigit(d) == ToLower(s[n - 1]);
      assert Lowered(s) == Lowered(init) + [ToLower(s[n - 1])];
    }
  }

  /** The digits of `hi * 16^k + lo` (with `lo < 16^k`) are those of `hi` followed by
      the `k` digits of `lo`. */
  lemma {:induction false} FixedSplit(hi: nat, lo: nat, m: nat, k: nat)
    requires lo < Pow16(k)
    ensures Fixed(hi * Pow16(k) + lo, m + k) == Fixed(hi, m) + Fixed(lo, k)
  {
    if k > 0 {
      var p := Pow16(k - 1);
      var a := hi * p;
      var v := hi * Pow16(k) + lo;
      assert v == 16 * a + lo by {
        assert Pow16(k) == 16 * p;
        assert hi * (16 * p) == 16 * (hi * p);
      }
      ShiftDigit(a, lo, p);
      FixedSplit(hi, lo / 16, m, k - 1);
      calc {
        Fixed(v, m + k);
        Fixed(a + lo / 16, m + k - 1) + [LowerDigit(lo % 16)];
        Fixed(hi, m) + Fixed(lo / 16, k - 1) + [LowerDigit(lo % 16)];
        Fixed(hi, m) + Fixed(lo, k);
      }
    }
  }

  /** Dropping the last hex digit of `16 * a + lo`, with `lo < 16 * p`. */
  lemma ShiftDigit(a: nat, lo: nat, p: nat)
    requires lo < 16 * p
    ensures (16 * a + lo) / 16 == a + lo / 16 && (16 * a + lo) % 16 == lo % 16
    ensures lo / 16 < p
  {
  }
}
