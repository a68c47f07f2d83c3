/** Fixed-width upper-case hexadecimal rendering (what `String.format("%02X")`,
    `"%04X"` and `"%08X"` produce for a value that fits the width), its decoder,
    and the two codec helpers the keyboard builder consumes: ASCII-to-hex
    conversion and the hex-input test. */
module Hex {

  type Byte = v: nat | v < 0x100
  type Word = v: nat | v < 0x1_0000

  predicate IsHexDigit(c: char) {
    '0' <= c <= '9' || 'A' <= c <= 'F' || 'a' <= c <= 'f'
  }

  predicate IsHex(s: string) {
    forall k :: 0 <= k < |s| ==> IsHexDigit(s[k])
  }

  predicate IsUpperHex(s: string) {
    forall k :: 0 <= k < |s| ==> '0' <= s[k] <= '9' || 'A' <= s[k] <= 'F'
  }

  function DigitValue(c: char): (d: nat)
    requires IsHexDigit(c)
    ensures d < 16
  {
    if '0' <= c <= '9' then c as int - '0' as int
    else if 'A' <= c <= 'F' then c as int - 'A' as int + 10
    else c as int - 'a' as int + 10
  }

  /** The upper-case digit for `d`; `DigitValue` reads it back. */
  function HexDigit(d: nat): (c: char)
    requires d < 16
    ensures '0' <= c <= '9' || 'A' <= c <= 'F'
    ensures DigitValue(c) == d
  {
    if d < 10 then ('0' as int + d) as char else ('A' as int + d - 10) as char
  }

  function Pow16(n: nat): (p: nat)
    ensures p >= 1
  {
    if n == 0 then 1 else 16 * Pow16(n - 1)
  }

  /** The number a string of hex digits denotes, most significant digit first. */
  function HexValue(s: string): (v: nat)
    requires IsHex(s)
    ensures v < Pow16(|s|)
    decreases |s|
  {
    if s == [] then 0
    else
      assert IsHex(s[..|s| - 1]);
      HexValue(s[..|s| - 1]) * 16 + DigitValue(s[|s| - 1])
  }

  /** Decoding a concatenation: the left digits are worth `16^|b|` each. */
  lemma {:induction false} HexValueConcat(a: string, b: string)
    requires IsHex(a) && IsHex(b)
    ensures IsHex(a + b)
    ensures HexValue(a + b) == HexValue(a) * Pow16(|b|) + HexValue(b)
    decreases |b|
  {
    if b == [] {
      assert a + b == a;
    } else {
      var b' := b[..|b| - 1];
      var d := DigitValue(b[|b| - 1]);
      assert IsHex(b');
      HexValueConcat(a, b');
      assert (a + b)[..|a + b| - 1] == a + b';
      var x, y, p := HexValue(a), HexValue(b'), Pow16(|b'|);
      calc {
        HexValue(a + b);
        HexValue(a + b') * 16 + d;
        (x * p + y) * 16 + d;
        { ShiftDigit(x, y, p, d); }
        x * (16 * p) + (y * 16 + d);
        { assert Pow16(|b|) == 16 * p && HexValue(b) == y * 16 + d; }
        x * Pow16(|b|) + HexValue(b);
      }
    }
  }

  lemma ShiftDigit(x: int, y: int, p: int, d: int)
    ensures (x * p + y) * 16 + d == x * (16 * p) + (y * 16 + d)
  {
  }

  /** `%02X` of a byte: its high and its low digit. */
  function Hex2(v: Byte): (s: string)
    ensures |s| == 2
  {
    [HexDigit(v / 16), HexDigit(v % 16)]
  }

  /** `%02X` writes upper-case digits that read back as the byte rendered. */
  lemma Hex2Value(v: Byte)
    ensures IsUpperHex(Hex2(v)) && IsHex(Hex2(v)) && HexValue(Hex2(v)) == v
  {
    var s := Hex2(v);
    assert s[..1] == [HexDigit(v / 16)] && [HexDigit(v / 16)][..0] == [];
  }

  /** `%04X` of a 16-bit value: its high byte, then its low byte. */
  function Hex4(v: Word): (s: string)
    ensures |s| == 4
  {
    Hex2(v / 0x100) + Hex2(v % 0x100)
  }

  /** `%04X` writes upper-case digits that read back as the value rendered. */
  lemma Hex4Value(v: Word)
    ensures IsUpperHex(Hex4(v)) && IsHex(Hex4(v)) && HexValue(Hex4(v)) == v
  {
    var hi, lo := v / 0x100, v % 0x100;
    Hex2Value(hi);
    Hex2Value(lo);
    HexValueConcat(Hex2(hi), Hex2(lo));
    assert Pow16(2) == 0x100 && v == hi * 0x100 + lo;
  }

  /** `%08X` of a 32-bit value: its high half, then its low half. */
  function Hex8(v: nat): (s: string)
    requires v < 0x1_0000_0000
    ensures |s| == 8
  {
    Hex4(v / 0x1_0000) + Hex4(v % 0x1_0000)
  }

  /** `%08X` writes upper-case digits that read back as the value rendered. */
  lemma Hex8Value(v: nat)
    requires v < 0x1_0000_0000
    ensures IsUpperHex(Hex8(v)) && IsHex(Hex8(v)) && HexValue(Hex8(v)) == v
  {
    var hi, lo := v / 0x1_0000, v % 0x1_0000;
    Hex4Value(hi);
    Hex4Value(lo);
    HexValueConcat(Hex4(hi), Hex4(lo));
    assert Pow16(4) == 0x1_0000 && v == hi * 0x1_0000 + lo;
  }

  /** Equal renderings come from equal values: the digits determine the byte. */
  lemma Hex2Injective(v: Byte, w: Byte)
    ensures Hex2(v) == Hex2(w) <==> v == w
  {
    if Hex2(v) == Hex2(w) {
      Hex2Value(v);
      Hex2Value(w);
      assert HexValue(Hex2(v)) == HexValue(Hex2(w));
    }
  }

  function UpperChar(c: char): char {
    if 'a' <= c <= 'z' then (c as int - 32) as char else c
  }

  /** `String.toUpperCase` restricted to ASCII letters. */
  function Upper(s: string): (u: string)
    ensures |u| == |s|
    ensures forall k :: 0 <= k < |u| ==> !('a' <= u[k] <= 'z')
  {
    seq(|s|, k requires 0 <= k < |s| => UpperChar(s[k]))
  }

  lemma UpperIdempotent(s: string)
    ensures Upper(Upper(s)) == Upper(s)
  {
  }

  /** Upper-casing hex text changes neither its digits' validity nor the
      value they denote. */
  lemma {:induction false} UpperKeepsHexValue(s: string)
    requires IsHex(s)
    ensures IsHex(Upper(s)) && IsUpperHex(Upper(s))
    ensures HexValue(Upper(s)) == HexValue(s)
    decreases |s|
  {
    if s != [] {
      var p := s[..|s| - 1];
      assert IsHex(p);
      UpperKeepsHexValue(p);
      assert Upper(s)[..|s| - 1] == Upper(p);
    }
  }

  lemma UpperOfUpperHex(s: string)
    requires IsUpperHex(s)
    ensures Upper(s) == s
  {
  }

  /** The ASCII-to-hex codec: two upper-case digits per character, for the
      character's low byte. */
  function AsciiToHex(text: string): (h: string)
    ensures |h| == 2 * |text| && IsUpperHex(h)
  {
    if text == [] then []
    else
      Hex2Value(text[0] as int % 0x100);
      Hex2(text[0] as int % 0x100) + AsciiToHex(text[1..])
  }

  lemma {:induction false} AsciiToHexConcat(a: string, b: string)
    ensures AsciiToHex(a + b) == AsciiToHex(a) + AsciiToHex(b)
    decreases |a|
  {
    if a != [] {
      assert (a + b)[0] == a[0] && (a + b)[1..] == a[1..] + b;
      AsciiToHexConcat(a[1..], b);
      var h := Hex2(a[0] as int % 0x100);
      calc {
        AsciiToHex(a + b);
        h + AsciiToHex(a[1..] + b);
        h + (AsciiToHex(a[1..]) + AsciiToHex(b));
        (h + AsciiToHex(a[1..])) + AsciiToHex(b);
      }
    } else {
      assert a + b == b;
    }
  }

  /** The hex-input test used to validate a diversifier: an even number of
      hex digits. */
  predicate IsHexInput(s: string) {
    |s| % 2 == 0 && IsHex(s)
  }
}
