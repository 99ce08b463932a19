/**
  Byte strings, 32-byte hashes and their hexadecimal text.

  Hashes and targets are compared as text (`a.Hex() <= b.Hex()`); `HexOrder` says what that means for the numbers.
*/
module Byte32 {

  type byte = x: int | 0 <= x < 256

  type Hash = b: seq<byte> | |b| == 32 witness seq(32, _ => 0)

  /** The zero hash. */
  const ZERO: Hash := Zeros(32)

  function Zeros(n: nat): (b: seq<byte>)
    ensures |b| == n && forall i | 0 <= i < n :: b[i] == 0
  {
    if n == 0 then [] else [0] + Zeros(n - 1)
  }

  function Reverse(b: seq<byte>): (r: seq<byte>)
    ensures |r| == |b|
    ensures forall i | 0 <= i < |b| :: r[i] == b[|b| - 1 - i]
  {
    if b == [] then [] else Reverse(b[1..]) + [b[0]]
  }

  lemma ReverseInvolutive(b: seq<byte>)
    ensures Reverse(Reverse(b)) == b
  {
  }

  // ---- Big-endian value ----

  function Pow256(k: nat): (p: nat)
    ensures p >= 1
  {
    if k == 0 then 1 else 256 * Pow256(k - 1)
  }

  /** `new(big.Int).SetBytes(b)`. */
  function Value(b: seq<byte>): (v: nat)
    ensures v < Pow256(|b|)
  {
    if b == [] then 0
    else
      ScaledBound(b[0], Value(b[1..]), Pow256(|b| - 1));
      b[0] * Pow256(|b| - 1) + Value(b[1..])
  }

  lemma ScaledBound(d: byte, v: nat, p: nat)
    requires v < p
    ensures 0 <= d * p + v < 256 * p
  {
    assert d * p <= 255 * p;
  }

  // ---- Hexadecimal text ----

  const DIGITS: string := "0123456789abcdef"

  /** `hex.EncodeToString`: two lower-case digits a byte. */
  function Hex(b: seq<byte>): (s: string)
    ensures |s| == 2 * |b|
  {
    if b == [] then "" else [DIGITS[b[0] / 16], DIGITS[b[0] % 16]] + Hex(b[1..])
  }

  function DigitValue(c: char): (d: int)
    ensures -1 <= d < 16
  {
    if '0' <= c <= '9' then (c as int) - ('0' as int)
    else if 'a' <= c <= 'f' then (c as int) - ('a' as int) + 10
    else if 'A' <= c <= 'F' then (c as int) - ('A' as int) + 10
    else -1
  }

  datatype Decoded = Bytes(bytes: seq<byte>) | InvalidHex

  /** `hex.DecodeString`: both cases of digits are accepted, an odd length or another character is an error. */
  function DecodeHex(s: string): (r: Decoded)
    ensures r.Bytes? ==> |s| == 2 * |r.bytes|
  {
    if s == "" then Bytes([])
    else if |s| == 1 then InvalidHex
    else
      var hi, lo := DigitValue(s[0]), DigitValue(s[1]);
      if hi < 0 || lo < 0 then InvalidHex
      else
        match DecodeHex(s[2..])
        case InvalidHex => InvalidHex
        case Bytes(rest) => Bytes([hi * 16 + lo] + rest)
  }

  function LowerDigit(c: char): char {
    if 'A' <= c <= 'F' then (c as int + 32) as char else c
  }

  function Lower(s: string): (t: string)
    ensures |t| == |s|
  {
    if s == "" then "" else [LowerDigit(s[0])] + Lower(s[1..])
  }

  lemma {:induction false} DecodeOfHex(b: seq<byte>)
    ensures DecodeHex(Hex(b)) == Bytes(b)
  {
    if b != [] {
      DecodeOfHex(b[1..]);
      HexParts(b);
      hide *;
      DecodePair(Hex(b), b[1..]);
    }
  }

  lemma HexParts(b: seq<byte>)
    requires b != []
    ensures var s := Hex(b);
            && s[2..] == Hex(b[1..]) && DigitValue(s[0]) >= 0 && DigitValue(s[1]) >= 0
            && 16 * DigitValue(s[0]) + DigitValue(s[1]) == b[0]
  {
    DigitRoundTrip(b[0] / 16);
    DigitRoundTrip(b[0] % 16);
    hide DigitValue;
  }

  /** A text that begins with two digits and goes on with a text of bytes. */
  lemma DecodePair(s: string, rest: seq<byte>)
    requires |s| >= 2 && DigitValue(s[0]) >= 0 && DigitValue(s[1]) >= 0 && DecodeHex(s[2..]) == Bytes(rest)
    ensures DecodeHex(s) == Bytes([16 * DigitValue(s[0]) + DigitValue(s[1])] + rest)
  {
    hide DigitValue;
  }

  lemma DigitRoundTrip(d: nat)
    requires d < 16
    ensures DigitValue(DIGITS[d]) == d
  {
  }

  /** Printing what was decoded gives the text back, with its digits in lower case. */
  lemma {:induction false} HexOfDecode(s: string)
    requires DecodeHex(s).Bytes?
    ensures Hex(DecodeHex(s).bytes) == Lower(s)
  {
    if s != "" {
      HexOfDecode(s[2..]);
      var b := DecodeHex(s).bytes;
      assert b[1..] == DecodeHex(s[2..]).bytes;
      assert b[0] / 16 == DigitValue(s[0]) && b[0] % 16 == DigitValue(s[1]);
      LowerDigitRoundTrip(s[0]);
      LowerDigitRoundTrip(s[1]);
      assert Lower(s) == [LowerDigit(s[0])] + ([LowerDigit(s[1])] + Lower(s[1..][1..]));
      assert s[1..][1..] == s[2..];
    }
  }

  lemma LowerDigitRoundTrip(c: char)
    requires DigitValue(c) >= 0
    ensures DIGITS[DigitValue(c)] == LowerDigit(c)
  {
  }

  // ---- The order of the text is the order of the numbers ----

  lemma {:induction false} HexConcat(a: seq<byte>, b: seq<byte>)
    ensures Hex(a + b) == Hex(a) + Hex(b)
  {
    if a == [] {
      assert a + b == b;
    } else {
      assert (a + b)[1..] == a[1..] + b;
      HexConcat(a[1..], b);
    }
  }

  lemma HexInjective(a: seq<byte>, b: seq<byte>)
    requires Hex(a) == Hex(b)
    ensures a == b
  {
    DecodeOfHex(a);
    DecodeOfHex(b);
  }

  /** Go's `s <= t` on strings. */
  predicate StringLeq(s: string, t: string) {
    s == "" || (t != "" && (s[0] < t[0] || (s[0] == t[0] && StringLeq(s[1..], t[1..]))))
  }

  /** On texts of equal length, comparing the hexadecimal strings compares the big-endian numbers. */
  lemma {:induction false} HexOrder(a: seq<byte>, b: seq<byte>)
    requires |a| == |b|
    ensures StringLeq(Hex(a), Hex(b)) <==> Value(a) <= Value(b)
  {
    if a != [] {
      var sa, sb := Hex(a), Hex(b);
      assert sa[1..][1..] == Hex(a[1..]) && sb[1..][1..] == Hex(b[1..]);
      DigitOrder(a[0] / 16, b[0] / 16);
      DigitOrder(a[0] % 16, b[0] % 16);
      assert StringLeq(sa, sb) <==> a[0] < b[0] || (a[0] == b[0] && StringLeq(Hex(a[1..]), Hex(b[1..]))) by {
        assert StringLeq(sa, sb) <==> sa[0] < sb[0] || (sa[0] == sb[0] && StringLeq(sa[1..], sb[1..]));
        assert StringLeq(sa[1..], sb[1..]) <==>
               sa[1] < sb[1] || (sa[1] == sb[1] && StringLeq(sa[1..][1..], sb[1..][1..]));
      }
      HexOrder(a[1..], b[1..]);
      LeadingByteDecides(a[0], Value(a[1..]), b[0], Value(b[1..]), Pow256(|a| - 1));
    }
  }

  lemma DigitOrder(d: nat, e: nat)
    requires d < 16 && e < 16
    ensures DIGITS[d] < DIGITS[e] <==> d < e
    ensures DIGITS[d] == DIGITS[e] <==> d == e
  {
  }

  lemma LeadingByteDecides(d: int, v: nat, e: int, w: nat, p: nat)
    requires v < p && w < p
    ensures d * p + v <= e * p + w <==> d < e || (d == e && v <= w)
  {
    if d < e {
      StepUp(d, e, p);
    } else if e < d {
      StepUp(e, d, p);
    }
  }

  lemma StepUp(d: int, e: int, p: nat)
    requires d < e
    ensures d * p + p <= e * p
  {
    var gap := e - d - 1;
    assert e * p == (d + 1 + gap) * p == d * p + p + gap * p;
  }

  /** Different hashes have different texts, so the text order is antisymmetric. */
  lemma {:induction false} ValueInjective(a: seq<byte>, b: seq<byte>)
    requires |a| == |b| && Value(a) == Value(b)
    ensures a == b
  {
    if a != [] {
      LeadingByteDecides(a[0], Value(a[1..]), b[0], Value(b[1..]), Pow256(|a| - 1));
      LeadingByteDecides(b[0], Value(b[1..]), a[0], Value(a[1..]), Pow256(|a| - 1));
      ValueInjective(a[1..], b[1..]);
      assert a == [a[0]] + a[1..] && b == [b[0]] + b[1..];
    }
  }

  lemma ValueOfFour(x: byte, y: byte, z: byte, w: byte)
    ensures Value([x, y, z, w]) == x as int * 0x100_0000 + y as int * 0x1_0000 + z as int * 0x100 + w as int
  {
    assert [x, y, z, w][1..] == [y, z, w] && [y, z, w][1..] == [z, w] && [z, w][1..] == [w];
    assert Pow256(0) == 1;
    assert Pow256(1) == 0x100;
    assert Pow256(2) == 0x1_0000;
    assert Pow256(3) == 0x100_0000;
    assert Value([w]) == w as int;
    assert Value([z, w]) == z as int * 0x100 + w as int;
    assert Value([y, z, w]) == y as int * 0x1_0000 + z as int * 0x100 + w as int;
  }
}
