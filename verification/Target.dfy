/**
  Targets as text: the 64-digit form and the 8-digit compact form, and the conversions between them.
*/
module Target {
  import opened Bits
  import opened Byte32
  import opened Compact

  datatype Converted = Text(text: string) | Failed

  // ---- Number formatting ----

  /** `big.Int.Text(16)` of a non-negative number, and `%x`. */
  function HexDigits(n: nat): (s: string)
    ensures |s| >= 1
  {
    if n < 16 then [DIGITS[n]] else HexDigits(n / 16) + [DIGITS[n % 16]]
  }

  function Text16(n: int): string {
    if n < 0 then "-" + HexDigits(-n) else HexDigits(n)
  }

  /** The `0` flag with a width. */
  function PadZeros(s: string, width: nat): (t: string)
    ensures |t| == if |s| >= width then |s| else width
    decreases width - |s|
  {
    if |s| >= width then s else PadZeros("0" + s, width)
  }

  datatype Number = Parsed(n: nat) | Malformed

  /** The number a text of hexadecimal digits stands for. */
  function HexNumber(s: string): Number {
    if s == "" then Parsed(0)
    else
      var d := DigitValue(s[|s| - 1]);
      match HexNumber(s[..|s| - 1])
      case Malformed => Malformed
      case Parsed(n) => if d < 0 then Malformed else Parsed(16 * n + d)
  }

  /** `strconv.ParseUint(s, 16, 32)`: no empty text, only digits, and no value above 2^32 - 1. */
  function ParseUint32(s: string): (r: Number)
    ensures r.Parsed? ==> r.n < TWO32
  {
    if s == "" then Malformed
    else
      var r := HexNumber(s);
      if r.Parsed? && r.n >= TWO32 then Malformed else r
  }

  function BitsToTarget(bits: string): Converted {
    match ParseUint32(bits)
    case Malformed => Failed
    case Parsed(bitsNum) => Text(PadZeros(Text16(CompactToBig(bitsNum)), 64))
  }

  function TargetToBits(target: string): Converted {
    match DecodeHex(target)
    case InvalidHex => Failed
    case Bytes(targetBytes) => Text(CompactText(BigToCompact(Value(targetBytes))))
  }

  /** A compact form as eight digits. */
  function CompactText(c: u32): string {
    PadZeros(HexDigits(c), 8)
  }

  // ---- Formatting and reading are inverse ----

  lemma {:induction false} NumberOfDigits(n: nat)
    ensures HexNumber(HexDigits(n)) == Parsed(n)
  {
    var s := HexDigits(n);
    DigitRoundTrip(n % 16);
    if n < 16 {
      assert s[..|s| - 1] == "";
    } else {
      NumberOfDigits(n / 16);
      assert s[..|s| - 1] == HexDigits(n / 16);
    }
  }

  lemma {:induction false} LeadingZero(s: string)
    ensures HexNumber("0" + s) == HexNumber(s)
  {
    if s == "" {
      assert ("0" + s)[..0] == "";
    } else {
      LeadingZero(s[..|s| - 1]);
      assert ("0" + s)[..|s|] == "0" + s[..|s| - 1];
    }
  }

  lemma {:induction false} PaddingKeepsNumber(s: string, width: nat)
    ensures HexNumber(PadZeros(s, width)) == HexNumber(s)
    decreases width - |s|
  {
    if |s| < width {
      PaddingKeepsNumber("0" + s, width);
      LeadingZero(s);
    }
  }

  lemma {:induction false} DigitsFit(n: nat, k: nat)
    requires n < Pow256(k) && k > 0
    ensures |HexDigits(n)| <= 2 * k
  {
    if n >= 256 {
      DigitsFit(n / 256, k - 1);
      assert n / 16 / 16 == n / 256;
    }
  }

  // ---- Bytes and digits stand for the same number ----

  lemma {:induction false} ValueAppend(b: seq<byte>, x: byte)
    ensures Value(b + [x]) == 256 * Value(b) + x
  {
    if b == [] {
      assert [x][1..] == [];
    } else {
      ValueAppend(b[1..], x);
      assert (b + [x])[1..] == b[1..] + [x];
      Associate(256, b[0], Pow256(|b| - 1));
      Commute(256, b[0]);
      Associate(b[0], 256, Pow256(|b| - 1));
      Pow256Step(|b| - 1);
    }
  }

  lemma {:induction false} DecodeAppend(s: string, hi: char, lo: char)
    requires DecodeHex(s).Bytes? && DigitValue(hi) >= 0 && DigitValue(lo) >= 0
    ensures DecodeHex(s + [hi, lo]) == Bytes(DecodeHex(s).bytes + [16 * DigitValue(hi) + DigitValue(lo)])
  {
    var t := s + [hi, lo];
    if s == "" {
      assert t[2..] == "";
    } else {
      DecodeAppend(s[2..], hi, lo);
      assert t[2..] == s[2..] + [hi, lo];
    }
  }

  /** A text of an even number of digits decodes to bytes with the same value; any other text does not decode. */
  lemma {:induction false} DecodedValue(s: string)
    ensures DecodeHex(s).Bytes? <==> |s| % 2 == 0 && HexNumber(s).Parsed?
    ensures DecodeHex(s).Bytes? ==> HexNumber(s) == Parsed(Value(DecodeHex(s).bytes))
    decreases |s|
  {
    if |s| >= 2 {
      var front, hi, lo := s[..|s| - 2], s[|s| - 2], s[|s| - 1];
      DecodedValue(front);
      TwoDigits(front, hi, lo);
      assert s == front + [hi, lo];
      if DecodeHex(front).Bytes? && DigitValue(hi) >= 0 && DigitValue(lo) >= 0 {
        DecodeAppend(front, hi, lo);
        ValueAppend(DecodeHex(front).bytes, 16 * DigitValue(hi) + DigitValue(lo));
      } else {
        DecodeFailsAppend(front, hi, lo);
      }
    } else if |s| == 1 {
      assert s[..0] == "";
    }
  }

  predicate IsDigit(c: char) {
    '0' <= c <= '9' || 'a' <= c <= 'f' || 'A' <= c <= 'F'
  }

  /** Which texts are read as hexadecimal at all: digits of either case and nothing else. */
  lemma {:induction false} NumberReadsIff(s: string)
    ensures HexNumber(s).Parsed? <==> forall c | c in s :: IsDigit(c)
  {
    if s != "" {
      var front, last := s[..|s| - 1], s[|s| - 1];
      NumberReadsIff(front);
      assert s == front + [last];
      assert DigitValue(last) >= 0 <==> IsDigit(last);
      assert HexNumber(s).Parsed? <==> HexNumber(front).Parsed? && DigitValue(last) >= 0;
    }
  }

  /** Bytes need an even number of digits, and a 32-bit number at least one digit and no more than 32 bits. */
  lemma TextsAreReadIff(s: string)
    ensures DecodeHex(s).Bytes? <==> |s| % 2 == 0 && forall c | c in s :: IsDigit(c)
    ensures ParseUint32(s).Parsed? ==> ParseUint32(s) == HexNumber(s)
    ensures ParseUint32(s).Parsed? <==>
            && |s| > 0 && (forall c | c in s :: IsDigit(c))
            && HexNumber(s) != Malformed && HexNumber(s).n < 0x1_0000_0000
  {
    NumberReadsIff(s);
    DecodedValue(s);
    hide HexNumber, DecodeHex, IsDigit;
  }

  lemma TwoDigits(s: string, hi: char, lo: char)
    ensures HexNumber(s + [hi, lo]) ==
            if HexNumber(s).Malformed? || DigitValue(hi) < 0 || DigitValue(lo) < 0 then Malformed
            else Parsed(256 * HexNumber(s).n + (16 * DigitValue(hi) + DigitValue(lo)))
  {
    var t := s + [hi, lo];
    assert t[..|t| - 1] == s + [hi];
    assert (s + [hi])[..|s|] == s;
  }

  lemma {:induction false} DecodeFailsAppend(s: string, hi: char, lo: char)
    requires !(DecodeHex(s).Bytes? && DigitValue(hi) >= 0 && DigitValue(lo) >= 0)
    ensures DecodeHex(s + [hi, lo]).InvalidHex?
  {
    var t := s + [hi, lo];
    if |s| >= 2 {
      assert t[2..] == s[2..] + [hi, lo];
      if !(DecodeHex(s[2..]).Bytes? && DigitValue(hi) >= 0 && DigitValue(lo) >= 0) {
        DecodeFailsAppend(s[2..], hi, lo);
      }
    } else if |s| == 1 {
      assert |t[2..]| == 1;
    } else {
      assert t[2..] == "";
    }
  }

  // ---- Lower case ----

  lemma {:induction false} LowerAppend(s: string, t: string)
    ensures Lower(s + t) == Lower(s) + Lower(t)
  {
    if s == "" {
      assert s + t == t;
    } else {
      assert (s + t)[1..] == s[1..] + t;
      LowerAppend(s[1..], t);
    }
  }

  lemma LowerOfDigit(d: nat)
    requires d < 16
    ensures Lower([DIGITS[d]]) == [DIGITS[d]]
  {
    assert [DIGITS[d]][1..] == "";
  }

  lemma {:induction false} DigitsAreLower(n: nat)
    ensures Lower(HexDigits(n)) == HexDigits(n)
  {
    LowerOfDigit(n % 16);
    if n >= 16 {
      DigitsAreLower(n / 16);
      LowerAppend(HexDigits(n / 16), [DIGITS[n % 16]]);
    }
  }

  lemma {:induction false} PaddingIsLower(s: string, width: nat)
    requires Lower(s) == s
    ensures Lower(PadZeros(s, width)) == PadZeros(s, width)
    decreases width - |s|
  {
    if |s| < width {
      LowerOfDigit(0);
      LowerAppend("0", s);
      PaddingIsLower("0" + s, width);
    }
  }

  // ---- Round trips on the texts ----

  /** The eight-digit text of a form reads back as that form. */
  lemma CompactTextReads(c: u32)
    ensures |CompactText(c)| == 8 && ParseUint32(CompactText(c)) == Parsed(c)
  {
    NumberOfDigits(c);
    PaddingKeepsNumber(HexDigits(c), 8);
    assert Pow256(4) == TWO32;
    DigitsFit(c, 4);
  }

  /** The 64-digit text of a number: what it reads as, and when it has exactly 64 digits. */
  lemma TargetTextReads(n: nat)
    ensures var t := PadZeros(HexDigits(n), 64);
            && HexNumber(t) == Parsed(n) && Lower(t) == t
            && (n < Pow256(32) ==> |t| == 64)
            && (DecodeHex(t).Bytes? <==> |t| % 2 == 0)
            && (DecodeHex(t).Bytes? ==> Value(DecodeHex(t).bytes) == n)
  {
    NumberOfDigits(n);
    PaddingKeepsNumber(HexDigits(n), 64);
    DigitsAreLower(n);
    PaddingIsLower(HexDigits(n), 64);
    if n < Pow256(32) {
      DigitsFit(n, 32);
    }
    DecodedValue(PadZeros(HexDigits(n), 64));
  }

  lemma BitsToTargetOfForm(c: u32)
    requires CompactToBig(c) >= 0
    ensures BitsToTarget(CompactText(c)) == Text(PadZeros(HexDigits(CompactToBig(c)), 64))
  {
    hide CompactToBig, CompactText, HexDigits, PadZeros;
    CompactTextReads(c);
  }

  /**
    From the compact text to the target text and back: every canonical form comes back, provided its target has an even
    number of digits, which includes all targets below 2^256 (these have exactly 64).
  */
  lemma BitsRoundTrip(c: u32) returns (target: string)
    requires Canonical(c)
    ensures BitsToTarget(CompactText(c)) == Text(target)
    ensures CompactToBig(c) >= 0 && target == PadZeros(HexDigits(CompactToBig(c)), 64)
    ensures HexNumber(target) == Parsed(CompactToBig(c))
    ensures CompactToBig(c) < Pow256(32) ==> |target| == 64
    ensures TargetToBits(target) == if |target| % 2 == 0 then Text(CompactText(c)) else Failed
  {
    hide CompactToBig, BigToCompact, CompactText, HexDigits, PadZeros, DecodeHex, Value, HexNumber, Canonical, Pow256,
         BitsToTarget;
    EncodeOfDecode(c);
    BitsToTargetOfForm(c);
    TargetTextReads(CompactToBig(c));
    target := PadZeros(HexDigits(CompactToBig(c)), 64);
  }

  /**
    From a 64-digit target to its compact text and back: the result has 64 digits again, is not above the target in the
    text order used for targets, and stands for the greatest number not above the target that a compact form reaches.
  */
  lemma TargetRoundTrip(target: string, n: nat) returns (bits: string, rounded: string)
    requires |target| == 64 && DecodeHex(target).Bytes? && n == Value(DecodeHex(target).bytes)
    ensures TargetToBits(target) == Text(bits) && BitsToTarget(bits) == Text(rounded)
    ensures |rounded| == 64 && StringLeq(rounded, Lower(target))
    ensures HexNumber(rounded).Parsed? && HexNumber(rounded).n <= n
    ensures forall d: u32 :: CompactToBig(d) <= n ==> CompactToBig(d) <= HexNumber(rounded).n
    ensures TargetToBits(rounded) == Text(bits)
  {
    hide CompactToBig, BigToCompact, CompactText, HexDigits, PadZeros, DecodeHex, Value, HexNumber, Canonical, Pow256,
         BitsToTarget, Lower, StringLeq, Hex;
    SmallTargets(n);
    GreatestRepresentable(n);
    EncodeIsCanonical(n);
    var c := BigToCompact(n);
    bits := CompactText(c);
    rounded := BitsRoundTrip(c);
    RoundedIsNotAbove(target, rounded, CompactToBig(c));
  }

  lemma RoundedIsNotAbove(target: string, rounded: string, v: nat)
    requires |target| == |rounded| == 64 && DecodeHex(target).Bytes? && v <= Value(DecodeHex(target).bytes)
    requires rounded == PadZeros(HexDigits(v), 64)
    ensures StringLeq(rounded, Lower(target))
  {
    hide HexDigits, PadZeros, DecodeHex, Value, HexNumber, Lower, StringLeq, Hex;
    TargetTextReads(v);
    HexOfDecode(rounded);
    HexOfDecode(target);
    HexOrder(DecodeHex(rounded).bytes, DecodeHex(target).bytes);
  }

  lemma SmallTargets(n: nat)
    requires n < Pow256(32)
    ensures n < Limit()
  {
    Pow256Monotone(32, 252);
    MulMonotone(1, SIGN, Pow256(252));
  }
}
