/**
  Targets in their compact `nBits` form: one exponent byte, a sign bit and a 23-bit mantissa.
*/
module Compact {
  import opened Bits
  import opened Byte32

  const SIGN: int := 0x80_0000
  const EXPONENT_UNIT: int := 0x100_0000

  function MantissaOf(compact: u32): (m: nat)
    ensures m < SIGN
  {
    compact % SIGN
  }

  function ExponentOf(compact: u32): (e: nat)
    ensures e < 256
  {
    compact / EXPONENT_UNIT
  }

  predicate IsNegative(compact: u32) {
    compact / SIGN % 2 == 1
  }

  function CompactToBig(compact: u32): int {
    var mantissa, exponent := MantissaOf(compact), ExponentOf(compact);
    var bn := if exponent <= 3 then mantissa / Pow256(3 - exponent) else mantissa * Pow256(exponent - 3);
    if IsNegative(compact) then -bn else bn
  }

  /** `len(n.Bytes())`. */
  function NumBytes(n: nat): nat {
    if n == 0 then 0 else 1 + NumBytes(n / 256)
  }

  /** The leading bytes of a positive `n` as a 24-bit number, before the sign bit is kept free. */
  function LeadingBytes(n: nat): int {
    var exponent := NumBytes(n);
    if exponent <= 3 then n * Pow256(3 - exponent) else n / Pow256(exponent - 3)
  }

  /** The mantissa: when bit 23 of the leading bytes is set, one byte is dropped to keep the sign bit clear. */
  function Mantissa(n: nat): int {
    if LeadingBytes(n) / SIGN % 2 == 1 then LeadingBytes(n) / 256 else LeadingBytes(n)
  }

  function Exponent(n: nat): nat {
    if LeadingBytes(n) / SIGN % 2 == 1 then NumBytes(n) + 1 else NumBytes(n)
  }

  /**
    The exponent is shifted in a 64-bit word and truncated to 32 bits, so an exponent above 255
    loses its high bits.
  */
  function BigToCompact(n: nat): (compact: u32)
    ensures !IsNegative(compact) && CompactShape(n, compact)
  {
    if n == 0 then 0
    else
      Shape(n);
      Exponent(n) % 256 * EXPONENT_UNIT + Mantissa(n)
  }

  ghost predicate CompactShape(n: nat, compact: u32) {
    if n == 0 then compact == 0
    else ExponentOf(compact) == Exponent(n) % 256 && MantissaOf(compact) == Mantissa(n)
  }

  // ---- Powers of 256 ----

  lemma {:induction false} Pow256Add(a: nat, b: nat)
    ensures Pow256(a + b) == Pow256(a) * Pow256(b)
  {
    if a > 0 {
      Pow256Add(a - 1, b);
      assert a + b - 1 == (a - 1) + b;
      assert 256 * (Pow256(a - 1) * Pow256(b)) == (256 * Pow256(a - 1)) * Pow256(b);
    }
  }

  lemma {:induction false} Pow256Monotone(a: nat, b: nat)
    requires a <= b
    ensures Pow256(a) <= Pow256(b)
  {
    if a < b {
      Pow256Monotone(a, b - 1);
    }
  }

  lemma Pow256Step(k: nat)
    ensures Pow256(k + 1) == 256 * Pow256(k)
  {
  }

  lemma Pow256Small()
    ensures Pow256(0) == 1 && Pow256(1) == 0x100 && Pow256(2) == 0x1_0000 && Pow256(3) == 0x100_0000
  {
  }

  lemma {:induction false} NumBytesBounds(n: nat)
    requires n > 0
    ensures NumBytes(n) >= 1 && Pow256(NumBytes(n) - 1) <= n < Pow256(NumBytes(n))
  {
    if n >= 256 {
      NumBytesBounds(n / 256);
    }
  }

  lemma DivBounds(n: nat, d: int)
    requires d > 0
    ensures d * (n / d) <= n < d * (n / d) + d
  {
  }

  /** A quotient lies between two bounds when the number lies between their multiples. */
  lemma QuotientBetween(n: nat, d: int, lo: nat, hi: nat)
    requires d > 0 && lo * d <= n < hi * d
    ensures lo <= n / d < hi
  {
    var q := n / d;
    DivBounds(n, d);
    if q < lo {
      MulMonotone(q + 1, lo, d);
    }
    if q >= hi {
      MulMonotone(hi, q, d);
    }
  }

  lemma MulMonotone(a: int, b: int, d: int)
    requires a <= b && d >= 0
    ensures a * d <= b * d
  {
    assert (b - a) * d >= 0;
  }

  // ---- The shape of an encoding ----

  /** The leading bytes are three, the first of them not zero. */
  lemma LeadingBytesBounds(n: nat)
    requires n > 0
    ensures 0x1_0000 <= LeadingBytes(n) < EXPONENT_UNIT
  {
    var k := NumBytes(n);
    NumBytesBounds(n);
    Pow256Small();
    if k > 3 {
      var d := Pow256(k - 3);
      Pow256Add(2, k - 3);
      Pow256Add(3, k - 3);
      QuotientBetween(n, d, 0x1_0000, 0x100_0000);
    }
  }

  /**
    The mantissa has its highest byte or the top of its second byte in use, and together with the exponent it brackets
    `n`; up to exponent 3 nothing is lost.
  */
  lemma Shape(n: nat)
    requires n > 0
    ensures 0x8000 <= Mantissa(n) < SIGN && Exponent(n) >= 1
    ensures Exponent(n) <= 3 ==> n * Pow256(3 - Exponent(n)) == Mantissa(n)
    ensures Exponent(n) > 3 ==>
              Mantissa(n) * Pow256(Exponent(n) - 3) <= n < (Mantissa(n) + 1) * Pow256(Exponent(n) - 3)
  {
    LeadingBytesBounds(n);
    if NumBytes(n) <= 3 {
      ShapeShort(n);
    } else {
      ShapeLong(n, NumBytes(n), LeadingBytes(n), Pow256(NumBytes(n) - 3));
    }
  }

  lemma ShapeShort(n: nat)
    requires n > 0 && NumBytes(n) <= 3
    ensures 0x8000 <= Mantissa(n) < SIGN && Exponent(n) >= 1
    ensures Exponent(n) <= 3 ==> n * Pow256(3 - Exponent(n)) == Mantissa(n)
    ensures Exponent(n) > 3 ==>
              Mantissa(n) * Pow256(Exponent(n) - 3) <= n < (Mantissa(n) + 1) * Pow256(Exponent(n) - 3)
  {
    NumBytesBounds(n);
    LeadingBytesBounds(n);
    Pow256Small();
    var k, q := NumBytes(n), LeadingBytes(n);
    var scale := if k == 1 then 0x1_0000 else if k == 2 then 0x100 else 1;
    assert q == n * scale;
    hide Pow256, NumBytes, LeadingBytes;
    if q >= SIGN {
      assert Mantissa(n) == n * scale / 256 && Exponent(n) == k + 1;
    } else {
      assert Mantissa(n) == n * scale && Exponent(n) == k;
    }
  }

  lemma ShapeLong(n: nat, k: nat, q: int, d: int)
    requires n > 0 && k == NumBytes(n) > 3 && d == Pow256(k - 3)
    requires q == LeadingBytes(n) && 0x1_0000 <= q < EXPONENT_UNIT
    ensures 0x8000 <= Mantissa(n) < SIGN && Exponent(n) > 3
    ensures Mantissa(n) * Pow256(Exponent(n) - 3) <= n < (Mantissa(n) + 1) * Pow256(Exponent(n) - 3)
  {
    DivBounds(n, d);
    Commute(q, d);
    assert q == n / d;
    assert Pow256(k - 2) == 256 * d;
    DropByte(n, q, d);
    if q >= SIGN {
      assert Mantissa(n) == q / 256 && Exponent(n) == k + 1;
    } else {
      assert Mantissa(n) == q && Exponent(n) == k;
      hide *;
      assert (q + 1) * d == q * d + d;
    }
  }

  lemma Commute(a: int, b: int)
    ensures a * b == b * a
  {
  }

  /** Dropping the last byte of a quotient is dividing by 256 times the divisor. */
  lemma DropByte(n: int, q: int, d: int)
    requires d > 0 && q * d <= n < q * d + d
    ensures (q / 256) * (256 * d) <= n < (q / 256 + 1) * (256 * d)
  {
    var m, r := q / 256, q % 256;
    assert m * (256 * d) == (256 * m) * d;
    assert (m + 1) * (256 * d) == (256 * m + 256) * d;
    MulMonotone(256 * m, q, d);
    MulMonotone(q + 1, 256 * m + 256, d);
    assert (q + 1) * d == q * d + d;
  }

  // ---- What a form stands for ----

  /**
    The value of a form, exponent and mantissa read off by position: the magnitude is the mantissa times 256 to the
    exponent less three, rounded down; bit 23 is the sign.
  */
  lemma FormStandsFor(c: u32)
    ensures var m, e, negative := c % 0x80_0000, c / 0x100_0000, c / 0x80_0000 % 2 == 1;
            var v := if negative then -CompactToBig(c) else CompactToBig(c);
            && e >= 0 && v >= 0 && v * Pow256(3) <= m * Pow256(e) < (v + 1) * Pow256(3)
  {
    var m, e := MantissaOf(c), ExponentOf(c);
    assert m == c % 0x80_0000 && e == c / 0x100_0000;
    hide MantissaOf, ExponentOf;
    if e <= 3 {
      ShiftedRight(m, e, 3);
    } else {
      ShiftedLeft(m, e, 3);
    }
    hide Pow256;
  }

  lemma ShiftedRight(m: nat, e: nat, k: nat)
    requires e <= k
    ensures var v := m / Pow256(k - e); v >= 0 && v * Pow256(k) <= m * Pow256(e) < (v + 1) * Pow256(k)
  {
    var p, q := Pow256(e), Pow256(k - e);
    var v := m / q;
    Pow256Add(k - e, e);
    assert Pow256(k) == q * p;
    hide Pow256;
    DivBounds(m, q);
    Commute(v, q);
    Commute(v + 1, q);
    MulMonotone(v * q, m, p);
    MulMonotone(m + 1, (v + 1) * q, p);
    Associate(v, q, p);
    Associate(v + 1, q, p);
    Distribute(m, p);
  }

  lemma Distribute(m: int, p: int)
    ensures (m + 1) * p == m * p + p
  {
  }

  lemma ShiftedLeft(m: nat, e: nat, k: nat)
    requires k <= e
    ensures var v := m * Pow256(e - k); v >= 0 && v * Pow256(k) <= m * Pow256(e) < (v + 1) * Pow256(k)
  {
    Pow256Add(e - k, k);
    Associate(m, Pow256(e - k), Pow256(k));
    Distribute(m * Pow256(e - k), Pow256(k));
  }

  // ---- Rounding ----

  /** The numbers below 2^2039: those whose exponent fits the exponent byte. */
  ghost function Limit(): nat {
    SIGN * Pow256(252)
  }

  lemma ExponentFitsIff(n: nat)
    requires n > 0
    ensures Exponent(n) <= 255 <==> n < Limit()
  {
    Shape(n);
    var e, m := Exponent(n), Mantissa(n);
    hide Exponent, Mantissa;
    if 3 < e <= 255 {
      BelowLimit(n, m, e - 3, 252);
    } else if e <= 3 {
      BelowProduct(n, 1, n, Pow256(3 - e));
      BelowProduct(SIGN, 1, SIGN, Pow256(252));
    } else {
      AtLeastLimit(n, m, e - 3, 252);
    }
  }

  lemma BelowLimit(n: nat, m: nat, j: nat, k: nat)
    requires n < (m + 1) * Pow256(j) && m < SIGN && j <= k
    ensures n < SIGN * Pow256(k)
  {
    Pow256Monotone(j, k);
    BelowProduct(m + 1, Pow256(j), SIGN, Pow256(k));
  }

  lemma AtLeastLimit(n: nat, m: nat, j: nat, k: nat)
    requires m * Pow256(j) <= n && 0x8000 <= m && k < j
    ensures SIGN * Pow256(k) <= n
  {
    Pow256Monotone(k + 1, j);
    BelowProduct(0x8000, Pow256(k + 1), m, Pow256(j));
    assert Pow256(k + 1) == 256 * Pow256(k);
  }

  lemma BelowProduct(a: int, p: int, b: int, q: int)
    requires 0 <= a <= b && 0 <= p <= q
    ensures a * p <= b * q
  {
    MulMonotone(a, b, p);
    MulMonotone(p, q, b);
    Commute(b, p);
    Commute(b, q);
  }

  /** What an encoding decodes to: nothing is lost up to exponent 3, and above it only what is below the mantissa. */
  lemma DecodeOfEncode(n: nat)
    requires n < Limit()
    ensures var v := CompactToBig(BigToCompact(n));
            if n == 0 || Exponent(n) <= 3 then v == n else v == Mantissa(n) * Pow256(Exponent(n) - 3)
  {
    if n > 0 {
      EncodeParts(n);
      Shape(n);
      hide *;
      DecodeParts(BigToCompact(n));
      if Exponent(n) <= 3 {
        ExactQuotient(n, Pow256(3 - Exponent(n)));
      }
    } else {
      Pow256Small();
    }
  }

  lemma EncodeParts(n: nat)
    requires 0 < n < Limit()
    ensures var c := BigToCompact(n);
            ExponentOf(c) == Exponent(n) && MantissaOf(c) == Mantissa(n) && !IsNegative(c)
  {
    ExponentFitsIff(n);
    Shape(n);
    hide Exponent, Mantissa, ExponentOf, MantissaOf, Limit, BigToCompact, Pow256;
    assert Exponent(n) % 256 == Exponent(n);
  }

  lemma DecodeParts(c: u32)
    requires !IsNegative(c)
    ensures var e, m := ExponentOf(c), MantissaOf(c);
            CompactToBig(c) == if e <= 3 then m / Pow256(3 - e) else m * Pow256(e - 3)
  {
    hide ExponentOf, MantissaOf, Pow256, IsNegative;
  }

  lemma ExactQuotient(n: nat, d: int)
    requires d > 0
    ensures n * d / d == n
  {
    ModUnique(n * d, d, n, 0);
  }

  /**
    The encoding of `n` stands for the greatest number not above `n` that any compact form stands for;
    it is `n` itself up to exponent 3, and misses `n` by less than one unit of the mantissa above.
  */
  lemma GreatestRepresentable(n: nat)
    requires n < Limit()
    ensures var v := CompactToBig(BigToCompact(n));
            && 0 <= v <= n
            && (forall d: u32 :: CompactToBig(d) <= n ==> CompactToBig(d) <= v)
            && (n > 0 && Exponent(n) <= 3 ==> v == n)
            && (n > 0 && Exponent(n) > 3 ==> n - v < Pow256(Exponent(n) - 3))
  {
    DecodeOfEncode(n);
    if n > 0 && Exponent(n) > 3 {
      Shape(n);
      var m, p := Mantissa(n), Pow256(Exponent(n) - 3);
      assert m * p <= n < (m + 1) * p == m * p + p;
      forall d: u32 | CompactToBig(d) <= n ensures CompactToBig(d) <= m * p {
        NoneBetween(n, d);
      }
    }
  }

  /** No compact form stands for a number strictly between a truncation and the number truncated. */
  lemma NoneBetween(n: nat, d: u32)
    requires n > 0 && Exponent(n) > 3
    requires CompactToBig(d) <= n
    ensures CompactToBig(d) <= Mantissa(n) * Pow256(Exponent(n) - 3)
  {
    Shape(n);
    var e, m := Exponent(n), Mantissa(n);
    hide *;
    var p := Pow256(e - 3);
    BelowProduct(0x8000, p, m, p);
    if IsNegative(d) {
      NegativeIsBelowZero(d);
    } else if ExponentOf(d) < e {
      SmallerExponent(d, e);
    } else {
      var t := LargerExponent(d, e);
      if t > m {
        MulMonotone(m + 1, t, p);
      } else {
        MulMonotone(t, m, p);
      }
    }
  }

  /** A form with an exponent of at least `e` stands for a multiple of the mantissa unit at exponent `e`. */
  lemma LargerExponent(d: u32, e: nat) returns (t: int)
    requires e > 3 && ExponentOf(d) >= e && !IsNegative(d)
    ensures CompactToBig(d) == t * Pow256(e - 3)
  {
    hide Pow256, MantissaOf, ExponentOf, IsNegative;
    var f, w := ExponentOf(d), MantissaOf(d);
    Pow256Add(f - e, e - 3);
    assert (f - e) + (e - 3) == f - 3;
    t := w * Pow256(f - e);
    Associate(w, Pow256(f - e), Pow256(e - 3));
  }

  lemma Associate(a: int, b: int, c: int)
    ensures a * (b * c) == (a * b) * c
  {
  }

  lemma NegativeIsBelowZero(d: u32)
    requires IsNegative(d)
    ensures CompactToBig(d) <= 0
  {
    var w, f := MantissaOf(d), ExponentOf(d);
    if f > 3 {
      BelowProduct(0, Pow256(f - 3), w, Pow256(f - 3));
    } else {
      DivBounds(w, Pow256(3 - f));
      NonNegativeQuotient(w, Pow256(3 - f));
    }
  }

  lemma NonNegativeQuotient(n: nat, d: int)
    requires d > 0
    ensures 0 <= n / d <= n
  {
    QuotientBetween(n, d, 0, n + 1) by {
      MulMonotone(1, d, n + 1);
      Commute(d, n + 1);
      assert 0 * d == 0;
    }
  }

  /** A form with a smaller exponent stands for less than the least mantissa at exponent `e`. */
  lemma SmallerExponent(d: u32, e: nat)
    requires e > 3 && ExponentOf(d) < e && !IsNegative(d)
    ensures CompactToBig(d) <= 0x8000 * Pow256(e - 3)
  {
    var w, f := MantissaOf(d), ExponentOf(d);
    var p := Pow256(e - 3);
    assert p == 256 * Pow256(e - 4);
    if f > 3 {
      Pow256Monotone(f - 3, e - 4);
      BelowProduct(w, Pow256(f - 3), SIGN, Pow256(e - 4));
    } else {
      NonNegativeQuotient(w, Pow256(3 - f));
      BelowProduct(w, 1, SIGN, Pow256(e - 4));
    }
    assert SIGN * Pow256(e - 4) == 0x8000 * p;
  }

  /** One unit of the mantissa at the exponent of `n`. */
  ghost function MantissaUnit(n: nat): int {
    if Exponent(n) <= 3 then 1 else Pow256(Exponent(n) - 3)
  }

  /**
    Below 2^2039 the encoding is accurate to the last bit of the mantissa. From 2^2039 on it never is: the exponent no
    longer fits its byte, so the encoding of 2^2039 itself decodes to zero.
  */
  lemma AccurateIff(n: nat)
    requires n > 0
    ensures 0 <= n - CompactToBig(BigToCompact(n)) < MantissaUnit(n) <==> n < Limit()
  {
    if n < Limit() {
      GreatestRepresentable(n);
    } else {
      ExponentFitsIff(n);
      TruncatedExponent(n);
    }
  }

  lemma TruncatedExponent(n: nat)
    requires n > 0 && Exponent(n) >= 256
    ensures n - CompactToBig(BigToCompact(n)) >= MantissaUnit(n)
  {
    Shape(n);
    var c, e := BigToCompact(n), Exponent(n);
    assert MantissaUnit(n) == Pow256(e - 3);
    TruncatedFields(n);
    hide *;
    if e == 256 {
      ZeroExponent(c);
    } else {
      SmallerThanLimit(c, 253, e - 3);
    }
    FarBelow(n, Mantissa(n), Pow256(e - 3), CompactToBig(c));
  }

  lemma SmallerThanLimit(c: u32, j: nat, k: nat)
    requires !IsNegative(c) && ExponentOf(c) < j + 3 && 0 < j < k
    ensures CompactToBig(c) <= 128 * Pow256(k)
  {
    SmallerExponent(c, j + 3);
    Pow256Monotone(j + 1, k);
    Pow256Step(j);
    hide *;
    Associate(0x80, 256, Pow256(j));
  }

  lemma TruncatedFields(n: nat)
    requires n > 0 && Exponent(n) >= 256
    ensures var c := BigToCompact(n);
            !IsNegative(c) && ExponentOf(c) < 256 && (Exponent(n) == 256 ==> ExponentOf(c) == 0)
  {
    assert CompactShape(n, BigToCompact(n));
    hide BigToCompact, Exponent, Mantissa, ExponentOf, MantissaOf;
  }

  lemma ZeroExponent(c: u32)
    requires ExponentOf(c) == 0 && !IsNegative(c)
    ensures CompactToBig(c) == 0
  {
    DecodeParts(c);
    Pow256Small();
  }

  lemma FarBelow(n: int, m: int, u: int, v: int)
    requires m * u <= n && m >= 0x8000 && u >= 1 && v <= 128 * u
    ensures n - v >= u
  {
    MulMonotone(0x8000, m, u);
  }

  // ---- Canonical forms ----

  /** Zero, or a non-negative form whose mantissa is left-aligned and loses nothing when it is decoded. */
  predicate Canonical(c: u32) {
    || c == 0
    || (&& !IsNegative(c) && ExponentOf(c) >= 1 && MantissaOf(c) >= 0x8000
        && (ExponentOf(c) < 3 ==> MantissaOf(c) % Pow256(3 - ExponentOf(c)) == 0))
  }

  lemma EncodeIsCanonical(n: nat)
    requires n < Limit()
    ensures Canonical(BigToCompact(n))
  {
    if n > 0 {
      EncodeParts(n);
      Shape(n);
      var e := Exponent(n);
      hide Exponent, Mantissa, ExponentOf, MantissaOf, IsNegative, Limit, BigToCompact, Pow256;
      if e < 3 {
        MultipleHasNoRemainder(n, Pow256(3 - e));
      }
    }
  }

  lemma MultipleHasNoRemainder(n: int, d: int)
    requires d > 0
    ensures n * d % d == 0
  {
    Commute(n, d);
    ModUnique(n * d, d, n, 0);
  }

  /** A canonical form stands for mantissa times 256^exponent, scaled by 256^3. */
  lemma CanonicalScaled(c: u32)
    requires Canonical(c) && c != 0
    ensures CompactToBig(c) * Pow256(3) == MantissaOf(c) * Pow256(ExponentOf(c))
  {
    hide ExponentOf, MantissaOf, Pow256, IsNegative, CompactToBig;
    var e, m := ExponentOf(c), MantissaOf(c);
    DecodeParts(c);
    if e > 3 {
      Pow256Add(e - 3, 3);
      assert (e - 3) + 3 == e;
      Associate(m, Pow256(e - 3), Pow256(3));
    } else {
      var d := Pow256(3 - e);
      Pow256Add(3 - e, e);
      assert (3 - e) + e == 3;
      if e == 3 {
        assert d == 1 by { Pow256Small(); }
      }
      assert m % d == 0;
      Commute(d, m / d);
      assert m == m / d * d;
      Associate(m / d, d, Pow256(e));
    }
  }

  /** Canonical forms are ordered like the numbers they stand for. */
  lemma CanonicalOrder(c: u32, d: u32)
    requires Canonical(c) && Canonical(d) && c < d
    ensures CompactToBig(c) < CompactToBig(d)
  {
    hide ExponentOf, MantissaOf, Pow256, IsNegative, CompactToBig;
    CanonicalScaled(d);
    var x := 0;
    if c == 0 {
      ZeroDecodes();
      BelowProduct(0x8000, 1, MantissaOf(d), Pow256(ExponentOf(d)));
    } else {
      CanonicalScaled(c);
      FieldOrder(c, d);
      x := MantissaOf(c) * Pow256(ExponentOf(c));
      ScaledLess(ExponentOf(c), MantissaOf(c), ExponentOf(d), MantissaOf(d));
    }
    hide *;
    if CompactToBig(d) <= CompactToBig(c) {
      MulMonotone(CompactToBig(d), CompactToBig(c), Pow256(3));
    }
  }

  lemma ZeroDecodes()
    ensures CompactToBig(0) == 0
  {
    ZeroExponent(0);
  }

  lemma ScaledLess(e: nat, m: nat, f: nat, w: nat)
    requires m < SIGN && 0x8000 <= w
    requires e < f || (e == f && m < w)
    ensures m * Pow256(e) < w * Pow256(f)
  {
    Pow256Step(e);
    if e < f {
      Pow256Monotone(e + 1, f);
    }
    hide *;
    var p := Pow256(e);
    assert (m + 1) * p == m * p + p;
    if e < f {
      BelowProduct(0x8000, 256 * p, w, Pow256(f));
      MulMonotone(m + 1, SIGN, p);
      Associate(0x8000, 256, p);
    } else {
      MulMonotone(m + 1, w, p);
    }
  }

  lemma FieldOrder(c: u32, d: u32)
    requires c < d && !IsNegative(c) && !IsNegative(d)
    ensures ExponentOf(c) < ExponentOf(d) || (ExponentOf(c) == ExponentOf(d) && MantissaOf(c) < MantissaOf(d))
  {
    Fields(c);
    Fields(d);
  }

  lemma Fields(c: u32)
    requires !IsNegative(c)
    ensures c == ExponentOf(c) * EXPONENT_UNIT + MantissaOf(c)
  {
    assert c / EXPONENT_UNIT == c / SIGN / 2;
  }

  /** A form that stands for a non-negative number stands for one below the limit. */
  lemma DecodedBelowLimit(c: u32)
    ensures CompactToBig(c) < Limit()
  {
    hide CompactToBig, ExponentOf, MantissaOf, IsNegative, Pow256;
    var top := Pow256(252);
    var e, m := ExponentOf(c), MantissaOf(c);
    BelowProduct(1, 1, SIGN, top);
    assert (SIGN - 1) * top == SIGN * top - top;
    if IsNegative(c) {
      NegativeIsBelowZero(c);
    } else {
      DecodeParts(c);
      if e > 3 {
        Pow256Monotone(e - 3, 252);
        BelowProduct(m, Pow256(e - 3), SIGN - 1, top);
      } else {
        NonNegativeQuotient(m, Pow256(3 - e));
        BelowProduct(m, 1, SIGN - 1, top);
      }
    }
  }

  /** Decoding and encoding again gives every canonical form back. */
  lemma EncodeOfDecode(c: u32)
    requires Canonical(c)
    ensures CompactToBig(c) >= 0 && BigToCompact(CompactToBig(c)) == c
  {
    if c != 0 {
      CanonicalOrder(0, c);
    }
    ZeroDecodes();
    DecodedBelowLimit(c);
    var v := CompactToBig(c);
    GreatestRepresentable(v);
    EncodeIsCanonical(v);
    var c' := BigToCompact(v);
    assert CompactToBig(c') == v;
    if c' < c {
      CanonicalOrder(c', c);
    } else if c < c' {
      CanonicalOrder(c, c');
    }
  }

  /** Encoding and decoding again gives every number back that some form stands for. */
  lemma DecodeOfEncodeOfRepresentable(d: u32)
    requires CompactToBig(d) >= 0
    ensures CompactToBig(BigToCompact(CompactToBig(d))) == CompactToBig(d)
  {
    DecodedBelowLimit(d);
    GreatestRepresentable(CompactToBig(d));
  }

  /** Encoding is monotone, both in the number stood for and in the 32-bit form itself. */
  lemma EncodeMonotone(a: nat, b: nat)
    requires a <= b < Limit()
    ensures CompactToBig(BigToCompact(a)) <= CompactToBig(BigToCompact(b))
    ensures BigToCompact(a) <= BigToCompact(b)
  {
    GreatestRepresentable(a);
    GreatestRepresentable(b);
    EncodeIsCanonical(a);
    EncodeIsCanonical(b);
    if BigToCompact(b) < BigToCompact(a) {
      CanonicalOrder(BigToCompact(b), BigToCompact(a));
    }
  }
}
