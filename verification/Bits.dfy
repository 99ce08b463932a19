/**
  Unsigned 32-bit words and their bits.

  Go's `uint32` is modelled by the integers below 2^32, with every wrap-around written out.
  A bit is reached by halving, so facts about bits are proved by induction on the position.
*/
module Bits {

  const TWO32: int := 0x1_0000_0000

  type u32 = x: int | 0 <= x < 0x1_0000_0000

  function Pow2(k: nat): (p: nat)
    ensures p >= 1
  {
    if k == 0 then 1 else 2 * Pow2(k - 1)
  }

  /** Bit `i` of `x`, that is `(x >> i) & 1 == 1`. */
  predicate Bit(x: nat, i: nat) {
    if i == 0 then x % 2 == 1 else Bit(x / 2, i - 1)
  }

  /** `x | y`. */
  function Or(x: nat, y: nat): nat
    decreases x + y
  {
    if x == 0 && y == 0 then 0
    else (if x % 2 == 1 || y % 2 == 1 then 1 else 0) + 2 * Or(x / 2, y / 2)
  }

  /** `x & y`. */
  function And(x: nat, y: nat): nat
    decreases x + y
  {
    if x == 0 || y == 0 then 0
    else (if x % 2 == 1 && y % 2 == 1 then 1 else 0) + 2 * And(x / 2, y / 2)
  }

  /** `x << n` on a `uint32`: the bits that leave the word are lost. */
  function Shl32(x: u32, n: nat): u32 {
    (x * Pow2(n)) % TWO32
  }

  lemma {:induction false} Pow2Add(a: nat, b: nat)
    ensures Pow2(a + b) == Pow2(a) * Pow2(b)
  {
    if a == 0 {
    } else {
      Pow2Add(a - 1, b);
      assert a + b - 1 == (a - 1) + b;
    }
  }

  lemma {:induction false} Pow2Monotone(a: nat, b: nat)
    requires a <= b
    ensures Pow2(a) <= Pow2(b)
  {
    if a < b {
      Pow2Monotone(a, b - 1);
    }
  }

  lemma Pow2Strict(a: nat, b: nat)
    requires a < b
    ensures 2 * Pow2(a) <= Pow2(b)
  {
    Pow2Monotone(a, b - 1);
  }

  lemma Pow2Constants()
    ensures Pow2(8) == 0x100 && Pow2(16) == 0x1_0000 && Pow2(24) == 0x100_0000
    ensures Pow2(31) == 0x8000_0000 && Pow2(32) == TWO32
  {
    assert Pow2(8) == 0x100;
    Pow2Add(8, 8);
    Pow2Add(16, 8);
    Pow2Add(16, 16);
  }

  lemma {:induction false} BitZero(i: nat)
    ensures !Bit(0, i)
  {
    if i > 0 {
      BitZero(i - 1);
    }
  }

  /** Bits at or above the width of a number are clear. */
  lemma {:induction false} BitAboveWidth(x: nat, k: nat, i: nat)
    requires x < Pow2(k) && k <= i
    ensures !Bit(x, i)
  {
    if k == 0 {
      BitZero(i);
    } else {
      BitAboveWidth(x / 2, k - 1, i - 1);
    }
  }

  lemma {:induction false} BitOr(x: nat, y: nat, i: nat)
    ensures Bit(Or(x, y), i) == (Bit(x, i) || Bit(y, i))
  {
    if x == 0 && y == 0 {
      BitZero(i);
    } else if i > 0 {
      BitOr(x / 2, y / 2, i - 1);
    }
  }

  lemma {:induction false} OrBound(x: nat, y: nat, k: nat)
    requires x < Pow2(k) && y < Pow2(k)
    ensures Or(x, y) < Pow2(k)
  {
    if k > 0 && (x != 0 || y != 0) {
      OrBound(x / 2, y / 2, k - 1);
    }
  }

  /** The remainder by a power of two keeps the low bits. */
  lemma {:induction false} BitMod(x: nat, k: nat, i: nat)
    requires i < k
    ensures Bit(x % Pow2(k), i) == Bit(x, i)
  {
    HalveMod(x, k);
    if i > 0 {
      BitMod(x / 2, k - 1, i - 1);
    }
  }

  lemma HalveMod(x: nat, k: nat)
    requires k > 0
    ensures (x % Pow2(k)) % 2 == x % 2
    ensures (x % Pow2(k)) / 2 == (x / 2) % Pow2(k - 1)
  {
    var p := Pow2(k - 1);
    var q, r := x / (2 * p), x % (2 * p);
    assert x == 2 * (p * q) + r;
    assert x / 2 == p * q + r / 2;
    ModUnique(x / 2, p, q, r / 2);
  }

  lemma ModUnique(x: int, d: int, q: int, r: int)
    requires x == d * q + r && 0 <= r < d
    ensures x / d == q && x % d == r
  {
    var q' := x / d;
    MulMagnitude(d, q - q');
  }

  lemma MulMagnitude(d: int, e: int)
    requires d > 0
    ensures e >= 1 ==> d * e >= d
    ensures e <= -1 ==> d * e <= -d
  {
    if e >= 1 {
      assert d * e == d + d * (e - 1);
    } else if e <= -1 {
      assert d * e == -d + d * (e + 1);
    }
  }

  lemma {:induction false} BitTimesPow2(x: nat, n: nat, i: nat)
    ensures Bit(x * Pow2(n), i) == (i >= n && Bit(x, i - n))
  {
    if n > 0 {
      var y := x * Pow2(n - 1);
      assert x * Pow2(n) == 2 * y;
      if i > 0 {
        BitTimesPow2(x, n - 1, i - 1);
      }
    }
  }

  /** A left shift moves every bit up by `n`; the bits that would land at 32 or above are lost. */
  lemma BitShl32(x: u32, n: nat, i: nat)
    ensures Bit(Shl32(x, n), i) == (n <= i < 32 && Bit(x, i - n))
  {
    Pow2Constants();
    if i < 32 {
      BitMod(x * Pow2(n), 32, i);
      BitTimesPow2(x, n, i);
    } else {
      BitAboveWidth(Shl32(x, n), 32, i);
    }
  }

  /** Two words with the same bits are the same word. */
  lemma {:induction false} BitsDetermine(x: nat, y: nat, k: nat)
    requires x < Pow2(k) && y < Pow2(k)
    requires forall i | 0 <= i < k :: Bit(x, i) == Bit(y, i)
    ensures x == y
  {
    if k > 0 {
      assert Bit(x, 0) == Bit(y, 0);
      forall i | 0 <= i < k - 1 ensures Bit(x / 2, i) == Bit(y / 2, i) {
        assert Bit(x, i + 1) == Bit(y, i + 1);
      }
      BitsDetermine(x / 2, y / 2, k - 1);
    }
  }

  /** `a << k` without loss, by doubling. */
  function Doubled(a: nat, k: nat): nat {
    if k == 0 then a else 2 * Doubled(a, k - 1)
  }

  lemma {:induction false} DoubledIsProduct(a: nat, k: nat)
    ensures Doubled(a, k) == a * Pow2(k)
  {
    if k > 0 {
      DoubledIsProduct(a, k - 1);
      DoublePow2(a, k);
    }
  }

  lemma {:induction false} OrDoubled(a: nat, b: nat, k: nat, low: nat)
    requires low < Pow2(k)
    ensures Or(Doubled(a, k), Doubled(b, k) + low) == Doubled(Or(a, b), k) + low
  {
    if k > 0 {
      OrDoubled(a, b, k - 1, low / 2);
      OrHalves(Doubled(a, k), Doubled(b, k) + low);
      hide Or;
    }
  }

  /** The bits from `k` on are or-ed on their own; the low part is only on one side. */
  lemma OrAligned(a: nat, b: nat, k: nat, low: nat)
    requires low < Pow2(k)
    ensures Or(a * Pow2(k), b * Pow2(k) + low) == Or(a, b) * Pow2(k) + low
  {
    DoubledIsProduct(a, k);
    DoubledIsProduct(b, k);
    DoubledIsProduct(Or(a, b), k);
    OrDoubled(a, b, k, low);
    hide *;
  }

  lemma DoublePow2(a: nat, k: nat)
    requires k > 0
    ensures a * Pow2(k) == 2 * (a * Pow2(k - 1))
  {
  }

  /** Or-ing a low part into a word whose low bits are clear is an addition. */
  lemma OrDisjoint(s: nat, k: nat, low: nat)
    requires low < Pow2(k)
    ensures Or(s * Pow2(k), low) == s * Pow2(k) + low
  {
    DoubledIsProduct(s, k);
    DoubledIsProduct(0, k);
    OrDoubled(s, 0, k, low);
    OrZero(s);
    hide *;
  }

  lemma {:induction false} OrZero(x: nat)
    ensures Or(x, 0) == x
  {
    if x > 0 {
      OrZero(x / 2);
    }
  }

  /** Or-ing a word whose low bits are clear into `x` leaves the low bits of `x`. */
  lemma {:induction false} OrLowBits(s: nat, k: nat, x: nat)
    ensures Or(s * Pow2(k), x) % Pow2(k) == x % Pow2(k)
  {
    if k > 0 {
      var y := s * Pow2(k - 1);
      assert s * Pow2(k) == 2 * y;
      OrLowBits(s, k - 1, x / 2);
      OrHalves(2 * y, x);
      HalveMod(Or(2 * y, x), k);
      HalveMod(x, k);
    }
  }

  lemma OrHalves(x: nat, y: nat)
    ensures Or(x, y) / 2 == Or(x / 2, y / 2)
    ensures Or(x, y) % 2 == if x % 2 == 1 || y % 2 == 1 then 1 else 0
  {
  }

  /** And-ing with `2^k - 1` is the remainder by `2^k`. */
  lemma {:induction false} AndMask(x: nat, k: nat)
    ensures And(x, Pow2(k) - 1) == x % Pow2(k)
  {
    if k > 0 {
      AndMask(x / 2, k - 1);
      HalveMod(x, k);
      if x == 0 {
        ModUnique(0, Pow2(k), 0, 0);
      }
    }
  }
}
