/**
  Slot assignment for merged mining: every auxiliary chain gets a leaf of a Merkle tree whose size is a power of two.
*/
module ChainSlot {
  import opened Bits

  const MULTIPLIER: int := 1103515245
  const INCREMENT: int := 12345
  const ATTEMPTS_PER_SIZE: int := 5

  /** One step of the generator, without the wrap-around. */
  function Advance(x: int): int {
    x * MULTIPLIER + INCREMENT
  }

  /** Go panics on a zero `merkleSize`; `AssignChainSlots` reports that case instead of calling this. */
  function GetChainSlot(chainID: u32, merkleSize: u32, merkleNonce: u32): (slotNum: u32)
    requires merkleSize > 0
    ensures slotNum < merkleSize
  {
    var rand := Advance(merkleNonce) % TWO32;
    var rand := (rand + chainID) % TWO32;
    var rand := Advance(rand) % TWO32;
    rand % merkleSize
  }

  // ---- Number theory: the multiplier is odd, hence invertible modulo every power of two ----

  lemma CongruentIff(x: int, y: int, p: int)
    requires p > 0
    ensures x % p == y % p <==> (x - y) % p == 0
  {
    var a, b := x / p, y / p;
    assert x - y == p * (a - b) + (x % p - y % p);
    if x % p == y % p {
      ModUnique(x - y, p, a - b, 0);
    } else if x % p > y % p {
      ModUnique(x - y, p, a - b, x % p - y % p);
    } else {
      assert x - y == p * (a - b - 1) + (p + x % p - y % p);
      ModUnique(x - y, p, a - b - 1, p + x % p - y % p);
    }
  }

  lemma ModOfMultiple(x: int, p: int, c: int)
    requires p > 0 && c > 0 && p * c > 0
    ensures (x % (p * c)) % p == x % p
  {
    var q, r := x / (p * c), x % (p * c);
    assert x == p * (c * q) + r;
    assert x == p * (c * q + r / p) + r % p;
    ModUnique(x, p, c * q + r / p, r % p);
  }

  /** Reducing modulo 2^32 first does not change a remainder by a smaller power of two. */
  lemma ReduceFirst(x: int, k: nat)
    requires k <= 32
    ensures (x % TWO32) % Pow2(k) == x % Pow2(k)
  {
    Pow2Constants();
    Pow2Add(k, 32 - k);
    ModOfMultiple(x, Pow2(k), Pow2(32 - k));
  }

  lemma {:induction false} OddFactorCancels(a: int, d: int, k: nat)
    requires a % 2 == 1
    ensures (a * d) % Pow2(k) == 0 <==> d % Pow2(k) == 0
    decreases k
  {
    if k > 0 {
      var p := Pow2(k - 1);
      var h := a / 2;
      assert a * d == 2 * (h * d) + d;
      if d % 2 == 0 {
        var e := d / 2;
        assert a * d == 2 * (a * e);
        OddFactorCancels(a, e, k - 1);
        EvenMultiple(a * e, p);
        EvenMultiple(e, p);
      } else {
        OddIsNoMultiple(d, p);
        OddIsNoMultiple(a * d, p);
      }
    }
  }

  lemma EvenMultiple(x: int, p: int)
    requires p > 0
    ensures (2 * x) % (2 * p) == 0 <==> x % p == 0
  {
    var q, r := x / p, x % p;
    assert 2 * x == (2 * p) * q + 2 * r;
    ModUnique(2 * x, 2 * p, q, 2 * r);
  }

  lemma OddIsNoMultiple(x: int, p: int)
    requires p > 0 && x % 2 == 1
    ensures x % (2 * p) != 0
  {
    assert x == 2 * (p * (x / (2 * p))) + x % (2 * p);
  }

  function Residue(x: int, k: nat): int {
    x % Pow2(k)
  }

  lemma WrapKeepsResidue(x: int, k: nat)
    requires k <= 32
    ensures Residue(x % TWO32, k) == Residue(x, k)
  {
    ReduceFirst(x, k);
  }

  lemma AddingKeepsCongruence(s: int, a: int, b: int, k: nat)
    ensures Residue(s + a, k) == Residue(s + b, k) <==> Residue(a, k) == Residue(b, k)
  {
    CongruentIff(s + a, s + b, Pow2(k));
    CongruentIff(a, b, Pow2(k));
    assert (s + a) - (s + b) == a - b;
  }

  lemma AdvancingKeepsCongruence(x: int, y: int, k: nat)
    ensures Residue(Advance(x), k) == Residue(Advance(y), k) <==> Residue(x, k) == Residue(y, k)
  {
    CongruentIff(Advance(x), Advance(y), Pow2(k));
    assert Advance(x) - Advance(y) == MULTIPLIER * (x - y);
    OddFactorCancels(MULTIPLIER, x - y, k);
    CongruentIff(x, y, Pow2(k));
  }

  lemma SlotFormula(a: u32, k: nat, size: u32, nonce: u32)
    requires size == Pow2(k)
    ensures GetChainSlot(a, size, nonce) == Residue(Advance((Advance(nonce) % TWO32 + a) % TWO32) % TWO32, k)
    ensures a % size == Residue(a, k)
  {
    hide Advance, Pow2;
  }

  /**
    The formula that the merged mining specification publishes, over unbounded integers: at a power-of-two size all
    three wrap-arounds at 2^32 cancel.
  */
  lemma SlotIsPublishedFormula(chainID: u32, k: nat, size: u32, nonce: u32)
    requires k <= 31 && size == Pow2(k)
    ensures GetChainSlot(chainID, size, nonce) ==
            (1103515245 * (1103515245 * nonce + 12345 + chainID) + 12345) % size
  {
    SlotFormula(chainID, k, size, nonce);
    var first := Advance(nonce) % TWO32;
    var second := (first + chainID) % TWO32;
    assert Advance(Advance(nonce) + chainID) == 1103515245 * (1103515245 * nonce + 12345 + chainID) + 12345;
    assert forall x :: Residue(x, k) == x % size;
    hide Advance, Residue, GetChainSlot, Pow2;
    WrapKeepsResidue(Advance(second), k);
    WrapKeepsResidue(first + chainID, k);
    WrapKeepsResidue(Advance(nonce), k);
    AddingKeepsCongruence(chainID, first, Advance(nonce), k);
    AdvancingKeepsCongruence(second, Advance(nonce) + chainID, k);
    assert first + chainID == chainID + first && Advance(nonce) + chainID == chainID + Advance(nonce);
  }

  /** The slot of the published formula, over unbounded integers. */
  function PublishedSlot(chainID: int, size: int, nonce: int): int
    requires size > 0
  {
    (1103515245 * (1103515245 * nonce + 12345 + chainID) + 12345) % size
  }

  lemma SlotIsPublishedSlot(chainID: u32, k: nat, size: u32, nonce: u32)
    requires k <= 31 && size == Pow2(k)
    ensures GetChainSlot(chainID, size, nonce) == PublishedSlot(chainID, size, nonce)
  {
    SlotIsPublishedFormula(chainID, k, size, nonce);
    hide GetChainSlot;
  }

  /**
    At a power-of-two size two chains collide exactly when their IDs agree modulo that size.
    The nonce plays no part, so drawing another one never separates them.
  */
  lemma SlotsCollideIff(a: u32, b: u32, k: nat, size: u32, nonce: u32)
    requires k <= 31 && size == Pow2(k)
    ensures GetChainSlot(a, size, nonce) == GetChainSlot(b, size, nonce) <==> a % size == b % size
  {
    SlotFormula(a, k, size, nonce);
    SlotFormula(b, k, size, nonce);
    var s := Advance(nonce) % TWO32;
    var ra, rb := (s + a) % TWO32, (s + b) % TWO32;
    hide Advance, Residue, GetChainSlot, Pow2;
    WrapKeepsResidue(Advance(ra), k);
    WrapKeepsResidue(Advance(rb), k);
    AdvancingKeepsCongruence(ra, rb, k);
    WrapKeepsResidue(s + a, k);
    WrapKeepsResidue(s + b, k);
    AddingKeepsCongruence(s, a, b, k);
  }

  // ---- Which sizes separate a set of chains ----

  /** All chains have different IDs modulo `size`; for a power of two this is when their slots differ. */
  predicate Separates(chainIDs: map<nat, u32>, size: nat)
    requires size > 0
  {
    forall i, j | i in chainIDs && j in chainIDs && i != j :: chainIDs[i] % size != chainIDs[j] % size
  }

  /** A size that separates the chains also does after doubling. */
  lemma SeparatesMonotone(chainIDs: map<nat, u32>, j: nat, k: nat)
    requires j <= k
    requires Separates(chainIDs, Pow2(j))
    ensures Separates(chainIDs, Pow2(k))
  {
    forall x, y | x in chainIDs && y in chainIDs && x != y
      ensures chainIDs[x] % Pow2(k) != chainIDs[y] % Pow2(k)
    {
      Pow2Add(j, k - j);
      ModOfMultiple(chainIDs[x], Pow2(j), Pow2(k - j));
      ModOfMultiple(chainIDs[y], Pow2(j), Pow2(k - j));
    }
  }

  /** Pigeonhole: a separating size has at least one slot per chain. */
  lemma {:induction false} SeparatesNeedsRoom(chainIDs: map<nat, u32>, size: nat)
    requires size > 0
    requires Separates(chainIDs, size)
    ensures |chainIDs| <= size
  {
    var slots := set i | i in chainIDs :: chainIDs[i] % size;
    ImageSize(chainIDs, chainIDs.Keys, size, slots);
    RangeSize(slots, size);
  }

  lemma {:induction false} ImageSize(chainIDs: map<nat, u32>, keys: set<nat>, size: nat, slots: set<nat>)
    requires size > 0 && keys <= chainIDs.Keys
    requires Separates(chainIDs, size)
    requires slots == set i | i in keys :: chainIDs[i] % size
    ensures |slots| == |keys|
  {
    if keys != {} {
      var k :| k in keys;
      var rest := set i | i in keys - {k} :: chainIDs[i] % size;
      assert slots == rest + {chainIDs[k] % size};
      assert chainIDs[k] % size !in rest;
      ImageSize(chainIDs, keys - {k}, size, rest);
    }
  }

  lemma {:induction false} RangeSize(s: set<nat>, n: nat)
    requires forall x | x in s :: 0 <= x < n
    ensures |s| <= n
  {
    if n == 0 {
      assert s == {};
    } else {
      RangeSize(s - {n - 1}, n - 1);
    }
  }

  // ---- The search ----

  /** The smallest exponent whose power of two is at least `n`. */
  function CeilLog2(n: nat): (k: nat)
    ensures n <= Pow2(k)
  {
    CeilLog2From(n, 0)
  }

  function CeilLog2From(n: nat, k: nat): (r: nat)
    ensures k <= r && n <= Pow2(r)
    decreases n - Pow2(k)
  {
    if n <= Pow2(k) then k else CeilLog2From(n, k + 1)
  }

  lemma {:induction false} CeilLog2IsLeast(n: nat, k: nat, j: nat)
    requires k <= j < CeilLog2From(n, k)
    ensures Pow2(j) < n
    decreases j - k
  {
    if k < j {
      CeilLog2IsLeast(n, k + 1, j);
    }
  }

  /**
    How a call ends. `DivisionByZero` is the runtime panic after the size has wrapped from 2^31 to 0;
    `SizingDiverges` is the first loop running on forever because no `uint32` power of two reaches the chain count.
  */
  datatype Assignment =
    | Assigned(merkleNonce: u32, merkleSize: u32, chainIDIndexSlots: map<u32, u32>, slotIndexChainIDs: map<u32, u32>)
    | DivisionByZero
    | SizingDiverges

  /** Every chain sits in the slot the published formula gives it, and the two tables are inverse to each other. */
  ghost predicate IsSlotTable(chainIDs: map<nat, u32>, nonce: u32, size: u32, slots: map<u32, u32>)
  {
    && size > 0
    && slots.Keys == chainIDs.Values
    && (forall id | id in slots :: slots[id] == GetChainSlot(id, size, nonce))
    && (forall a, b | a in slots && b in slots && slots[a] == slots[b] :: a == b)
  }

  ghost predicate Inverse(slots: map<u32, u32>, chains: map<u32, u32>) {
    && (forall id | id in slots :: slots[id] in chains && chains[slots[id]] == id)
    && (forall slot | slot in chains :: chains[slot] in slots && slots[chains[slot]] == slot)
  }

  /** What a successful search over the nonces `rand(0), rand(1), ...` returns after using `draws` of them. */
  ghost predicate LeastSeparatingAssignment(chainIDs: map<nat, u32>, rand: nat -> u32, r: Assignment, draws: nat)
    requires r.Assigned?
  {
    && 0 < draws && r.merkleNonce == rand(draws - 1)
    && exists k: nat ::
         LeastSeparatingExponent(chainIDs, k) && r.merkleSize == Pow2(k) && draws == DrawsFor(chainIDs, k)
  }

  ghost predicate LeastSeparatingExponent(chainIDs: map<nat, u32>, k: nat) {
    && k <= 31
    && CeilLog2(|chainIDs|) <= k
    && Separates(chainIDs, Pow2(k))
    && NoneSeparates(chainIDs, 0, k)
  }

  ghost predicate NoneSeparates(chainIDs: map<nat, u32>, lo: nat, hi: nat) {
    forall j: nat {:trigger Separates(chainIDs, Pow2(j))} | lo <= j < hi :: !Separates(chainIDs, Pow2(j))
  }

  /** Five failed draws for every size tried before the last, and one draw at the last. */
  ghost function DrawsFor(chainIDs: map<nat, u32>, k: nat): int {
    5 * (k - CeilLog2(|chainIDs|)) + 1
  }

  /** The table of the chains visited so far in one attempt. */
  ghost predicate PartialTable(chainIDs: map<nat, u32>, visited: set<nat>, nonce: u32, size: u32, slots: map<u32, u32>)
  {
    && size > 0
    && visited <= chainIDs.Keys
    && (forall i | i in visited :: chainIDs[i] in slots)
    && (forall id | id in slots :: exists i :: i in visited && chainIDs[i] == id)
    && (forall id | id in slots :: slots[id] == GetChainSlot(id, size, nonce))
    && (forall i, j | i in visited && j in visited && i != j :: slots[chainIDs[i]] != slots[chainIDs[j]])
  }

  lemma ExtendTable(chainIDs: map<nat, u32>, visited: set<nat>, nonce: u32, size: u32, slots: map<u32, u32>, index: nat)
    requires PartialTable(chainIDs, visited, nonce, size, slots)
    requires index in chainIDs && index !in visited
    requires forall id | id in slots :: slots[id] != GetChainSlot(chainIDs[index], size, nonce)
    ensures PartialTable(chainIDs, visited + {index}, nonce, size,
                         slots[chainIDs[index] := GetChainSlot(chainIDs[index], size, nonce)])
  {
    var id := chainIDs[index];
    var slots' := slots[id := GetChainSlot(id, size, nonce)];
    assert id !in slots;
    forall x | x in slots' ensures exists i :: i in visited + {index} && chainIDs[i] == x {
      if x == id {
        assert index in visited + {index};
      } else {
        var i :| i in visited && chainIDs[i] == x;
        assert i in visited + {index};
      }
    }
  }

  lemma CollisionFound(chainIDs: map<nat, u32>, visited: set<nat>, k: nat, nonce: u32, size: u32,
                       slots: map<u32, u32>, index: nat, other: u32)
    requires k <= 31 && size == Pow2(k)
    requires PartialTable(chainIDs, visited, nonce, size, slots)
    requires index in chainIDs && index !in visited
    requires other in slots && slots[other] == GetChainSlot(chainIDs[index], size, nonce)
    ensures !Separates(chainIDs, Pow2(k))
  {
    var j :| j in visited && chainIDs[j] == other;
    SlotsCollideIff(chainIDs[index], other, k, size, nonce);
  }

  lemma TableSeparates(chainIDs: map<nat, u32>, k: nat, nonce: u32, size: u32, slots: map<u32, u32>)
    requires k <= 31 && size == Pow2(k)
    requires PartialTable(chainIDs, chainIDs.Keys, nonce, size, slots)
    ensures Separates(chainIDs, Pow2(k))
    ensures IsSlotTable(chainIDs, nonce, size, slots)
  {
    forall i, j | i in chainIDs && j in chainIDs && i != j
      ensures chainIDs[i] % size != chainIDs[j] % size
    {
      SlotsCollideIff(chainIDs[i], chainIDs[j], k, size, nonce);
    }
    assert slots.Keys == chainIDs.Values;
  }

  /** The first loop: the least power of two that is at least the chain count, or `None` when it runs on forever. */
  method InitialSize(chainSize: u32) returns (overflow: bool, merkleSize: u32, ghost k: nat)
    ensures overflow <==> chainSize > 0x8000_0000
    ensures !overflow ==> k == CeilLog2(chainSize) && k <= 31 && merkleSize == Pow2(k)
  {
    Pow2Constants();
    overflow := false;
    merkleSize := 1;
    k := 0;
    hide CeilLog2From;
    while merkleSize < chainSize && !overflow
      invariant k <= 31 && CeilLog2(chainSize) == CeilLog2From(chainSize, k)
      invariant if overflow then chainSize > 0x8000_0000 else merkleSize == Pow2(k)
      decreases 32 - k, !overflow
    {
      DoubleSize(k, merkleSize);
      NextExponent(chainSize, k);
      hide Pow2;
      merkleSize := (merkleSize * 2) % TWO32;
      if merkleSize == 0 {
        overflow := true;
      } else {
        k := k + 1;
      }
    }
    if !overflow {
      Pow2Monotone(k, 31);
      FoundExponent(chainSize, k);
      hide Pow2;
    }
  }

  lemma FoundExponent(n: nat, k: nat)
    requires n <= Pow2(k)
    ensures CeilLog2From(n, k) == k
  {
  }

  lemma NextExponent(n: nat, k: nat)
    requires Pow2(k) < n
    ensures CeilLog2From(n, k) == CeilLog2From(n, k + 1)
  {
  }

  /** One attempt: fills both tables for `nonce`, giving up at the first chain whose slot is taken. */
  method FillSlots(chainIDs: map<nat, u32>, nonce: u32, merkleSize: u32, ghost k: nat)
    returns (slots: map<u32, u32>, chains: map<u32, u32>, slotConflict: bool)
    requires k <= 31 && merkleSize == Pow2(k)
    ensures slotConflict <==> !Separates(chainIDs, Pow2(k))
    ensures !slotConflict ==> IsSlotTable(chainIDs, nonce, merkleSize, slots) && Inverse(slots, chains)
  {
    slots, chains, slotConflict := map[], map[], false;
    var remaining := chainIDs.Keys;
    while remaining != {} && !slotConflict
      invariant remaining <= chainIDs.Keys
      invariant !slotConflict ==> PartialTable(chainIDs, chainIDs.Keys - remaining, nonce, merkleSize, slots)
      invariant !slotConflict ==> Inverse(slots, chains)
      invariant slotConflict ==> !Separates(chainIDs, Pow2(k))
      decreases remaining, !slotConflict
    {
      var index :| index in remaining;
      var chainID := chainIDs[index];
      var slot := GetChainSlot(chainID, merkleSize, nonce);
      if slot in chains {
        CollisionFound(chainIDs, chainIDs.Keys - remaining, k, nonce, merkleSize, slots, index, chains[slot]);
        slotConflict := true;
        slots, chains := map[], map[];
      } else {
        ExtendTable(chainIDs, chainIDs.Keys - remaining, nonce, merkleSize, slots, index);
        chains := chains[slot := chainID];
        slots := slots[chainID := slot];
        assert chainIDs.Keys - (remaining - {index}) == (chainIDs.Keys - remaining) + {index};
        remaining := remaining - {index};
      }
    }
    if !slotConflict {
      assert chainIDs.Keys - remaining == chainIDs.Keys;
      TableSeparates(chainIDs, k, nonce, merkleSize, slots);
    }
  }

  /** Sizes below the chain count never separate the chains. */
  lemma TooSmall(chainIDs: map<nat, u32>)
    ensures NoneSeparates(chainIDs, 0, CeilLog2(|chainIDs|))
  {
    forall j: nat {:trigger Separates(chainIDs, Pow2(j))} | j < CeilLog2(|chainIDs|)
      ensures !Separates(chainIDs, Pow2(j))
    {
      CeilLog2IsLeast(|chainIDs|, 0, j);
      if Separates(chainIDs, Pow2(j)) {
        SeparatesNeedsRoom(chainIDs, Pow2(j));
      }
    }
  }

  lemma InRange(x: nat)
    requires x < TWO32
    ensures x % TWO32 == x
  {
  }

  lemma NoneSeparatesJoin(chainIDs: map<nat, u32>, mid: nat, hi: nat)
    requires NoneSeparates(chainIDs, 0, mid) && NoneSeparates(chainIDs, mid, hi)
    ensures NoneSeparates(chainIDs, 0, hi)
  {
  }

  lemma NoneSeparatesEmpty(chainIDs: map<nat, u32>, k: nat)
    ensures NoneSeparates(chainIDs, k, k)
  {
  }

  lemma NoneSeparatesExtend(chainIDs: map<nat, u32>, lo: nat, k: nat)
    requires NoneSeparates(chainIDs, lo, k) && !Separates(chainIDs, Pow2(k))
    ensures NoneSeparates(chainIDs, lo, k + 1)
  {
  }

  /** A size that separates, and with it the chain count, is at most 2^31 exactly when 2^31 itself separates. */
  lemma LastSize(chainIDs: map<nat, u32>, k: nat)
    requires k <= 31 && Separates(chainIDs, Pow2(k))
    ensures Separates(chainIDs, 0x8000_0000) && |chainIDs| <= 0x8000_0000
  {
    Pow2Constants();
    SeparatesMonotone(chainIDs, k, 31);
    SeparatesNeedsRoom(chainIDs, 0x8000_0000);
  }

  lemma NoRoom(chainIDs: map<nat, u32>)
    requires |chainIDs| > 0x8000_0000
    ensures !Separates(chainIDs, 0x8000_0000)
  {
    if Separates(chainIDs, 0x8000_0000) {
      SeparatesNeedsRoom(chainIDs, 0x8000_0000);
    }
  }

  /** Doubling wraps to 0 exactly at 2^31. */
  lemma DoubleSize(k: nat, size: u32)
    requires k <= 31 && size == Pow2(k)
    ensures (size * 2) % TWO32 == if k == 31 then 0 else Pow2(k + 1)
    ensures k == 31 ==> size == 0x8000_0000
  {
    Pow2Constants();
    if k < 31 {
      Pow2Monotone(k + 1, 31);
    }
  }

  /**
    Draws nonces until all slots differ, doubling the tree after five failed draws at one size.
    It succeeds exactly when the chain IDs differ modulo 2^31, and then returns the least power of two that separates
    them, whatever the nonces are and in whatever order the chain table is walked.
  */
  method AssignChainSlots(chainIDs: map<nat, u32>, rand: nat -> u32) returns (r: Assignment, draws: nat)
    ensures r.Assigned? <==> Separates(chainIDs, 0x8000_0000)
    ensures r.Assigned? ==> LeastSeparatingAssignment(chainIDs, rand, r, draws)
    ensures r.Assigned? ==> IsSlotTable(chainIDs, r.merkleNonce, r.merkleSize, r.chainIDIndexSlots)
    ensures r.Assigned? ==>
              r.merkleSize > 0 && IsPublishedTable(r.merkleNonce, r.merkleSize, r.chainIDIndexSlots)
    ensures r.Assigned? ==> Inverse(r.chainIDIndexSlots, r.slotIndexChainIDs)
    ensures r.SizingDiverges? <==> |chainIDs| % TWO32 > 0x8000_0000
    ensures r.DivisionByZero? ==> draws == 5 * (32 - CeilLog2(|chainIDs| % TWO32)) + 1
  {
    hide Separates, NoneSeparates, IsSlotTable, Inverse;
    draws := 0;
    var overflow: bool;
    var merkleSize: u32;
    ghost var k: nat;
    overflow, merkleSize, k := InitialSize(|chainIDs| % TWO32);
    if overflow {
      NoRoom(chainIDs);
      return SizingDiverges, draws;
    }
    ghost var k0 := k;
    NoneSeparatesEmpty(chainIDs, k0);

    var nonce: u32 := 0;
    var slots: map<u32, u32> := map[];
    var chains: map<u32, u32> := map[];
    var slotConflict := true;
    var retryTimes := 1;
    while slotConflict
      invariant k0 <= k <= 32 && merkleSize == (if k == 32 then 0 else Pow2(k))
      invariant NoneSeparates(chainIDs, k0, k)
      invariant slotConflict ==> 1 <= retryTimes <= ATTEMPTS_PER_SIZE
      invariant slotConflict ==> draws == ATTEMPTS_PER_SIZE * (k - k0) + retryTimes - 1
      invariant slotConflict && retryTimes > 1 ==> k < 32 && !Separates(chainIDs, Pow2(k))
      invariant !slotConflict ==> k < 32 && Separates(chainIDs, Pow2(k))
      invariant !slotConflict ==> draws == ATTEMPTS_PER_SIZE * (k - k0) + 1 && nonce == rand(draws - 1)
      invariant !slotConflict ==> IsSlotTable(chainIDs, nonce, merkleSize, slots) && Inverse(slots, chains)
      decreases slotConflict, 32 - k, ATTEMPTS_PER_SIZE - retryTimes
    {
      nonce := rand(draws);
      draws := draws + 1;
      if merkleSize == 0 {
        // here the first chain's slot is a remainder by zero
        NeverSeparated(chainIDs, k0);
        return DivisionByZero, draws;
      }
      slots, chains, slotConflict := FillSlots(chainIDs, nonce, merkleSize, k);
      if slotConflict && retryTimes >= ATTEMPTS_PER_SIZE {
        retryTimes := 0;
        DoubleSize(k, merkleSize);
        NoneSeparatesExtend(chainIDs, k0, k);
        merkleSize := (merkleSize * 2) % TWO32;
        k := k + 1;
      }
      retryTimes := retryTimes + 1;
    }
    r := Assigned(nonce, merkleSize, slots, chains);
    LeastExponentFound(chainIDs, k0, k);
    TableIsPublished(chainIDs, k, nonce, merkleSize, slots);
  }

  /** Every slot is the one that the published formula gives, over unbounded integers. */
  ghost predicate IsPublishedTable(nonce: u32, size: u32, slots: map<u32, u32>)
    requires size > 0
  {
    forall id | id in slots :: slots[id] == (1103515245 * (1103515245 * nonce + 12345 + id) + 12345) % size
  }

  lemma TableIsPublished(chainIDs: map<nat, u32>, k: nat, nonce: u32, size: u32, slots: map<u32, u32>)
    requires k <= 31 && size == Pow2(k) && IsSlotTable(chainIDs, nonce, size, slots)
    ensures IsPublishedTable(nonce, size, slots)
  {
    hide GetChainSlot;
    forall id | id in slots
      ensures slots[id] == (1103515245 * (1103515245 * nonce + 12345 + id) + 12345) % size
    {
      SlotIsPublishedFormula(id, k, size, nonce);
    }
  }

  /** When every size from the initial one up to 2^31 fails, 2^31 itself does. */
  lemma NeverSeparated(chainIDs: map<nat, u32>, k0: nat)
    requires k0 <= 31 && NoneSeparates(chainIDs, k0, 32)
    ensures !Separates(chainIDs, 0x8000_0000)
  {
    Pow2Constants();
    assert !Separates(chainIDs, Pow2(31));
  }

  lemma LeastExponentFound(chainIDs: map<nat, u32>, k0: nat, k: nat)
    requires k0 == CeilLog2(|chainIDs| % TWO32) && k0 <= k <= 31
    requires NoneSeparates(chainIDs, k0, k) && Separates(chainIDs, Pow2(k))
    ensures Separates(chainIDs, 0x8000_0000)
    ensures LeastSeparatingExponent(chainIDs, k) && DrawsFor(chainIDs, k) == 5 * (k - k0) + 1
  {
    LastSize(chainIDs, k);
    InRange(|chainIDs|);
    TooSmall(chainIDs);
    NoneSeparatesJoin(chainIDs, k0, k);
  }
}
