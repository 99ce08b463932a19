/**
  The session ID allocator: a growing bit set of taken indices, a count, and a cursor that moves by a stride.

  An ID is the server ID shifted left by `indexBits`, or-ed with an index. Each method runs under the manager's lock.
*/
module SessionIDs {
  import opened Bits
  import opened Byte32
  import ChainSlot

  const FIRST_INDEX: u32 := 128

  /** The guarded fields; `taken` is the bit set, which grows when a bit beyond its length is set. */
  datatype Ids = Ids(serverID: u32, indexBits: nat, taken: set<nat>, allocIDx: u32, allocInterval: u32)

  /** The number of indices, one more than the mask. */
  function Size(s: Ids): (n: nat)
    ensures n >= 1
  {
    Pow2(s.indexBits)
  }

  /** `sessionID & sessionIDMask`. */
  function IndexOf(s: Ids, sessionID: u32): (index: nat)
    ensures index < Size(s)
  {
    sessionID % Size(s)
  }

  ghost predicate WellFormed(s: Ids) {
    && s.indexBits <= 24
    && HasServer(s.serverID, Size(s))
    && |Outside(s)| <= Size(s)
  }

  /** `serverID` is a server number from 1 to 255 above the index bits. */
  ghost predicate HasServer(serverID: u32, n: nat) {
    exists server: nat :: 0 < server < 256 && serverID == server * n
  }

  /** The taken bits beyond the mask. */
  ghost function Outside(s: Ids): set<nat> {
    set i | i in s.taken && i >= Size(s)
  }

  /** The cursor and all taken bits are within the mask. */
  ghost predicate InRange(s: Ids) {
    s.allocIDx < Size(s) && forall i | i in s.taken :: i < Size(s)
  }

  ghost predicate Full(s: Ids) {
    |s.taken| >= Size(s)
  }

  // ---- Allocation ----

  /** The index looked at after `d` steps of the search. */
  function Probe(s: Ids, d: nat): nat {
    if d == 0 then s.allocIDx else (s.allocIDx + d) % Size(s)
  }

  /** The search stops after `d` steps: the first free index cyclically from the cursor. */
  ghost predicate StopsAt(s: Ids, d: nat) {
    Probe(s, d) !in s.taken && forall e: nat | e < d :: Probe(s, e) in s.taken
  }

  /** A `uint32` sum, masked. */
  function Masked(s: Ids, x: nat): (r: u32)
    ensures r < Size(s)
  {
    RemainderIsSmaller(x % TWO32, Size(s));
    x % TWO32 % Size(s)
  }

  lemma RemainderIsSmaller(w: nat, n: nat)
    requires n > 0
    ensures 0 <= w % n <= w && w % n < n
  {
    if w < n {
      ModUnique(w, n, 0, w);
    }
  }

  function Allocated(s: Ids, d: nat): Ids {
    s.(taken := s.taken + {Probe(s, d)}, allocIDx := Masked(s, Probe(s, d) + s.allocInterval))
  }

  function AllocatedID(s: Ids, d: nat): nat {
    Or(s.serverID, Probe(s, d))
  }

  ghost predicate Allocates(s: Ids, s': Ids, sessionID: nat) {
    !Full(s) && exists d: nat :: StopsAt(s, d) && s' == Allocated(s, d) && sessionID == AllocatedID(s, d)
  }

  function Resumed(s: Ids, sessionID: u32): Ids {
    var index := IndexOf(s, sessionID);
    if index in s.taken then s
    else s.(taken := s.taken + {index},
            allocIDx := if s.allocIDx <= index then (index + s.allocInterval) % TWO32 else s.allocIDx)
  }

  function Freed(s: Ids, sessionID: u32): Ids {
    s.(taken := s.taken - {IndexOf(s, sessionID)})
  }

  // ---- The search ----

  lemma SizeBound(s: Ids)
    requires s.indexBits <= 24
    ensures Size(s) <= 0x100_0000
    ensures exists c: nat :: c > 0 && TWO32 == Size(s) * c
  {
    Pow2Constants();
    Pow2Monotone(s.indexBits, 24);
    Pow2Add(s.indexBits, 32 - s.indexBits);
    assert TWO32 == Size(s) * Pow2(32 - s.indexBits);
  }

  lemma ReduceTwice(x: nat, s: Ids)
    requires s.indexBits <= 24
    ensures x % TWO32 % Size(s) == x % Size(s)
  {
    ChainSlot.ReduceFirst(x, s.indexBits);
  }

  lemma MaskByAnd(s: Ids, x: nat)
    requires s.indexBits <= 24
    ensures And(x % TWO32, Size(s) - 1) == Masked(s, x)
  {
    AndMask(x % TWO32, s.indexBits);
  }

  /** One step of the search, `(allocIDx + 1) & mask`. */
  lemma ProbeStep(s: Ids, d: nat)
    requires s.indexBits <= 24
    ensures And((Probe(s, d) + 1) % TWO32, Size(s) - 1) == Probe(s, d + 1) < Size(s) <= TWO32
  {
    SizeBound(s);
    MaskByAnd(s, Probe(s, d) + 1);
    ReduceTwice(Probe(s, d) + 1, s);
    if d > 0 {
      AddAfterMod(s.allocIDx + d, 1, Size(s));
    }
  }

  lemma AddAfterMod(x: nat, y: nat, n: int)
    requires n > 0
    ensures (x % n + y) % n == (x + y) % n
  {
    ChainSlot.CongruentIff(x % n + y, x + y, n);
    var q := x / n;
    assert (x % n + y) - (x + y) == n * (-q);
    ModUnique((x % n + y) - (x + y), n, -q, 0);
  }

  /** When every index has been probed and found taken, the manager is full. */
  lemma AllProbed(s: Ids)
    requires forall e: nat | e <= Size(s) :: Probe(s, e) in s.taken
    ensures Full(s)
  {
    var n := Size(s);
    forall v: nat | v < n ensures v in s.taken {
      var e := ProbeReaches(s, v);
      assert Probe(s, e) in s.taken;
    }
    RangeInside(n, s.taken);
  }

  lemma ProbeReaches(s: Ids, v: nat) returns (e: nat)
    requires v < Size(s)
    ensures 0 < e <= Size(s) && Probe(s, e) == v
  {
    var n := Size(s);
    var r := s.allocIDx % n;
    e := if v > r then v - r else v - r + n;
    AddAfterMod(s.allocIDx, e, n);
    if v > r {
      ModUnique(r + e, n, 0, v);
    } else {
      ModUnique(r + e, n, 1, v);
    }
  }

  lemma {:induction false} RangeInside(n: nat, t: set<nat>)
    requires forall v: nat | v < n :: v in t
    ensures |t| >= n
  {
    if n > 0 {
      RangeInside(n - 1, t - {n - 1});
    }
  }

  /** The search always ends unless the manager is full, and where it ends is determined. */
  lemma SearchEnds(s: Ids) returns (d: nat)
    requires !Full(s)
    ensures StopsAt(s, d) && d <= Size(s)
    ensures InRange(s) ==> d < Size(s)
  {
    d := 0;
    while Probe(s, d) in s.taken
      invariant d <= Size(s) && forall e: nat | e < d :: Probe(s, e) in s.taken
      decreases Size(s) - d
    {
      if d == Size(s) {
        AllProbed(s);
      }
      d := d + 1;
    }
    if d == Size(s) && InRange(s) {
      ModUnique(s.allocIDx + Size(s), Size(s), 1, s.allocIDx);
      assert Probe(s, d) == Probe(s, 0);
    }
  }

  lemma StopsAtUnique(s: Ids, d: nat, e: nat)
    requires StopsAt(s, d) && StopsAt(s, e)
    ensures d == e
  {
  }

  // ---- What the operations keep ----

  /** Within range, being full is exactly having every index taken. */
  lemma FullIffEveryIndexTaken(s: Ids)
    requires InRange(s)
    ensures Full(s) <==> forall v: nat | v < Size(s) :: v in s.taken
  {
    if forall v: nat | v < Size(s) :: v in s.taken {
      RangeInside(Size(s), s.taken);
    } else {
      var v: nat :| v < Size(s) && v !in s.taken;
      RangeOutside(Size(s), s.taken + {v});
    }
  }

  lemma {:induction false} RangeOutside(n: nat, t: set<nat>)
    requires forall v | v in t :: v < n
    ensures |t| <= n
  {
    ChainSlot.RangeSize(t, n);
  }

  /** An allocation in range returns a well-formed ID whose index was free, and stays in range. */
  lemma AllocationInRange(s: Ids, d: nat)
    requires WellFormed(s) && InRange(s) && StopsAt(s, d)
    ensures InRange(Allocated(s, d))
    ensures AllocatedID(s, d) == s.serverID + Probe(s, d) < TWO32
    ensures IndexOf(s, AllocatedID(s, d)) == Probe(s, d) < Size(s)
    ensures Probe(s, d) !in s.taken && Probe(s, d) in Allocated(s, d).taken
  {
    var server: nat :| 0 < server < 256 && s.serverID == server * Size(s);
    SizeBound(s);
    assert Probe(s, d) < Size(s);
    hide Probe, Masked;
    IDParts(server, s.indexBits, Size(s), Probe(s, d));
  }

  lemma IDParts(server: nat, bits: nat, n: nat, i: nat)
    requires server < 256 && n == Pow2(bits) && n <= 0x100_0000 && i < n
    ensures Or(server * n, i) == server * n + i < TWO32
    ensures (server * n + i) % n == i && (server * n + i) / n == server
  {
    OrDisjoint(server, bits, i);
    PartsOfSum(server, n, i);
  }

  lemma PartsOfSum(server: nat, n: nat, i: nat)
    requires server < 256 && n <= 0x100_0000 && i < n
    ensures server * n + i < TWO32
    ensures (server * n + i) % n == i && (server * n + i) / n == server
  {
    assert 255 * n + n <= TWO32;
    hide *;
    MagnitudeBound(server, n);
    ModUnique(server * n + i, n, server, i);
  }

  lemma MagnitudeBound(server: nat, n: nat)
    requires server <= 255
    ensures server * n <= 255 * n
  {
  }

  /** A resume in range stays in range exactly when the cursor does not jump past the mask. */
  lemma ResumeInRangeIff(s: Ids, sessionID: u32)
    requires InRange(s)
    ensures InRange(Resumed(s, sessionID)) <==>
            || IndexOf(s, sessionID) in s.taken
            || IndexOf(s, sessionID) < s.allocIDx
            || (IndexOf(s, sessionID) + s.allocInterval) % TWO32 < Size(s)
  {
  }

  /**
    A resume never moves the cursor back. An ID that was not occupied and lies at or above the cursor moves it one
    stride above its index, unless that wraps; any other leaves it. Afterwards the cursor is above the index, or at it
    if there is no stride.
  */
  lemma ResumeMovesCursor(s: Ids, sessionID: u32)
    requires IndexOf(s, sessionID) + s.allocInterval < TWO32
    ensures var i, before, after := IndexOf(s, sessionID), s.allocIDx, Resumed(s, sessionID).allocIDx;
            && before <= after
            && (i in s.taken || i < before ==> after == before)
            && (i !in s.taken && i >= before ==> after == i + s.allocInterval)
            && (i !in s.taken && s.allocInterval > 0 ==> after > i)
    ensures Resumed(s, sessionID).taken == s.taken + {IndexOf(s, sessionID)}
  {
    var x := IndexOf(s, sessionID) + s.allocInterval;
    ModUnique(x, TWO32, 0, x);
  }

  lemma FreeInRange(s: Ids, sessionID: u32)
    requires InRange(s)
    ensures InRange(Freed(s, sessionID)) && IndexOf(s, sessionID) !in Freed(s, sessionID).taken
  {
  }

  // ---- When an ID in use is handed out again ----

  /**
    An allocation returns an ID whose index is taken exactly when the cursor is beyond the mask, is itself free
    there, and its masked value is taken.
  */
  lemma ReissuesIff(s: Ids, d: nat)
    requires WellFormed(s) && StopsAt(s, d)
    ensures AllocatedID(s, d) < TWO32
    ensures IndexOf(s, AllocatedID(s, d)) in s.taken <==>
            s.allocIDx >= Size(s) && s.allocIDx !in s.taken && s.allocIDx % Size(s) in s.taken
  {
    AllocatedIndex(s, d);
    if Probe(s, d) < Size(s) {
      ModUnique(Probe(s, d), Size(s), 0, Probe(s, d));
      assert Probe(s, 0) == s.allocIDx;
    }
  }

  /** The part of a number above the index bits: the server ID of a session ID. */
  function AboveMask(s: Ids, x: nat): nat {
    QuotientIsNat(x, Size(s));
    x / Size(s)
  }

  lemma QuotientIsNat(x: nat, n: nat)
    requires n > 0
    ensures x / n >= 0
  {
    hide *;
    if x / n < 0 {
      MulMagnitude(n, x / n);
    }
  }

  /** The server part of an allocated ID: the bits of an index beyond the mask are or-ed into the server ID. */
  lemma AllocatedServer(s: Ids, d: nat, server: nat)
    requires s.serverID == server * Size(s)
    ensures AboveMask(s, AllocatedID(s, d)) == Or(server, AboveMask(s, Probe(s, d)))
  {
    assert AllocatedID(s, d) == Or(server * Size(s), Probe(s, d));
    assert forall x: nat :: AboveMask(s, x) == x / Size(s);
    assert Size(s) == Pow2(s.indexBits);
    var p, n := Probe(s, d), Size(s);
    var q, r := AboveMask(s, p), p % n;
    hide Or, Probe, Masked;
    Decompose(p, n);
    OrAligned(server, q, s.indexBits, r);
    hide *;
    Recompose(n, Or(server, q), r);
  }

  lemma Decompose(p: nat, n: nat)
    requires n > 0
    ensures p == p / n * n + p % n
  {
    hide *;
    Commute(p / n, n);
  }

  lemma Commute(a: int, b: int)
    ensures a * b == b * a
  {
  }

  lemma Recompose(n: nat, q: nat, r: nat)
    requires r < n
    ensures (q * n + r) / n == q
  {
    hide *;
    Commute(q, n);
    ModUnique(q * n + r, n, q, r);
  }

  /**
    An index up to a whole range beyond the mask puts the ID into another server's range exactly
    for even server IDs.
  */
  lemma OtherServerIff(s: Ids, d: nat, server: nat)
    requires s.serverID == server * Size(s) && Size(s) <= Probe(s, d) < 2 * Size(s)
    ensures AboveMask(s, AllocatedID(s, d)) != server <==> server % 2 == 0
  {
    AllocatedServer(s, d, server);
    ModUnique(Probe(s, d), Size(s), 1, Probe(s, d) - Size(s));
    OrZero(server / 2);
  }

  /**
    Freeing an allocated ID undoes the allocation exactly when its index was within the mask. Otherwise the bit that
    was set stays set, and the masked index, which another session may hold, is cleared instead.
  */
  lemma FreeUndoesAllocationIff(s: Ids, d: nat)
    requires WellFormed(s) && StopsAt(s, d)
    ensures AllocatedID(s, d) < TWO32
    ensures var freed := Freed(Allocated(s, d), AllocatedID(s, d));
            && (freed.taken == s.taken <==> Probe(s, d) < Size(s))
            && (Probe(s, d) >= Size(s) ==> Probe(s, d) in freed.taken && Probe(s, d) % Size(s) !in freed.taken)
  {
    AllocatedIndex(s, d);
    var p, n := Probe(s, d), Size(s);
    if p < n {
      ModUnique(p, n, 0, p);
    }
    hide Probe, AllocatedID, Size, WellFormed, Masked;
    assert Allocated(s, d).taken == s.taken + {p};
    assert Freed(Allocated(s, d), AllocatedID(s, d)).taken == s.taken + {p} - {p % n};
  }

  lemma AllocatedIndex(s: Ids, d: nat)
    requires WellFormed(s)
    ensures AllocatedID(s, d) < TWO32
    ensures IndexOf(s, AllocatedID(s, d)) == IndexOf(Allocated(s, d), AllocatedID(s, d)) == Probe(s, d) % Size(s)
  {
    var server: nat :| 0 < server < 256 && s.serverID == server * Size(s);
    SizeBound(s);
    hide Or, Probe;
    OrFits(s.serverID, Probe(s, d));
    OrLowBits(server, s.indexBits, Probe(s, d));
  }

  /**
    `ResumeSessionID` adds the stride without masking. With the Ethereum stride, resuming two distinct IDs
    makes the next allocation return the first of them while it is still in use.
  */
  lemma ResumeCanReissue() returns (s: Ids, next: Ids, sessionID: u32)
    ensures s == Resumed(Resumed(Fresh(0xff, 16).(allocInterval := 256), 0xff0080), 0xffff80)
    ensures Allocates(s, next, sessionID)
    ensures sessionID == 0xff0080 && IndexOf(s, 0xff0080) in s.taken
    ensures IndexOf(s, 0xff0080) != IndexOf(s, 0xffff80)
  {
    var empty := Fresh(0xff, 16).(allocInterval := 256);
    Pow2Constants();
    assert Size(empty) == 0x1_0000;
    s := Resumed(Resumed(empty, 0xff0080), 0xffff80);
    assert s.allocIDx == 0x1_0080 && s.taken == {0x80, 0xff80} && s.serverID == 0xff_0000;
    next := Allocated(s, 0);
    assert StopsAt(s, 0);
    OverlappingOr();
    hide Or;
    sessionID := 0xff_0080;
  }

  lemma OverlappingOr()
    ensures Or(0xff_0000, 0x1_0080) == 0xff_0080
  {
    assert Or(0xff, 1) == 0xff;
    Pow2Constants();
    OrAligned(0xff, 1, 16, 0x80);
  }

  // ---- The manager ----

  /** `NewSessionIDManager`: the first index handed out is 128. */
  function Fresh(serverID: byte, indexBits: nat): Ids
    requires indexBits <= 24
  {
    ServerIDFits(serverID, indexBits);
    Ids(serverID as int * Pow2(indexBits), indexBits, {}, FIRST_INDEX, 0)
  }

  lemma ServerIDFits(serverID: byte, indexBits: nat)
    requires indexBits <= 24
    ensures 0 <= serverID as int * Pow2(indexBits) < TWO32
    ensures Shl32(serverID as int, indexBits) == serverID as int * Pow2(indexBits)
  {
    Pow2Constants();
    Pow2Monotone(indexBits, 24);
    ProductFits(serverID as int, Pow2(indexBits));
  }

  lemma ProductFits(server: nat, n: nat)
    requires server < 256 && 0 < n <= 0x100_0000
    ensures 0 <= server * n < TWO32 && server * n % TWO32 == server * n
  {
    PartsOfSum(server, n, 0);
    hide Or;
    ModUnique(server * n, TWO32, 0, server * n);
  }

  /** A fresh manager is in range exactly when it has at least eight index bits. */
  lemma FreshInRangeIff(serverID: byte, indexBits: nat)
    requires serverID != 0 && indexBits <= 24
    ensures WellFormed(Fresh(serverID, indexBits))
    ensures InRange(Fresh(serverID, indexBits)) <==> indexBits >= 8
  {
    Pow2Constants();
    var s := Fresh(serverID, indexBits);
    assert Outside(s) == {};
    assert s.serverID == serverID as int * Size(s);
    if indexBits >= 8 {
      Pow2Monotone(8, indexBits);
    } else {
      Pow2Strict(indexBits, 8);
    }
  }

  /** Taken bits inside the mask number at most `Size`, so the count never wraps. */
  lemma CountFits(s: Ids)
    requires WellFormed(s)
    ensures |s.taken| <= 2 * Size(s) <= 0x200_0000
  {
    SizeBound(s);
    var inside := s.taken - Outside(s);
    RangeOutside(Size(s), inside);
    assert s.taken == inside + Outside(s);
  }

  lemma AllocationWellFormed(s: Ids, d: nat)
    requires WellFormed(s) && StopsAt(s, d) && !Full(s)
    ensures WellFormed(Allocated(s, d))
    ensures |Allocated(s, d).taken| == |s.taken| + 1
  {
    var t := Allocated(s, d);
    Subset(Outside(t), t.taken);
  }

  lemma ResumeWellFormed(s: Ids, sessionID: u32)
    requires WellFormed(s)
    ensures WellFormed(Resumed(s, sessionID))
  {
    assert Outside(Resumed(s, sessionID)) == Outside(s);
  }

  lemma FreeWellFormed(s: Ids, sessionID: u32)
    requires WellFormed(s)
    ensures WellFormed(Freed(s, sessionID))
  {
    assert Outside(Freed(s, sessionID)) == Outside(s);
  }

  lemma {:induction false} Subset(a: set<nat>, b: set<nat>)
    requires a <= b
    ensures |a| <= |b|
  {
    assert b == a + (b - a);
  }

  class SessionIDManager {
    var serverID: u32
    var sessionIDs: set<nat>
    var count: u32
    var allocIDx: u32
    var allocInterval: u32
    var indexBits: nat
    var sessionIDMask: u32

    function State(): Ids
      reads this
    {
      Ids(serverID, indexBits, sessionIDs, allocIDx, allocInterval)
    }

    ghost predicate Valid()
      reads this
    {
      && WellFormed(State())
      && count == |sessionIDs|
      && sessionIDMask == Size(State()) - 1
    }

    constructor (serverID: byte, indexBits: nat)
      requires serverID != 0 && indexBits <= 24
      ensures Valid() && State() == Fresh(serverID, indexBits)
    {
      SizeBound(Fresh(serverID, indexBits));
      FreshInRangeIff(serverID, indexBits);
      ServerIDFits(serverID, indexBits);
      sessionIDMask := Pow2(indexBits) - 1;
      this.serverID := Shl32(serverID as int, indexBits);
      sessionIDs := {};
      count := 0;
      allocIDx := FIRST_INDEX;
      allocInterval := 0;
      this.indexBits := indexBits;
    }

    method SetAllocInterval(interval: u32)
      requires Valid()
      modifies this`allocInterval
      ensures Valid() && State() == old(State()).(allocInterval := interval)
    {
      allocInterval := interval;
      assert Outside(State()) == Outside(old(State()));
    }

    method IsFull() returns (full: bool)
      requires Valid()
      ensures full <==> Full(State())
    {
      full := count > sessionIDMask;
    }

    /** The search loop of `AllocSessionID`. */
    method FindEmptyBit() returns (ghost d: nat)
      requires Valid() && !Full(State())
      modifies this`allocIDx
      ensures StopsAt(old(State()), d) && allocIDx == Probe(old(State()), d)
    {
      ghost var s := State();
      SizeBound(s);
      d := 0;
      while allocIDx in sessionIDs
        invariant d <= Size(s) && allocIDx == Probe(s, d)
        invariant forall e: nat | e < d :: Probe(s, e) in s.taken
        decreases Size(s) - d
      {
        if d == Size(s) {
          AllProbed(s);
        }
        ProbeStep(s, d);
        hide And, Probe;
        allocIDx := And((allocIDx + 1) % TWO32, sessionIDMask);
        d := d + 1;
      }
    }

    /** When the manager is full the mask is returned with the error. */
    method AllocSessionID() returns (sessionID: u32, ok: bool)
      requires Valid()
      modifies this
      ensures Valid()
      ensures ok <==> !Full(old(State()))
      ensures ok ==> Allocates(old(State()), State(), sessionID)
      ensures !ok ==> State() == old(State()) && sessionID == Size(State()) - 1
    {
      ghost var s := State();
      var full := IsFull();
      if full {
        return sessionIDMask, false;
      }
      ghost var d := FindEmptyBit();
      AllocationWellFormed(s, d);
      CountFits(s);
      assert Allocates(s, Allocated(s, d), AllocatedID(s, d));
      hide Allocates, WellFormed, Or, And, StopsAt, Full;
      sessionIDs := sessionIDs + {allocIDx};
      count := count + 1;
      OrFits(serverID, allocIDx);
      sessionID := Or(serverID, allocIDx);
      ok := true;
      MaskByAnd(s, allocIDx + allocInterval);
      allocIDx := And((allocIDx + allocInterval) % TWO32, sessionIDMask);
      assert State() == Allocated(s, d);
    }

    method ResumeSessionID(sessionID: u32) returns (ok: bool)
      requires Valid()
      modifies this
      ensures Valid()
      ensures State() == Resumed(old(State()), sessionID)
      ensures ok <==> IndexOf(old(State()), sessionID) !in old(sessionIDs)
    {
      ghost var s := State();
      AndMask(sessionID, indexBits);
      var idx := And(sessionID, sessionIDMask);
      if idx in sessionIDs {
        return false;
      }
      ResumeWellFormed(s, sessionID);
      CountFits(s);
      sessionIDs := sessionIDs + {idx};
      count := count + 1;
      if allocIDx <= idx {
        allocIDx := (idx + allocInterval) % TWO32;
      }
      ok := true;
    }

    method FreeSessionID(sessionID: u32)
      requires Valid()
      modifies this
      ensures Valid()
      ensures State() == Freed(old(State()), sessionID)
    {
      ghost var s := State();
      AndMask(sessionID, indexBits);
      var idx := And(sessionID, sessionIDMask);
      FreeWellFormed(s, sessionID);
      if idx !in sessionIDs {
        assert s.taken - {idx} == s.taken;
        return;
      }
      sessionIDs := sessionIDs - {idx};
      count := count - 1;
    }
  }

  lemma OrFits(x: u32, y: u32)
    ensures Or(x, y) < TWO32
  {
    Pow2Constants();
    OrBound(x, y, 32);
  }

  /** `NewSessionIDManager`: no manager when the server ID is missing or the index leaves no room for it. */
  method NewSessionIDManager(serverID: byte, indexBits: nat) returns (manager: SessionIDManager?)
    ensures manager == null <==> indexBits > 24 || serverID == 0
    ensures manager != null ==> fresh(manager) && manager.Valid() && manager.State() == Fresh(serverID, indexBits)
  {
    if indexBits > 24 || serverID == 0 {
      return null;
    }
    manager := new SessionIDManager(serverID, indexBits);
  }
}
