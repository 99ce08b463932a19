/**
  The allocation order of an Ethereum manager: 16 index bits and a stride of 256, starting at 128.

  The stride lets the leading two bytes of the ID, all that a NiceHash client uses, differ between neighbours.
*/
module EthereumStride {
  import opened Bits
  import opened Byte32
  import opened SessionIDs

  const SIZE: nat := 0x1_0000
  const STRIDE: nat := 0x100

  /** The index of the `k`-th allocation. */
  function Nth(k: nat): (index: nat)
    ensures index < SIZE
  {
    (128 + k / 256 + 256 * k) % SIZE
  }

  /** The server ID in the third byte, the index in the two below. */
  function SessionID(serverID: byte, index: nat): u32
    requires index < SIZE
  {
    serverID as int * 0x1_0000 + index
  }

  // ---- The order is a permutation ----

  /** Allocation swaps the two bytes of the ordinal and adds 128. */
  lemma NthSwapsBytes(a: nat, b: nat)
    requires a < 256 && b < 256
    ensures Nth(256 * a + b) == if 128 + a + 256 * b < SIZE then 128 + a + 256 * b else 128 + a + 256 * b - SIZE
  {
    var k := 256 * a + b;
    assert k / 256 == a;
    assert 128 + k / 256 + 256 * k == 128 + a + 256 * b + SIZE * a;
  }

  lemma NthInjective(j: nat, k: nat)
    requires j < SIZE && k < SIZE && Nth(j) == Nth(k)
    ensures j == k
  {
    NthSwapsBytes(j / 256, j % 256);
    NthSwapsBytes(k / 256, k % 256);
  }

  lemma NthOnto(index: nat) returns (k: nat)
    requires index < SIZE
    ensures k < SIZE && Nth(k) == index
  {
    var v := if index >= 128 then index - 128 else index - 128 + SIZE;
    k := 256 * (v % 256) + v / 256;
    NthSwapsBytes(v % 256, v / 256);
  }

  // ---- The state after k allocations ----

  function Given(k: nat): set<nat> {
    set j: nat | j < k :: Nth(j)
  }

  lemma {:induction false} GivenSize(k: nat)
    requires k <= SIZE
    ensures |Given(k)| == k
  {
    if k > 0 {
      GivenSize(k - 1);
      forall j: nat | j < k - 1 ensures Nth(j) != Nth(k - 1) {
        if Nth(j) == Nth(k - 1) {
          NthInjective(j, k - 1);
        }
      }
      assert Given(k) == Given(k - 1) + {Nth(k - 1)};
    }
  }

  function Cursor(k: nat): u32 {
    if k == 0 then FIRST_INDEX else (Nth(k - 1) + STRIDE) % SIZE
  }

  function Start(serverID: byte): Ids {
    Fresh(serverID, 16).(allocInterval := STRIDE)
  }

  function After(serverID: byte, k: nat): Ids {
    Start(serverID).(taken := Given(k), allocIDx := Cursor(k))
  }

  /** The search looks one index further only at the start of an aligned block of 256. */
  function Steps(k: nat): nat {
    if k > 0 && k % 256 == 0 then 1 else 0
  }

  lemma CursorIsNext(k: nat)
    requires k < SIZE && Steps(k) == 0
    ensures Cursor(k) == Nth(k)
  {
    if k > 0 {
      var a, b := k / 256, k % 256;
      assert (k - 1) / 256 == a && (k - 1) % 256 == b - 1;
      NthSwapsBytes(a, b - 1);
      NthSwapsBytes(a, b);
    }
  }

  lemma CursorIsBefore(k: nat)
    requires k < SIZE && Steps(k) == 1
    ensures k >= 256 && Cursor(k) == Nth(k - 256) && (Cursor(k) + 1) % SIZE == Nth(k)
  {
    var a := k / 256;
    assert k == 256 * a && (k - 1) / 256 == a - 1 && (k - 1) % 256 == 255;
    NthSwapsBytes(a - 1, 255);
    NthSwapsBytes(a - 1, 0);
    NthSwapsBytes(a, 0);
  }

  lemma NthIsFree(k: nat)
    requires k < SIZE
    ensures Nth(k) !in Given(k)
  {
    if Nth(k) in Given(k) {
      var j: nat :| j < k && Nth(j) == Nth(k);
      NthInjective(j, k);
    }
  }

  lemma SizeIs(serverID: byte, k: nat)
    ensures Size(After(serverID, k)) == SIZE
  {
    Pow2Constants();
  }

  lemma Finds(serverID: byte, k: nat)
    requires k < SIZE
    ensures StopsAt(After(serverID, k), Steps(k)) && Probe(After(serverID, k), Steps(k)) == Nth(k)
  {
    var s := After(serverID, k);
    SizeIs(serverID, k);
    NthIsFree(k);
    if Steps(k) == 0 {
      CursorIsNext(k);
    } else {
      CursorIsBefore(k);
      assert Probe(s, 0) in s.taken;
    }
  }

  lemma OneStep(serverID: byte, k: nat)
    requires k < SIZE
    ensures !Full(After(serverID, k))
    ensures Allocated(After(serverID, k), Steps(k)) == After(serverID, k + 1)
  {
    var s := After(serverID, k);
    SizeIs(serverID, k);
    GivenSize(k);
    Finds(serverID, k);
    CursorMoves(serverID, k);
    assert Given(k + 1) == Given(k) + {Nth(k)};
    hide Nth, Masked, Cursor, Given, Steps, StopsAt, Full;
    assert Allocated(s, Steps(k)) == s.(taken := Given(k) + {Nth(k)}, allocIDx := Masked(s, Nth(k) + STRIDE));
  }

  lemma CursorMoves(serverID: byte, k: nat)
    requires k < SIZE
    ensures Masked(After(serverID, k), Nth(k) + STRIDE) == Cursor(k + 1)
  {
    SizeIs(serverID, k);
    var x := Nth(k) + STRIDE;
    ModUnique(x, TWO32, 0, x);
  }

  // ---- Every run of allocations ----

  /** `sessionIDs` are the results of consecutive allocations from a fresh manager, `states` the states between. */
  ghost predicate AllocationRun(serverID: byte, states: seq<Ids>, sessionIDs: seq<nat>) {
    && |states| == |sessionIDs| + 1
    && states[0] == Start(serverID)
    && forall k | 0 <= k < |sessionIDs| :: Allocates(states[k], states[k + 1], sessionIDs[k])
  }

  lemma {:induction false} StateAfter(serverID: byte, states: seq<Ids>, sessionIDs: seq<nat>, k: nat)
    requires AllocationRun(serverID, states, sessionIDs) && k < |states|
    ensures k <= SIZE && states[k] == After(serverID, k)
  {
    if k == 0 {
      assert Given(0) == {};
    } else {
      StateAfter(serverID, states, sessionIDs, k - 1);
      assert Allocates(states[k - 1], states[k - 1 + 1], sessionIDs[k - 1]);
      if k - 1 == SIZE {
        GivenSize(SIZE);
        SizeIs(serverID, SIZE);
        assert false;
      }
      Finds(serverID, k - 1);
      OneStep(serverID, k - 1);
      var d: nat :| StopsAt(states[k - 1], d) && states[k] == Allocated(states[k - 1], d);
      StopsAtUnique(states[k - 1], d, Steps(k - 1));
    }
  }

  lemma WithServer(serverID: byte, index: nat)
    requires index < SIZE
    ensures Or(Start(serverID).serverID, index) == SessionID(serverID, index)
  {
    Pow2Constants();
    OrDisjoint(serverID as int, 16, index);
  }

  /** The `k`-th allocation returns the server ID above the index `Nth(k)`. */
  lemma KthSessionID(serverID: byte, states: seq<Ids>, sessionIDs: seq<nat>, k: nat)
    requires AllocationRun(serverID, states, sessionIDs) && k < |sessionIDs|
    ensures k < SIZE && sessionIDs[k] == SessionID(serverID, Nth(k))
  {
    StateAfter(serverID, states, sessionIDs, k);
    StateAfter(serverID, states, sessionIDs, k + 1);
    Finds(serverID, k);
    WithServer(serverID, Nth(k));
    hide Nth, Or, Given, Cursor, Steps;
    var d: nat :| StopsAt(states[k], d) && sessionIDs[k] == AllocatedID(states[k], d);
    StopsAtUnique(states[k], d, Steps(k));
  }

  /** All 65536 allocations succeed, in every state of the run before the last. */
  lemma {:induction false} RunExists(serverID: byte, n: nat) returns (states: seq<Ids>, sessionIDs: seq<nat>)
    requires n <= SIZE
    ensures |sessionIDs| == n && AllocationRun(serverID, states, sessionIDs)
    ensures states[n] == After(serverID, n)
  {
    if n == 0 {
      states, sessionIDs := [Start(serverID)], [];
      assert Given(0) == {};
    } else {
      states, sessionIDs := RunExists(serverID, n - 1);
      var s := After(serverID, n - 1);
      Finds(serverID, n - 1);
      OneStep(serverID, n - 1);
      var sessionID := AllocatedID(s, Steps(n - 1));
      assert Allocates(s, After(serverID, n), sessionID);
      var longer, ids := states + [After(serverID, n)], sessionIDs + [sessionID];
      forall k | 0 <= k < |ids| ensures Allocates(longer[k], longer[k + 1], ids[k]) {
        if k < n - 1 {
          assert Allocates(states[k], states[k + 1], sessionIDs[k]);
        }
      }
      states, sessionIDs := longer, ids;
    }
  }

  /** The first 65536 allocations use every index exactly once. */
  lemma RunIsPermutation(serverID: byte, states: seq<Ids>, sessionIDs: seq<nat>)
    requires AllocationRun(serverID, states, sessionIDs)
    ensures |sessionIDs| <= SIZE
    ensures forall j, k | 0 <= j < k < |sessionIDs| :: sessionIDs[j] != sessionIDs[k]
    ensures |sessionIDs| == SIZE ==> Full(states[SIZE]) && forall v: nat | v < SIZE :: v in states[SIZE].taken
  {
    StateAfter(serverID, states, sessionIDs, |sessionIDs|);
    forall j, k | 0 <= j < k < |sessionIDs| ensures sessionIDs[j] != sessionIDs[k] {
      KthSessionID(serverID, states, sessionIDs, j);
      KthSessionID(serverID, states, sessionIDs, k);
      if Nth(j) == Nth(k) {
        NthInjective(j, k);
      }
    }
    if |sessionIDs| == SIZE {
      GivenSize(SIZE);
      SizeIs(serverID, SIZE);
      forall v: nat | v < SIZE ensures v in Given(SIZE) {
        var k := NthOnto(v);
      }
    }
  }

  // ---- The two-byte extranonce ----

  /** `binary.BigEndian`. */
  function BigEndian32(x: u32): (b: seq<byte>)
    ensures |b| == 4
  {
    [x / 0x100_0000, x / 0x1_0000 % 256, x / 0x100 % 256, x % 256]
  }

  /** The session ID text of an Ethereum session, without the leading zero byte. */
  function SessionIDString(sessionID: u32): string {
    Hex(BigEndian32(sessionID))[2..8]
  }

  /** What a NiceHash client gets as its extranonce. */
  function TruncatedExtraNonce(sessionID: u32): string {
    SessionIDString(sessionID)[0..4]
  }

  lemma TruncatedIsTwoBytes(serverID: byte, index: nat)
    requires index < SIZE
    ensures TruncatedExtraNonce(SessionID(serverID, index)) == Hex([serverID, index / 256])
  {
    var x: u32 := SessionID(serverID, index);
    var front, kept, back := [0], [serverID, index / 256], [index % 256];
    BytesOf(serverID, index / 256, index % 256);
    assert BigEndian32(x) == front + kept + back;
    HexConcat(front + kept, back);
    HexConcat(front, kept);
    hide Hex, BigEndian32;
    assert (Hex(front) + Hex(kept) + Hex(back))[2..8] == Hex(kept) + Hex(back);
  }

  /** IDs of 24 bits are known by their texts, whatever server they come from. */
  lemma SessionIDStringsDiffer(a: u32, b: u32)
    requires a < 0x100_0000 && b < 0x100_0000 && a != b
    ensures SessionIDString(a) != SessionIDString(b)
  {
    StringOfLowBytes(a);
    StringOfLowBytes(b);
    BigEndianReads(a);
    BigEndianReads(b);
    if SessionIDString(a) == SessionIDString(b) {
      HexInjective(BigEndian32(a)[1..], BigEndian32(b)[1..]);
    }
  }

  lemma StringOfLowBytes(x: u32)
    ensures SessionIDString(x) == Hex(BigEndian32(x)[1..])
  {
    var b := BigEndian32(x);
    assert b == [b[0]] + b[1..];
    HexConcat([b[0]], b[1..]);
    hide BigEndian32;
    assert Hex(b)[2..8] == Hex(b[1..]);
  }

  /** The most significant byte comes first. */
  lemma BigEndianReads(x: u32)
    ensures BigEndian32(x)[0] as int * 0x100_0000 + BigEndian32(x)[1] as int * 0x1_0000
            + BigEndian32(x)[2] as int * 0x100 + BigEndian32(x)[3] as int == x
    ensures x < 0x100_0000 ==> BigEndian32(x)[0] == 0
  {
    assert x / 0x1_0000 == x / 0x100 / 0x100 && x / 0x100_0000 == x / 0x1_0000 / 0x100;
  }

  lemma BytesOf(serverID: byte, high: byte, low: byte)
    ensures BigEndian32(SessionID(serverID, high as int * 256 + low as int)) == [0, serverID, high, low]
  {
    var x: int := serverID as int * 0x1_0000 + (high as int * 256 + low as int);
    ModUnique(x, 0x100_0000, 0, x);
    ModUnique(x, 0x1_0000, serverID as int, high as int * 256 + low as int);
    ModUnique(x, 0x100, serverID as int * 256 + high as int, low as int);
    ModUnique(serverID as int * 256 + high as int, 256, serverID as int, high as int);
    ModUnique(serverID as int, 256, 0, serverID as int);
  }

  /** The high bytes in an aligned block are a rotation of the ordinals in it. */
  lemma HighByte(k: nat)
    requires k < SIZE
    ensures Nth(k) / 256 == (k % 256 + (128 + k / 256) / 256) % 256
    ensures Nth(k) % 256 == (128 + k / 256) % 256
  {
    var a, b := k / 256, k % 256;
    NthSwapsBytes(a, b);
    hide Nth;
    if a < 128 {
      ModUnique(Nth(k), 256, b, 128 + a);
      ModUnique(128 + a, 256, 0, 128 + a);
    } else {
      var high := if b < 255 then b + 1 else 0;
      ModUnique(Nth(k), 256, high, a - 128);
      ModUnique(128 + a, 256, 1, a - 128);
      ModUnique(b + 1, 256, if b < 255 then 0 else 1, high);
    }
  }

  /** Two allocations in one aligned block of 256 get different two-byte extranonces. */
  lemma TruncatedDistinctInBlock(serverID: byte, states: seq<Ids>, sessionIDs: seq<nat>, j: nat, k: nat)
    requires AllocationRun(serverID, states, sessionIDs)
    requires j < k < |sessionIDs| && j / 256 == k / 256
    ensures sessionIDs[j] < TWO32 && sessionIDs[k] < TWO32
    ensures TruncatedExtraNonce(sessionIDs[j]) != TruncatedExtraNonce(sessionIDs[k])
  {
    KthSessionID(serverID, states, sessionIDs, j);
    KthSessionID(serverID, states, sessionIDs, k);
    assert j % 256 != k % 256;
    TruncatedDiffers(serverID, j, k);
  }

  lemma TruncatedDiffers(serverID: byte, j: nat, k: nat)
    requires j < SIZE && k < SIZE && j / 256 == k / 256 && j % 256 != k % 256
    ensures TruncatedExtraNonce(SessionID(serverID, Nth(j))) != TruncatedExtraNonce(SessionID(serverID, Nth(k)))
  {
    HighBytesDiffer(j, k);
    TruncatedIsTwoBytes(serverID, Nth(j));
    TruncatedIsTwoBytes(serverID, Nth(k));
    hide *;
    var x, y := Nth(j) / 256, Nth(k) / 256;
    if Hex([serverID, x]) == Hex([serverID, y]) {
      TwoBytesDetermine(serverID, x, y);
    }
  }

  lemma TwoBytesDetermine(a: byte, x: byte, y: byte)
    requires Hex([a, x]) == Hex([a, y])
    ensures x == y
  {
    HexInjective([a, x], [a, y]);
    assert x == [a, x][1] == [a, y][1] == y;
  }

  lemma HighBytesDiffer(j: nat, k: nat)
    requires j < SIZE && k < SIZE && j / 256 == k / 256 && j % 256 != k % 256
    ensures 0 <= Nth(j) / 256 < 256 && 0 <= Nth(k) / 256 < 256 && Nth(j) / 256 != Nth(k) / 256
  {
    HighByte(j);
    HighByte(k);
    BlockRotation(j % 256, k % 256, (128 + k / 256) / 256);
  }

  lemma BlockRotation(a: nat, b: nat, c: nat)
    requires a < 256 && b < 256 && a != b
    ensures (a + c) % 256 != (b + c) % 256
  {
  }
}
