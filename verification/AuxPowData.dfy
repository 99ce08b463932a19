/**
  The auxiliary proof of work: its byte format, the parser that locates the parent block hash by searching for it, and
  the extension of its blockchain branch by one chain's own Merkle path.
*/
module AuxPowData {
  import opened Bits
  import opened Byte32
  import opened Merkle

  datatype AuxMerkleBranch = AuxMerkleBranch(branchs: seq<Hash>, sideMask: u32)

  datatype AuxPow = AuxPow(
    coinbaseTxn: seq<byte>,
    blockHash: Hash,
    coinbaseBranch: AuxMerkleBranch,
    blockchainBranch: AuxMerkleBranch,
    parentBlock: seq<byte>)

  const HEADER_SIZE: int := 80

  // ---- The byte format ----

  function LittleEndian32(x: u32): (b: seq<byte>)
    ensures |b| == 4
  {
    [x % 256, x / 0x100 % 256, x / 0x1_0000 % 256, x / 0x100_0000]
  }

  function FromLittleEndian32(b: seq<byte>): u32
    requires |b| == 4
  {
    (b[0] as int) + (b[1] as int) * 0x100 + (b[2] as int) * 0x1_0000 + (b[3] as int) * 0x100_0000
  }

  lemma EncodeThenDecode(x: u32)
    ensures FromLittleEndian32(LittleEndian32(x)) == x
  {
    assert x / 0x1_0000 == x / 0x100 / 0x100 && x / 0x100_0000 == x / 0x1_0000 / 0x100;
  }

  lemma DecodeThenEncode(b: seq<byte>)
    requires |b| == 4
    ensures LittleEndian32(FromLittleEndian32(b)) == b
  {
    var y := FromLittleEndian32(b);
    var b1, b2, b3: int := b[1], b[2], b[3];
    assert y / 0x100 == b1 + 0x100 * (b2 + 0x100 * b3);
    assert y / 0x1_0000 == y / 0x100 / 0x100 == b2 + 0x100 * b3;
    assert y / 0x100_0000 == y / 0x1_0000 / 0x100 == b3;
  }

  /** The least significant byte comes first. */
  lemma LittleEndianIsReversed(b: seq<byte>)
    requires |b| == 4
    ensures FromLittleEndian32(b) == Value(Reverse(b))
  {
    var r := Reverse(b);
    assert r == [b[3], b[2], b[1], b[0]];
    ValueOfFour(b[3], b[2], b[1], b[0]);
    hide Value, Reverse;
  }

  function Concat(hashes: seq<Hash>): (b: seq<byte>)
    ensures |b| == 32 * |hashes|
  {
    if hashes == [] then [] else hashes[0] + Concat(hashes[1..])
  }

  lemma {:induction false} ConcatAppend(hashes: seq<Hash>, h: Hash)
    ensures Concat(hashes + [h]) == Concat(hashes) + h
  {
    if hashes == [] {
      assert hashes + [h] == [h];
      assert [h][1..] == [];
    } else {
      ConcatAppend(hashes[1..], h);
      assert (hashes + [h])[1..] == hashes[1..] + [h];
    }
  }

  lemma {:induction false} ConcatInjective(a: seq<Hash>, b: seq<Hash>)
    requires |a| == |b| && Concat(a) == Concat(b)
    ensures a == b
  {
    if a != [] {
      assert a[0] == Concat(a)[..32] && b[0] == Concat(b)[..32];
      assert Concat(a[1..]) == Concat(a)[32..] && Concat(b[1..]) == Concat(b)[32..];
      ConcatInjective(a[1..], b[1..]);
      assert a == [a[0]] + a[1..] && b == [b[0]] + b[1..];
    }
  }

  /**
    A branch on the wire: a one-byte count (Go's `byte(len(...))` keeps the low eight bits), the
    items, the side mask.
  */
  function BranchBytes(branch: AuxMerkleBranch): (b: seq<byte>)
    ensures |b| == 5 + 32 * |branch.branchs|
  {
    [|branch.branchs| % 256] + Concat(branch.branchs) + LittleEndian32(branch.sideMask)
  }

  function Serialize(x: AuxPow): seq<byte> {
    x.coinbaseTxn + x.blockHash + BranchBytes(x.coinbaseBranch) + BranchBytes(x.blockchainBranch) + x.parentBlock
  }

  /** A branch whose length fits the count byte can be read back from the front of any text it starts. */
  lemma BranchBytesPrefixFree(a: AuxMerkleBranch, b: AuxMerkleBranch, restA: seq<byte>, restB: seq<byte>)
    requires |a.branchs| <= 255 && |b.branchs| <= 255
    requires BranchBytes(a) + restA == BranchBytes(b) + restB
    ensures a == b && restA == restB
  {
    var ta, tb := BranchBytes(a) + restA, BranchBytes(b) + restB;
    var n := |a.branchs|;
    assert ta[0] == n && tb[0] == |b.branchs|;
    assert Concat(a.branchs) == ta[1..1 + 32 * n] && Concat(b.branchs) == tb[1..1 + 32 * n];
    ConcatInjective(a.branchs, b.branchs);
    assert LittleEndian32(a.sideMask) == ta[1 + 32 * n..5 + 32 * n];
    assert LittleEndian32(b.sideMask) == tb[1 + 32 * n..5 + 32 * n];
    EncodeThenDecode(a.sideMask);
    EncodeThenDecode(b.sideMask);
    assert restA == ta[5 + 32 * n..] && restB == tb[5 + 32 * n..];
  }

  // ---- What it means for a text to be a proof ----

  predicate MatchAt(data: seq<byte>, pattern: seq<byte>, i: int) {
    0 <= i <= i + |pattern| <= |data| && data[i..i + |pattern|] == pattern
  }

  ghost predicate Occurs(data: seq<byte>, pattern: seq<byte>) {
    exists i :: MatchAt(data, pattern, i)
  }

  datatype ScryptResult = Key(key: Hash) | ScryptError

  /** The two header hashes: double SHA-256, and the scrypt key that replaces it for Litecoin. */
  datatype HeaderHash = HeaderHash(sha256d: seq<byte> -> Hash, scrypt: seq<byte> -> ScryptResult)

  /** The form of the parent block hash that is searched for first. */
  function FirstForm(hashing: HeaderHash, chainType: string, header: seq<byte>): ScryptResult {
    if chainType == "LTC" then hashing.scrypt(header) else Key(Reverse(hashing.sha256d(header)))
  }

  /** The form of the hash that is found in the data, given the form searched for first. */
  ghost function FoundForm(data: seq<byte>, first: Hash): Hash {
    if Occurs(data, first) then first else Reverse(first)
  }

  /**
    `data` is the serialised form of `x`, where `x.blockHash` is the header hash `first` in its first form, or reversed
    when the first form does not occur, and the coinbase transaction ends where that hash is first found.
  */
  ghost predicate Decodes(first: Hash, data: seq<byte>, x: AuxPow) {
    && data == Serialize(x)
    && |x.parentBlock| == HEADER_SIZE
    && |x.coinbaseBranch.branchs| <= 255 && |x.blockchainBranch.branchs| <= 255
    && x.blockHash == FoundForm(data, first)
    && (forall i | 0 <= i < |x.coinbaseTxn| :: !MatchAt(data, x.blockHash, i))
  }

  lemma SerializeParts(x: AuxPow)
    ensures var c := |x.coinbaseTxn|; var data := Serialize(x);
            && |data| == c + 42 + 32 * |x.coinbaseBranch.branchs| + 32 * |x.blockchainBranch.branchs| + |x.parentBlock|
            && data[..c] == x.coinbaseTxn && MatchAt(data, x.blockHash, c)
            && data[c + 32..] == BranchBytes(x.coinbaseBranch) + (BranchBytes(x.blockchainBranch) + x.parentBlock)
  {
    var c, data := |x.coinbaseTxn|, Serialize(x);
    var tail := BranchBytes(x.coinbaseBranch) + (BranchBytes(x.blockchainBranch) + x.parentBlock);
    assert data == x.coinbaseTxn + (x.blockHash + tail);
    assert data[c..c + 32] == x.blockHash;
  }

  /** A text encodes at most one proof. */
  lemma DecodesUnique(first: Hash, data: seq<byte>, x: AuxPow, y: AuxPow)
    requires Decodes(first, data, x) && Decodes(first, data, y)
    ensures x == y
  {
    SerializeParts(x);
    SerializeParts(y);
    assert |x.coinbaseTxn| == |y.coinbaseTxn|;
    BranchBytesPrefixFree(x.coinbaseBranch, y.coinbaseBranch,
                          BranchBytes(x.blockchainBranch) + x.parentBlock,
                          BranchBytes(y.blockchainBranch) + y.parentBlock);
    BranchBytesPrefixFree(x.blockchainBranch, y.blockchainBranch, x.parentBlock, y.parentBlock);
  }

  /**
    When printing and parsing again gives `x` back: exactly when its hash is the header hash in either byte order, its
    branches fit the count byte, and neither searched form of the hash is found earlier.
  */
  lemma RoundTripIff(first: Hash, x: AuxPow)
    ensures Decodes(first, Serialize(x), x) <==>
            && |x.parentBlock| == HEADER_SIZE
            && |x.coinbaseBranch.branchs| <= 255 && |x.blockchainBranch.branchs| <= 255
            && (x.blockHash == first || (x.blockHash == Reverse(first) && !Occurs(Serialize(x), first)))
            && (forall i | 0 <= i < |x.coinbaseTxn| :: !MatchAt(Serialize(x), x.blockHash, i))
  {
    SerializeParts(x);
    assert Occurs(Serialize(x), x.blockHash);
  }

  // ---- The parser ----

  datatype ParseError = NotHex | TooShort | ScryptFailed | BlockHashNotFound | OutOfRange | UnexpectedData

  datatype Parsed = Valid(x: AuxPow) | Invalid(error: ParseError)

  /** `bytes.Index`: the first position of `pattern`, or -1. */
  method Index(data: seq<byte>, pattern: seq<byte>) returns (index: int)
    ensures index == -1 ==> !Occurs(data, pattern)
    ensures index != -1 ==> FirstMatch(data, pattern, index)
  {
    index := 0;
    while index + |pattern| <= |data|
      invariant 0 <= index
      invariant forall i | 0 <= i < index :: !MatchAt(data, pattern, i)
    {
      if data[index..index + |pattern|] == pattern {
        return;
      }
      index := index + 1;
    }
    index := -1;
  }

  ghost predicate FirstMatch(data: seq<byte>, pattern: seq<byte>, index: int) {
    MatchAt(data, pattern, index) && forall i | 0 <= i < index :: !MatchAt(data, pattern, i)
  }

  /** `copy(dst, data[index:])` into `n` fresh bytes: what lies past the end of the data stays zero. */
  function CopyFrom(data: seq<byte>, index: nat, n: nat): (b: seq<byte>)
    requires index <= |data|
    ensures |b| == n
    ensures index + n <= |data| ==> b == data[index..index + n]
  {
    if index + n <= |data| then data[index..index + n]
    else data[index..] + Zeros(n - (|data| - index))
  }

  /** The number of bytes a branch whose count byte is at `start` takes up. */
  function BranchSize(data: seq<byte>, start: nat): (n: nat)
    requires start < |data|
    ensures n >= 5
  {
    5 + 32 * (data[start] as int)
  }

  /** Every index and slice used to read a branch at `start` is inside the data; the mask itself may be cut short. */
  predicate Readable(data: seq<byte>, start: nat) {
    start < |data| && start + BranchSize(data, start) - 4 <= |data|
  }

  /**
    Reads one branch at the cursor. `ok` is false when an index or slice leaves the data, which is a panic in Go;
    a partial mask at the very end is zero-filled, and then the cursor ends past the data.
  */
  method ReadBranch(data: seq<byte>, start: nat) returns (ok: bool, branch: AuxMerkleBranch, index: nat)
    ensures ok <==> Readable(data, start)
    ensures ok ==> index == start + BranchSize(data, start)
    ensures ok && index <= |data| ==> BranchBytes(branch) == data[start..index] && |branch.branchs| <= 255
  {
    ok, branch, index := false, AuxMerkleBranch([], 0), start;
    if index >= |data| {
      return;
    }
    var size: int := data[index];
    index := index + 1;
    var branchs: seq<Hash> := [];
    for i := 0 to size
      invariant index == start + 1 + 32 * i && |branchs| == i
      invariant index <= |data| ==> Concat(branchs) == data[start + 1..index]
    {
      if index > |data| {
        return;
      }
      var item := CopyFrom(data, index, 32);
      ConcatAppend(branchs, item);
      branchs := branchs + [item];
      index := index + 32;
    }
    if index > |data| {
      return;
    }
    var mask := CopyFrom(data, index, 4);
    branch := AuxMerkleBranch(branchs, FromLittleEndian32(mask));
    DecodeThenEncode(mask);
    index := index + 4;
    ok := true;
    assert index <= |data| ==>
             data[start..index] == [data[start]] + data[start + 1..index - 4] + data[index - 4..index];
  }

  /** The two branches read from `start` on end exactly at the header. */
  predicate EndsAtHeader(data: seq<byte>, start: nat) {
    && start < |data|
    && var next := start + BranchSize(data, start);
    && next < |data|
    && next + BranchSize(data, next) == |data| - HEADER_SIZE
  }

  lemma DecodesLayout(first: Hash, data: seq<byte>, x: AuxPow, index: nat)
    requires Decodes(first, data, x)
    requires FirstMatch(data, x.blockHash, index)
    ensures EndsAtHeader(data, index + 32)
  {
    SerializeParts(x);
    assert index == |x.coinbaseTxn|;
    var c := index + 32;
    var cb, tail := BranchBytes(x.coinbaseBranch), BranchBytes(x.blockchainBranch) + x.parentBlock;
    assert data[c] == data[c..][0] == cb[0];
    var d := c + |cb|;
    assert d == c + BranchSize(data, c);
    assert data[d] == data[c..][|cb|] == tail[0];
  }

  /** Some index or slice leaves the data while the two branches are read from `start` on. */
  predicate Overruns(data: seq<byte>, start: nat) {
    !(Readable(data, start) && Readable(data, start + BranchSize(data, start)))
  }

  /** The parser after the hash has been found: it succeeds exactly when the branches end at the header. */
  method ParseBranches(data: seq<byte>, blockHash: Hash, index: nat) returns (r: Parsed)
    requires |data| > HEADER_SIZE && MatchAt(data, blockHash, index)
    ensures r.Valid? <==> EndsAtHeader(data, index + 32)
    ensures r.Valid? ==> && Serialize(r.x) == data && r.x.blockHash == blockHash && |r.x.coinbaseTxn| == index
                         && |r.x.coinbaseBranch.branchs| <= 255 && |r.x.blockchainBranch.branchs| <= 255
                         && |r.x.parentBlock| == HEADER_SIZE
    ensures r == Invalid(OutOfRange) <==> Overruns(data, index + 32)
    ensures r.Invalid? ==> r.error == OutOfRange || r.error == UnexpectedData
  {
    var start := index + 32;
    var ok, coinbaseBranch, next := ReadBranch(data, start);
    if !ok {
      return Invalid(OutOfRange);
    }
    var ok', blockchainBranch, end := ReadBranch(data, next);
    if !ok' {
      return Invalid(OutOfRange);
    }
    if |data| - end - HEADER_SIZE != 0 {
      return Invalid(UnexpectedData);
    }
    assert data == data[..index] + data[index..start] + data[start..next] + data[next..end] + data[end..];
    return Valid(AuxPow(data[..index], blockHash, coinbaseBranch, blockchainBranch, data[end..]));
  }

  /** What the outcome of parsing `data` says, once the header hash `first` is known. */
  ghost predicate ParsedRight(first: Hash, data: seq<byte>, r: Parsed) {
    && (r.Valid? ==> Decodes(first, data, r.x))
    && (r.Invalid? ==> forall x :: !Decodes(first, data, x))
    && (r == Invalid(BlockHashNotFound) <==> !Occurs(data, first) && !Occurs(data, Reverse(first)))
    && (r == Invalid(OutOfRange) <==>
        exists i: nat :: FirstMatch(data, FoundForm(data, first), i) && Overruns(data, i + 32))
    && (r.Invalid? ==> r.error == BlockHashNotFound || r.error == OutOfRange || r.error == UnexpectedData)
  }

  /**
    The parser, after hex decoding. It succeeds exactly on the texts that encode a proof, and returns that proof;
    the ways of failing are told apart.
  */
  method ParseBytes(hashing: HeaderHash, chainType: string, data: seq<byte>) returns (r: Parsed)
    ensures r == Invalid(TooShort) <==> |data| <= 80
    ensures r == Invalid(ScryptFailed) <==>
            |data| > 80 && chainType == "LTC" && hashing.scrypt(data[|data| - 80..]).ScryptError?
    ensures |data| > HEADER_SIZE ==>
              match FirstForm(hashing, chainType, data[|data| - HEADER_SIZE..])
              case ScryptError => r == Invalid(ScryptFailed)
              case Key(first) => ParsedRight(first, data, r)
  {
    if |data| <= HEADER_SIZE {
      return Invalid(TooShort);
    }
    var parentBlock := data[|data| - HEADER_SIZE..];
    var key := FirstForm(hashing, chainType, parentBlock);
    if key.ScryptError? {
      return Invalid(ScryptFailed);
    }
    var blockHash := key.key;
    var index := Index(data, blockHash);
    if index == -1 {
      blockHash := Reverse(blockHash);
      index := Index(data, blockHash);
      if index == -1 {
        NotFound(key.key, data);
        return Invalid(BlockHashNotFound);
      }
    }
    r := ParseBranches(data, blockHash, index);
    Found(key.key, data, index, r);
  }

  lemma NotFound(first: Hash, data: seq<byte>)
    requires !Occurs(data, first) && !Occurs(data, Reverse(first))
    ensures ParsedRight(first, data, Invalid(BlockHashNotFound))
  {
    forall x ensures !Decodes(first, data, x) {
      if Decodes(first, data, x) {
        SerializeParts(x);
      }
    }
  }

  lemma Found(first: Hash, data: seq<byte>, index: nat, r: Parsed)
    requires FirstMatch(data, FoundForm(data, first), index)
    requires r.Valid? <==> EndsAtHeader(data, index + 32)
    requires r.Valid? ==> && Serialize(r.x) == data && r.x.blockHash == FoundForm(data, first)
                          && |r.x.coinbaseTxn| == index && |r.x.parentBlock| == HEADER_SIZE
                          && |r.x.coinbaseBranch.branchs| <= 255 && |r.x.blockchainBranch.branchs| <= 255
    requires r == Invalid(OutOfRange) <==> Overruns(data, index + 32)
    requires r.Invalid? ==> r.error == OutOfRange || r.error == UnexpectedData
    ensures ParsedRight(first, data, r)
  {
    if r.Invalid? {
      forall x ensures !Decodes(first, data, x) {
        if Decodes(first, data, x) {
          DecodesLayout(first, data, x, index);
        }
      }
    }
    forall i: nat | FirstMatch(data, FoundForm(data, first), i) ensures i == index {
    }
  }

  // ---- Expanding the blockchain branch ----

  /** The word whose bits are the first 32 entries of `sides`, lowest first; later entries are dropped. */
  function PackSides(sides: seq<bool>): (mask: u32)
    ensures forall i: nat :: Bit(mask, i) == (i < 32 && i < |sides| && sides[i])
  {
    PackedBits(sides, 32)
  }

  function PackedBits(sides: seq<bool>, width: nat): (mask: nat)
    requires width <= 32
    ensures mask < Pow2(width) && mask < TWO32
    ensures forall i: nat :: Bit(mask, i) == (i < width && i < |sides| && sides[i])
    decreases width
  {
    Pow2Constants();
    Pow2Monotone(width, 32);
    if width == 0 || sides == [] then
      ZeroHasNoBits();
      0
    else
      var high := PackedBits(sides[1..], width - 1);
      var mask := (if sides[0] then 1 else 0) + 2 * high;
      LowBitAndRest(mask, high, sides[0], width, sides);
      mask
  }

  lemma ZeroHasNoBits()
    ensures forall i: nat :: !Bit(0, i)
  {
    forall i: nat ensures !Bit(0, i) {
      BitZero(i);
    }
  }

  lemma LowBitAndRest(mask: nat, high: nat, low: bool, width: nat, sides: seq<bool>)
    requires width > 0 && sides != [] && sides[0] == low
    requires mask == (if low then 1 else 0) + 2 * high
    requires forall i: nat :: Bit(high, i) == (i < width - 1 && i < |sides[1..]| && sides[1..][i])
    ensures forall i: nat :: Bit(mask, i) == (i < width && i < |sides| && sides[i])
  {
    forall i: nat ensures Bit(mask, i) == (i < width && i < |sides| && sides[i]) {
      assert mask / 2 == high;
      if i > 0 {
        assert Bit(mask, i) == Bit(high, i - 1);
        assert i < |sides| ==> sides[1..][i - 1] == sides[i];
      }
    }
  }

  /** All sides of a branch extended by `ext`, lowest first: those of `ext`, then those of the branch. */
  function ExtendedSides(branch: AuxMerkleBranch, ext: MerklePath): (sides: seq<bool>)
    ensures |sides| == |ext| + |branch.branchs|
  {
    PathSides(ext) + Sides(branch.sideMask, |branch.branchs|)
  }

  /** The extended branch: `ext` goes in front, and the 32-bit mask is the packed list of sides. */
  function ExpandedBranch(branch: AuxMerkleBranch, ext: MerklePath): AuxMerkleBranch {
    AuxMerkleBranch(Hashes(ext) + branch.branchs, PackSides(PathSides(ext) + Sides(branch.sideMask, 32)))
  }

  function Expanded(x: AuxPow, ext: MerklePath): AuxPow {
    x.(blockchainBranch := ExpandedBranch(x.blockchainBranch, ext))
  }

  /** The receiver reads back the intended sides exactly when no set side lies beyond the 32 bits of the mask. */
  lemma SidesSurviveIff(branch: AuxMerkleBranch, ext: MerklePath)
    ensures var sides := ExtendedSides(branch, ext);
            Sides(ExpandedBranch(branch, ext).sideMask, |sides|) == sides <==> forall i | 32 <= i < |sides| :: !sides[i]
  {
    var sides, mask := ExtendedSides(branch, ext), ExpandedBranch(branch, ext).sideMask;
    forall i: nat | i < |sides| ensures Bit(mask, i) == (i < 32 && sides[i]) {
      ExpandedBit(branch, ext, i);
    }
    hide Bit, ExtendedSides, ExpandedBranch;
    var read := Sides(mask, |sides|);
    if forall i | 32 <= i < |sides| :: !sides[i] {
      assert forall i | 0 <= i < |sides| :: read[i] == sides[i];
    } else {
      var i :| 32 <= i < |sides| && sides[i];
      assert read[i] != sides[i];
    }
  }

  /** The mask of the extended branch has the intended side of every item that its 32 bits reach. */
  lemma ExpandedBit(branch: AuxMerkleBranch, ext: MerklePath, i: nat)
    requires i < |ExtendedSides(branch, ext)|
    ensures Bit(ExpandedBranch(branch, ext).sideMask, i) == (i < 32 && ExtendedSides(branch, ext)[i])
  {
    hide Bit;
    var sides, packed := ExtendedSides(branch, ext), PathSides(ext) + Sides(branch.sideMask, 32);
    if |ext| <= i {
      assert sides[i] == Bit(branch.sideMask, i - |ext|);
      if i < 32 {
        assert packed[i] == sides[i];
      }
    }
  }

  /**
    Extending is composing: the receiver's fold along the extended branch is the fold along the extension followed by
    the fold along the old branch, provided no set side is pushed out of the mask.
  */
  lemma ExpansionComposes(join: Join, h: Hash, branch: AuxMerkleBranch, ext: MerklePath)
    requires forall i | 32 <= i < |ext| + |branch.branchs| :: !ExtendedSides(branch, ext)[i]
    ensures var expanded := ExpandedBranch(branch, ext);
            Fold(join, h, expanded.branchs, expanded.sideMask) ==
            Fold(join, FoldSides(join, h, Hashes(ext), PathSides(ext)), branch.branchs, branch.sideMask)
  {
    SidesSurviveIff(branch, ext);
    FoldConcat(join, h, Hashes(ext), branch.branchs, PathSides(ext), Sides(branch.sideMask, |branch.branchs|));
  }

  /** The condition can fail: one more item below a full branch whose topmost side is set loses that side. */
  lemma FullBranchLosesASide(branch: AuxMerkleBranch, item: PathItem)
    requires |branch.branchs| == 32 && Bit(branch.sideMask, 31)
    ensures Sides(ExpandedBranch(branch, [item]).sideMask, 33) != ExtendedSides(branch, [item])
  {
    SidesSurviveIff(branch, [item]);
    assert ExtendedSides(branch, [item])[32] == Sides(branch.sideMask, 32)[31];
  }

  /**
    The extended proof is again one the parser reads back exactly when the count byte can hold the longer branch and,
    for a hash stored in its reversed form, the first form does not happen to occur in the extended text.
  */
  lemma ExpandedDecodesIff(first: Hash, x: AuxPow, ext: MerklePath)
    requires Decodes(first, Serialize(x), x)
    ensures Decodes(first, Serialize(Expanded(x, ext)), Expanded(x, ext)) <==>
            && |ext| + |x.blockchainBranch.branchs| <= 255
            && (x.blockHash == first || !Occurs(Serialize(Expanded(x, ext)), first))
  {
    var y, c := Expanded(x, ext), |x.coinbaseTxn|;
    assert |y.blockchainBranch.branchs| == |ext| + |x.blockchainBranch.branchs|;
    RoundTripIff(first, x);
    RoundTripIff(first, y);
    hide ExpandedBranch, BranchBytes, Serialize, MatchAt, Occurs, Decodes;
    SerializeParts(x);
    SerializeParts(y);
    SamePrefix(x, y);
    forall i | 0 <= i < c ensures !MatchAt(Serialize(y), x.blockHash, i) {
      MatchInPrefix(Serialize(x), Serialize(y), c + 32, x.blockHash, i);
    }
  }

  lemma SamePrefix(x: AuxPow, y: AuxPow)
    requires x.coinbaseTxn == y.coinbaseTxn && x.blockHash == y.blockHash
    ensures var n := |x.coinbaseTxn| + 32;
            n <= |Serialize(x)| && n <= |Serialize(y)| && Serialize(x)[..n] == Serialize(y)[..n]
  {
    assert Serialize(x)[..|x.coinbaseTxn| + 32] == x.coinbaseTxn + x.blockHash;
    assert Serialize(y)[..|x.coinbaseTxn| + 32] == x.coinbaseTxn + x.blockHash;
  }

  /** Whether a hash is found at a place is decided by the bytes up to its end. */
  lemma MatchInPrefix(a: seq<byte>, b: seq<byte>, n: nat, h: Hash, i: nat)
    requires n <= |a| && n <= |b| && a[..n] == b[..n] && i + 32 <= n
    ensures MatchAt(a, h, i) <==> MatchAt(b, h, i)
  {
    assert a[i..i + 32] == a[..n][i..i + 32] && b[i..i + 32] == b[..n][i..i + 32];
  }

  lemma BitOne(i: nat)
    ensures Bit(1, i) == (i == 0)
  {
    if i > 0 {
      BitZero(i - 1);
    }
  }

  // ---- The object ----

  class AuxPowData {
    var coinbaseTxn: seq<byte>
    var blockHash: Hash
    var coinbaseBranch: AuxMerkleBranch
    var blockchainBranch: AuxMerkleBranch
    var parentBlock: seq<byte>

    function View(): AuxPow
      reads this
    {
      AuxPow(coinbaseTxn, blockHash, coinbaseBranch, blockchainBranch, parentBlock)
    }

    /** A copy of a proof, as made for every chain it is sent to. */
    constructor (x: AuxPow)
      ensures View() == x
    {
      coinbaseTxn, blockHash, parentBlock := x.coinbaseTxn, x.blockHash, x.parentBlock;
      coinbaseBranch, blockchainBranch := x.coinbaseBranch, x.blockchainBranch;
    }

    /** Shifts the side mask up, sets the sides of the extension in the freed bits, and prepends its items. */
    method ExpandingBlockchainBranch(extBranch: MerklePath)
      modifies this`blockchainBranch
      ensures View() == Expanded(old(View()), extBranch)
    {
      hide SidesSet, Or, Shl32, ExpandedBranch;
      var extBranchLen := |extBranch|;
      var branch := blockchainBranch;
      var sideMask: u32 := Shl32(branch.sideMask, extBranchLen);
      var extBranchItems: seq<Hash> := [];
      ShiftedMask(branch.sideMask, extBranch);
      for i := 0 to extBranchLen
        invariant extBranchItems == Hashes(extBranch)[..i] && blockchainBranch == branch
        invariant SidesSet(sideMask, branch.sideMask, extBranch, i)
      {
        extBranchItems := extBranchItems + [extBranch[i].hash];
        SetSide(sideMask, branch.sideMask, extBranch, i);
        if extBranch[i].useFirstInConcatenation {
          sideMask := Or(sideMask, Shl32(1, i));
        }
      }
      SameMask(sideMask, branch, extBranch);
      assert extBranchItems == Hashes(extBranch);
      blockchainBranch := AuxMerkleBranch(extBranchItems + branch.branchs, sideMask);
    }

    /** Appends the parts to a buffer, item by item. */
    method ToBytes() returns (data: seq<byte>)
      ensures data == Serialize(View())
    {
      data := coinbaseTxn + blockHash;
      data := AppendBranch(data, coinbaseBranch);
      data := AppendBranch(data, blockchainBranch);
      data := data + parentBlock;
    }

    method ToHex() returns (text: string)
      ensures text == Hex(Serialize(View()))
    {
      var data := ToBytes();
      text := Hex(data);
    }
  }

  /** The mask is the shifted one with the sides of the first `done` items of the extension set. */
  ghost predicate SidesSet(mask: u32, mask0: u32, ext: MerklePath, done: nat)
    requires done <= |ext|
  {
    forall j: nat :: Bit(mask, j) ==
      (j < 32 && if j < |ext| then j < done && ext[j].useFirstInConcatenation else Bit(mask0, j - |ext|))
  }

  lemma ShiftedMask(mask0: u32, ext: MerklePath)
    ensures SidesSet(Shl32(mask0, |ext|), mask0, ext, 0)
  {
    forall j: nat ensures Bit(Shl32(mask0, |ext|), j) == (|ext| <= j < 32 && Bit(mask0, j - |ext|)) {
      BitShl32(mask0, |ext|, j);
    }
  }

  lemma SetSide(mask: u32, mask0: u32, ext: MerklePath, i: nat)
    requires i < |ext| && SidesSet(mask, mask0, ext, i)
    ensures !ext[i].useFirstInConcatenation ==> SidesSet(mask, mask0, ext, i + 1)
    ensures ext[i].useFirstInConcatenation ==>
              Or(mask, Shl32(1, i)) < TWO32 && SidesSet(Or(mask, Shl32(1, i)), mask0, ext, i + 1)
  {
    Pow2Constants();
    OrBound(mask, Shl32(1, i), 32);
    forall j: nat ensures Bit(Or(mask, Shl32(1, i)), j) == (Bit(mask, j) || (j == i && j < 32)) {
      BitOr(mask, Shl32(1, i), j);
      BitShl32(1, i, j);
      if i <= j {
        BitOne(j - i);
      }
    }
  }

  lemma SameMask(mask: u32, branch: AuxMerkleBranch, ext: MerklePath)
    requires SidesSet(mask, branch.sideMask, ext, |ext|)
    ensures AuxMerkleBranch(Hashes(ext) + branch.branchs, mask) == ExpandedBranch(branch, ext)
  {
    var sides := PathSides(ext) + Sides(branch.sideMask, 32);
    var packed := PackSides(sides);
    forall i: nat | i < 32 ensures Bit(mask, i) == Bit(packed, i) {
      assert sides[i] == if i < |ext| then ext[i].useFirstInConcatenation else Bit(branch.sideMask, i - |ext|);
    }
    Pow2Constants();
    hide Bit, Sides, PackSides;
    BitsDetermine(mask, packed, 32);
  }

  method AppendBranch(data: seq<byte>, branch: AuxMerkleBranch) returns (data': seq<byte>)
    ensures data' == data + BranchBytes(branch)
  {
    data' := data + [|branch.branchs| % 256];
    ghost var prefix := data';
    for i := 0 to |branch.branchs|
      invariant data' == prefix + Concat(branch.branchs[..i])
    {
      ConcatAppend(branch.branchs[..i], branch.branchs[i]);
      assert branch.branchs[..i + 1] == branch.branchs[..i] + [branch.branchs[i]];
      data' := data' + branch.branchs[i];
    }
    assert branch.branchs[..|branch.branchs|] == branch.branchs;
    data' := data' + LittleEndian32(branch.sideMask);
  }

  lemma {:induction false} ConcatAt(hashes: seq<Hash>, i: nat)
    requires i < |hashes|
    ensures Concat(hashes)[32 * i..32 * i + 32] == hashes[i]
  {
    if i > 0 {
      ConcatAt(hashes[1..], i - 1);
      assert Concat(hashes)[32..] == Concat(hashes[1..]);
      assert Concat(hashes)[32 * i..32 * i + 32] == Concat(hashes)[32..][32 * (i - 1)..32 * (i - 1) + 32];
    }
  }

  lemma PartOfPart(a: seq<byte>, start: nat, b: seq<byte>, i: nat, j: nat)
    requires start + |b| <= |a| && a[start..start + |b|] == b && i <= j <= |b|
    ensures a[start + i..start + j] == b[i..j]
  {
    forall k | 0 <= k < j - i ensures a[start + i..start + j][k] == b[i..j][k] {
      assert a[start..start + |b|][i + k] == a[start + i + k];
    }
  }

  /** A branch in the bytes: a count byte, the items, and four bytes of side mask, the least significant first. */
  ghost predicate BranchAt(data: seq<byte>, start: nat, branch: AuxMerkleBranch) {
    var n := |branch.branchs|;
    && start + 5 + 32 * n <= |data|
    && data[start] == n
    && (forall i | 0 <= i < n :: data[start + 1 + 32 * i..start + 33 + 32 * i] == branch.branchs[i])
    && Value(Reverse(data[start + 1 + 32 * n..start + 5 + 32 * n])) == branch.sideMask
  }

  lemma BranchIsAt(data: seq<byte>, start: nat, branch: AuxMerkleBranch)
    requires start + |BranchBytes(branch)| <= |data| && |branch.branchs| <= 255
    requires data[start..start + |BranchBytes(branch)|] == BranchBytes(branch)
    ensures BranchAt(data, start, branch)
  {
    var n, bytes := |branch.branchs|, BranchBytes(branch);
    PartsOfBranch(branch);
    hide BranchBytes, Reverse, Value;
    assert data[start] == bytes[0];
    forall i | 0 <= i < n ensures data[start + 1 + 32 * i..start + 33 + 32 * i] == branch.branchs[i] {
      PartOfPart(data, start, bytes, 1 + 32 * i, 33 + 32 * i);
    }
    PartOfPart(data, start, bytes, 1 + 32 * n, 5 + 32 * n);
  }

  lemma PartsOfBranch(branch: AuxMerkleBranch)
    requires |branch.branchs| <= 255
    ensures var n, bytes := |branch.branchs|, BranchBytes(branch);
            && |bytes| == 5 + 32 * n && bytes[0] == n
            && (forall i | 0 <= i < n :: bytes[1 + 32 * i..33 + 32 * i] == branch.branchs[i])
            && Value(Reverse(bytes[1 + 32 * n..5 + 32 * n])) == branch.sideMask
  {
    var n, bytes, items := |branch.branchs|, BranchBytes(branch), Concat(branch.branchs);
    var mask := LittleEndian32(branch.sideMask);
    EncodeThenDecode(branch.sideMask);
    LittleEndianIsReversed(mask);
    assert bytes == [n] + items + mask;
    hide BranchBytes, LittleEndian32, FromLittleEndian32, Value, Reverse, Concat;
    assert bytes[1 + 32 * n..5 + 32 * n] == mask;
    forall i | 0 <= i < n ensures bytes[1 + 32 * i..33 + 32 * i] == branch.branchs[i] {
      ConcatAt(branch.branchs, i);
      PartOfPart(bytes, 1, items, 32 * i, 32 * i + 32);
    }
  }

  lemma BranchesAreAt(x: AuxPow)
    requires |x.coinbaseBranch.branchs| <= 255 && |x.blockchainBranch.branchs| <= 255
    ensures BranchAt(Serialize(x), |x.coinbaseTxn| + 32, x.coinbaseBranch)
    ensures BranchAt(Serialize(x), |x.coinbaseTxn| + 37 + 32 * |x.coinbaseBranch.branchs|, x.blockchainBranch)
  {
    SerializeParts(x);
    var data, start := Serialize(x), |x.coinbaseTxn| + 32;
    var a, b := BranchBytes(x.coinbaseBranch), BranchBytes(x.blockchainBranch);
    hide Serialize, BranchBytes, MatchAt;
    var tail := a + (b + x.parentBlock);
    assert data[start..] == tail && |data| == start + |tail|;
    assert tail[0..|a|] == a && tail[|a|..|a| + |b|] == b;
    hide *;
    PartOfPart(data, start, tail, 0, |a|);
    PartOfPart(data, start, tail, |a|, |a| + |b|);
    BranchIsAt(data, start, x.coinbaseBranch);
    BranchIsAt(data, start + |a|, x.blockchainBranch);
  }

  /**
    Where everything is in the bytes of a parsed proof: the transaction, the 32 bytes of block hash, the two branches
    one after the other, and the 80 bytes of header at the end.
  */
  lemma ParsedLayout(hashing: HeaderHash, chainType: string, dataHex: string, x: AuxPow)
    requires Parses(hashing, chainType, dataHex, x)
    ensures var data, c := DecodeHex(dataHex).bytes, |x.coinbaseTxn|;
            var second := c + 37 + 32 * |x.coinbaseBranch.branchs|;
            && |data| == second + 5 + 32 * |x.blockchainBranch.branchs| + 80 && |x.parentBlock| == 80
            && data[..c] == x.coinbaseTxn && data[c..c + 32] == x.blockHash
            && BranchAt(data, c + 32, x.coinbaseBranch) && BranchAt(data, second, x.blockchainBranch)
            && data[|data| - 80..] == x.parentBlock
  {
    BranchesAreAt(x);
    SerializeParts(x);
    HeaderIsLast(x);
    assert DecodeHex(dataHex).bytes == Serialize(x);
    hide Serialize, BranchAt, FirstForm, BranchBytes;
  }

  /**
    The hash in a parsed proof belongs to the proof's own header. For the main chain "LTC" it is the header's scrypt
    key, as it is or reversed; for any other it is the double SHA-256, reversed if that occurs in the text.
  */
  lemma ParsedHashIsHeaders(hashing: HeaderHash, chainType: string, dataHex: string, x: AuxPow)
    requires Parses(hashing, chainType, dataHex, x)
    ensures chainType == "LTC" ==>
              && hashing.scrypt(x.parentBlock).Key?
              && var key := hashing.scrypt(x.parentBlock).key;
              && (x.blockHash == key || (x.blockHash == Reverse(key) && !Occurs(DecodeHex(dataHex).bytes, key)))
    ensures chainType != "LTC" ==>
              var sha := hashing.sha256d(x.parentBlock);
              || x.blockHash == Reverse(sha)
              || (x.blockHash == sha && !Occurs(DecodeHex(dataHex).bytes, Reverse(sha)))
  {
    HeaderIsLast(x);
    ReverseInvolutive(hashing.sha256d(x.parentBlock));
    hide Serialize, Occurs;
  }

  /** The text `dataHex` is the hexadecimal form of the proof `x`, under the main chain's header hash. */
  ghost predicate Parses(hashing: HeaderHash, chainType: string, dataHex: string, x: AuxPow) {
    && DecodeHex(dataHex).Bytes?
    && var data := DecodeHex(dataHex).bytes;
    && |data| > HEADER_SIZE
    && var key := FirstForm(hashing, chainType, data[|data| - HEADER_SIZE..]);
    && key.Key? && Decodes(key.key, data, x)
  }

  /** Printing a parsed proof gives its text back in lower-case digits, and a text parses to one proof only. */
  lemma ParsesRoundTrip(hashing: HeaderHash, chainType: string, dataHex: string, x: AuxPow, y: AuxPow)
    requires Parses(hashing, chainType, dataHex, x)
    ensures Hex(Serialize(x)) == Lower(dataHex)
    ensures Parses(hashing, chainType, dataHex, y) ==> x == y
  {
    HexOfDecode(dataHex);
    var data := DecodeHex(dataHex).bytes;
    if Parses(hashing, chainType, dataHex, y) {
      DecodesUnique(FirstForm(hashing, chainType, data[|data| - HEADER_SIZE..]).key, data, x, y);
    }
  }

  /**
    Printing a proof and parsing the text gives the proof back exactly when it has a whole header, its branches fit
    their count bytes, and its hash is the header's hash in the form that the parser finds first, at no earlier place.
  */
  lemma PrintThenParseIff(hashing: HeaderHash, chainType: string, x: AuxPow)
    ensures Parses(hashing, chainType, Hex(Serialize(x)), x) <==>
            && |x.parentBlock| == HEADER_SIZE
            && |x.coinbaseBranch.branchs| <= 255 && |x.blockchainBranch.branchs| <= 255
            && var key := FirstForm(hashing, chainType, x.parentBlock);
            && key.Key?
            && (x.blockHash == key.key || (x.blockHash == Reverse(key.key) && !Occurs(Serialize(x), key.key)))
            && (forall i | 0 <= i < |x.coinbaseTxn| :: !MatchAt(Serialize(x), x.blockHash, i))
  {
    var data := Serialize(x);
    DecodeOfHex(data);
    SerializeParts(x);
    if |x.parentBlock| == HEADER_SIZE {
      HeaderIsLast(x);
    }
    var key := FirstForm(hashing, chainType, x.parentBlock);
    if key.Key? {
      RoundTripIff(key.key, x);
    }
    hide Serialize, FirstForm, Occurs, MatchAt;
  }

  lemma HeaderIsLast(x: AuxPow)
    requires |x.parentBlock| == HEADER_SIZE
    ensures |Serialize(x)| > HEADER_SIZE && Serialize(x)[|Serialize(x)| - HEADER_SIZE..] == x.parentBlock
  {
    SerializeParts(x);
  }

  /**
    The text of the extended proof parses to the extended proof, exactly when the count byte can hold the longer branch
    and, for a hash stored in its reversed form, the first form does not happen to occur in the longer text.
  */
  lemma ExpandedTextParsesIff(hashing: HeaderHash, chainType: string, dataHex: string, x: AuxPow, ext: MerklePath)
    requires Parses(hashing, chainType, dataHex, x)
    ensures FirstForm(hashing, chainType, x.parentBlock).Key?
    ensures var first, y := FirstForm(hashing, chainType, x.parentBlock).key, Expanded(x, ext);
            Parses(hashing, chainType, Hex(Serialize(y)), y) <==>
            && |ext| + |x.blockchainBranch.branchs| <= 255
            && (x.blockHash == first || !Occurs(Serialize(y), first))
  {
    var y := Expanded(x, ext);
    HeaderIsLast(x);
    HeaderIsLast(y);
    DecodeOfHex(Serialize(y));
    ExpandedDecodesIff(FirstForm(hashing, chainType, x.parentBlock).key, x, ext);
    hide Serialize, Expanded, Occurs, Decodes;
  }

  /**
    The stored form of the hash stands for the header's number, whatever it is compared with, exactly when the first
    form occurs in the text, or reads the same in both byte orders.
  */
  lemma StoredFormDecidesIff(hashing: HeaderHash, chainType: string, dataHex: string, x: AuxPow)
    requires Parses(hashing, chainType, dataHex, x)
    ensures FirstForm(hashing, chainType, x.parentBlock).Key?
    ensures var first := FirstForm(hashing, chainType, x.parentBlock).key;
            (forall target: Hash :: Value(x.blockHash) <= Value(target) <==> Value(first) <= Value(target)) <==>
            Occurs(Serialize(x), first) || first == Reverse(first)
  {
    HeaderIsLast(x);
    var first := FirstForm(hashing, chainType, x.parentBlock).key;
    assert x.blockHash == FoundForm(Serialize(x), first);
    if !Occurs(Serialize(x), first) && first != Reverse(first) {
      var stored := Reverse(first);
      if Value(stored) == Value(first) {
        ValueInjective(stored, first);
      }
      assert Value(stored) < Value(first) || Value(first) < Value(stored);
      var target: Hash := if Value(stored) < Value(first) then stored else first;
      assert (Value(stored) <= Value(target)) != (Value(first) <= Value(target));
    }
    hide Serialize, Value, Occurs, FirstForm;
  }

  /**
    `ParseAuxPowData` itself: decodes the text and parses the bytes into a new object. It fails exactly on texts that
    are the form of no proof.
  */
  method ParseAuxPowData(hashing: HeaderHash, dataHex: string, chainType: string)
    returns (auxPowData: AuxPowData?, error: ParseError)
    ensures auxPowData == null <==> forall x :: !Parses(hashing, chainType, dataHex, x)
    ensures auxPowData == null ==> (error == NotHex <==> DecodeHex(dataHex).InvalidHex?)
    ensures auxPowData == null && DecodeHex(dataHex).Bytes? ==>
              var data := DecodeHex(dataHex).bytes;
              && (error == TooShort <==> |data| <= 80)
              && (error == ScryptFailed <==>
                  |data| > 80 && chainType == "LTC" && hashing.scrypt(data[|data| - 80..]).ScryptError?)
    ensures auxPowData != null ==> fresh(auxPowData) && Parses(hashing, chainType, dataHex, auxPowData.View())
  {
    auxPowData, error := null, NotHex;
    var decoded := DecodeHex(dataHex);
    if decoded.InvalidHex? {
      return;
    }
    var r := ParseBytes(hashing, chainType, decoded.bytes);
    match r {
      case Invalid(e) => error := e;
      case Valid(x) =>
        auxPowData := new AuxPowData(x);
        assert Parses(hashing, chainType, dataHex, auxPowData.View());
    }
  }
}
