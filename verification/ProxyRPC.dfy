/**
  Submitting a proof of work to the chains of a job, and what the chains can check.
*/
module ProxyRPC {
  import opened Bits
  import opened Byte32
  import opened Merkle
  import opened ChainSlot
  import opened AuxPowData
  import opened AuxJobMaker

  /** The two texts put into a chain's request: its own block hash, and the proof extended by its own path. */
  datatype Submission = Submission(hashHex: string, auxPowHex: string)

  datatype SubmitError = BadProof(error: ParseError) | BadHash | JobNotFound | HighHash

  datatype Response = Accepted | Rejected(error: SubmitError)

  /**
    `hash.MakeByte32FromHex`: the bytes are copied into 32, so a short text is filled with zeros
    and a long one cut.
  */
  function HashFromHex(s: string): (r: Decoded)
    ensures r.Bytes? ==> |r.bytes| == 32
  {
    match DecodeHex(s)
    case InvalidHex => InvalidHex
    case Bytes(b) => Bytes(CopyFrom(b, 0, 32))
  }

  predicate ReachesTarget(h: Hash, auxPow: AuxPowInfo) {
    Value(h) <= Value(auxPow.target)
  }

  function SubmissionFor(x: AuxPow, auxPow: AuxPowInfo): Submission {
    Submission(Hex(Reverse(auxPow.hash)), Hex(Serialize(Expanded(x, auxPow.blockchainBranch))))
  }

  /** The loop over the chains: each chain whose target the hash reaches gets its own extended copy of the proof. */
  method Dispatch(job: AuxPowJob, auxPowData: AuxPow) returns (submissions: map<nat, Submission>)
    ensures forall i :: i in submissions <==> i in job.auxPows && ReachesTarget(auxPowData.blockHash, job.auxPows[i])
    ensures forall i | i in submissions :: submissions[i] == SubmissionFor(auxPowData, job.auxPows[i])
  {
    hide ReachesTarget, Expanded, Serialize, Hex, StringLeq, Value;
    submissions := map[];
    var remaining := job.auxPows.Keys;
    while remaining != {}
      invariant remaining <= job.auxPows.Keys
      invariant forall i :: i in submissions <==>
                  i in job.auxPows && i !in remaining && ReachesTarget(auxPowData.blockHash, job.auxPows[i])
      invariant forall i | i in submissions :: submissions[i] == SubmissionFor(auxPowData, job.auxPows[i])
      decreases remaining
    {
      var index :| index in remaining;
      var extAuxPow := job.auxPows[index];
      TextDecides(auxPowData.blockHash, extAuxPow);
      if StringLeq(Hex(auxPowData.blockHash), Hex(extAuxPow.target)) {
        var copy := new AuxPowData(auxPowData);
        copy.ExpandingBlockchainBranch(extAuxPow.blockchainBranch);
        var auxPowHex := copy.ToHex();
        submissions := submissions[index := Submission(Hex(Reverse(extAuxPow.hash)), auxPowHex)];
      }
      remaining := remaining - {index};
    }
  }

  lemma TextDecides(h: Hash, auxPow: AuxPowInfo)
    ensures StringLeq(Hex(h), Hex(auxPow.target)) <==> ReachesTarget(h, auxPow)
  {
    HexOrder(h, auxPow.target);
  }

  /**
    `submitauxblock`. The proof is parsed, the job is looked up under the reversed hash, and the proof goes to every
    chain whose target it reaches; it is refused with `HighHash` exactly when it exceeds the targets of all of them.
  */
  method SubmitAuxBlock(maker: AuxJobMaker, hashing: HeaderHash, mainChain: string, hashHex: string, auxPowHex: string)
    returns (response: Response, submissions: map<nat, Submission>, ghost proof: AuxPow)
    requires maker.Valid()
    ensures response.Rejected? ==> submissions == map[]
    ensures (response.Rejected? && response.error.BadProof?) <==> forall x :: !Parses(hashing, mainChain, auxPowHex, x)
    ensures !(response.Rejected? && response.error.BadProof?) ==>
              && (response == Rejected(BadHash) <==> HashFromHex(hashHex).InvalidHex?)
              && (response == Rejected(JobNotFound) <==>
                  HashFromHex(hashHex).Bytes? && Reverse(HashFromHex(hashHex).bytes) !in maker.auxPowJobs)
    ensures response.Accepted? || response == Rejected(HighHash) ==>
              && HashFromHex(hashHex).Bytes?
              && Reverse(HashFromHex(hashHex).bytes) in maker.auxPowJobs
              && Parses(hashing, mainChain, auxPowHex, proof)
              && var job := maker.auxPowJobs[Reverse(HashFromHex(hashHex).bytes)];
              && (response == Rejected(HighHash) <==>
                  forall i | i in job.auxPows :: !ReachesTarget(proof.blockHash, job.auxPows[i]))
              && (forall i :: i in submissions <==> i in job.auxPows && ReachesTarget(proof.blockHash, job.auxPows[i]))
              && (forall i | i in submissions :: submissions[i] == SubmissionFor(proof, job.auxPows[i]))
  {
    hide ReachesTarget, SubmissionFor, Serialize, Hex, Parses, JobSound, CacheConsistent, SlotsConsistent;
    submissions := map[];
    proof := AuxPow([], ZERO, AuxMerkleBranch([], 0), AuxMerkleBranch([], 0), []);
    var auxPowData, error := ParseAuxPowData(hashing, auxPowHex, mainChain);
    if auxPowData == null {
      return Rejected(BadProof(error)), submissions, proof;
    }
    var x := auxPowData.View();
    proof := x;
    var decoded := HashFromHex(hashHex);
    if decoded.InvalidHex? {
      return Rejected(BadHash), submissions, proof;
    }
    var found := maker.FindAuxJob(Reverse(decoded.bytes));
    if found.NotFound? {
      return Rejected(JobNotFound), submissions, proof;
    }
    submissions := Dispatch(found.job, x);
    if |submissions| < 1 {
      return Rejected(HighHash), submissions, proof;
    }
    var i :| i in submissions;
    response := Accepted;
  }

  // ---- Advertising a job ----

  /** The result of `createauxblock`. */
  datatype Advertised =
    | Advertised(
        bits: string, chainID: u32, coinbaseValue: nat, hash: string, height: u32, previousBlockHash: string,
        target: string, merkleSize: u32, merkleNonce: u32)
    | NotAdvertised

  /** What the texts and numbers of the result say about the job: hash and target are in reverse byte order. */
  ghost predicate Advertises(r: Advertised, job: AuxPowJob) {
    && r.Advertised?
    && r.bits == job.minBits && r.chainID == 1 && r.coinbaseValue == job.coinbaseValue && r.height == job.height
    && r.merkleSize == job.merkleSize && r.merkleNonce == job.merkleNonce
    && DecodeHex(r.hash).Bytes? && Reverse(DecodeHex(r.hash).bytes) == job.merkleRoot
    && DecodeHex(r.target).Bytes? && Reverse(DecodeHex(r.target).bytes) == job.maxTarget
    && DecodeHex(r.previousBlockHash) == Bytes(job.prevBlockHash)
  }

  /** `createAuxBlock`: the job advertised can be submitted to, unless the cache is configured to hold none. */
  method CreateAuxBlock(maker: AuxJobMaker, rand: nat -> u32) returns (r: Advertised, ghost job: AuxPowJob)
    requires maker.Valid()
    modifies maker
    ensures maker.Valid()
    ensures r.NotAdvertised? ==> maker.View() == old(maker.View())
    ensures r.Advertised? ==>
              && Advertises(r, job) && MakesAndStores(maker.config, old(maker.View()), maker.View(), job)
              && (maker.config.auxPowJobListSize > 0 ==> job.merkleRoot in maker.auxPowJobs)
  {
    var made := maker.GetAuxJob(rand);
    if !made.Job? {
      job := AuxPowJob("", ZERO, ZERO, 0, 0, map[], ZERO, 0, 0);
      return NotAdvertised, job;
    }
    job := made.job;
    r := Advertised(
      made.job.minBits, 1, made.job.coinbaseValue, Hex(Reverse(made.job.merkleRoot)), made.job.height,
      Hex(made.job.prevBlockHash), Hex(Reverse(made.job.maxTarget)), made.job.merkleSize, made.job.merkleNonce);
    FieldsAreRead(r, made.job);
    ghost var before := old(maker.View());
    ghost var mid :| MakesJob(maker.config, before, mid, job) && maker.View() == Stored(maker.config, mid, job);
    MadeKeepsCache(maker.config, before, mid, job);
    if maker.config.auxPowJobListSize > 0 {
      StoredIsFound(maker.config, mid, job);
    }
    hide Advertises, MakesJob, Stored;
  }

  ghost predicate MakesAndStores(config: Config, s: Maker, t: Maker, job: AuxPowJob) {
    exists mid :: MakesJob(config, s, mid, job) && t == Stored(config, mid, job)
  }

  lemma FieldsAreRead(r: Advertised, job: AuxPowJob)
    requires r == Advertised(
               job.minBits, 1, job.coinbaseValue, Hex(Reverse(job.merkleRoot)), job.height, Hex(job.prevBlockHash),
               Hex(Reverse(job.maxTarget)), job.merkleSize, job.merkleNonce)
    ensures Advertises(r, job)
  {
    DecodeOfHex(Reverse(job.merkleRoot));
    DecodeOfHex(Reverse(job.maxTarget));
    DecodeOfHex(job.prevBlockHash);
    ReverseInvolutive(job.merkleRoot);
    ReverseInvolutive(job.maxTarget);
    hide Hex, DecodeHex;
  }

  /** A job that was just stored is in the cache, if the cache holds any. */
  lemma StoredIsFound(config: Config, s: Maker, job: AuxPowJob)
    requires CacheConsistent(config, s) && config.auxPowJobListSize > 0
    ensures job.merkleRoot in Stored(config, s, job).auxPowJobs
  {
    hide JobSound;
    if job.merkleRoot !in s.auxPowJobs && |s.auxPowJobIndex| > 0 {
      assert s.auxPowJobIndex[0] in s.auxPowJobIndex;
    }
  }

  /** The hash a job is advertised under, byte-reversed text, leads back to its root when it is submitted. */
  lemma AdvertisedHashFindsRoot(root: Hash)
    ensures HashFromHex(Hex(Reverse(root))).Bytes?
    ensures Reverse(HashFromHex(Hex(Reverse(root))).bytes) == root
  {
    DecodeOfHex(Reverse(root));
    ReverseInvolutive(root);
  }

  /**
    The texts under which a root is found: hexadecimal ones that, in lower case, filled with zeros on the right and cut
    after 64 digits, are the advertised text.
  */
  lemma TextFindsRootIff(s: string, root: Hash)
    ensures HashFromHex(s).Bytes? && Reverse(HashFromHex(s).bytes) == root <==>
            DecodeHex(s).Bytes? && (Lower(s) + Hex(ZERO))[..64] == Hex(Reverse(root))
  {
    if DecodeHex(s).Bytes? {
      var b, h := DecodeHex(s).bytes, HashFromHex(s).bytes;
      CopyIsCut(b);
      HexOfDecode(s);
      HexConcat(b, ZERO);
      HexConcat((b + ZERO)[..32], (b + ZERO)[32..]);
      assert b + ZERO == (b + ZERO)[..32] + (b + ZERO)[32..];
      assert Hex(h) == (Lower(s) + Hex(ZERO))[..64];
      ReverseInvolutive(h);
      ReverseInvolutive(root);
      if Hex(h) == Hex(Reverse(root)) {
        HexInjective(h, Reverse(root));
      }
    }
  }

  lemma CopyIsCut(b: seq<byte>)
    ensures CopyFrom(b, 0, 32) == (b + ZERO)[..32]
  {
  }

  // ---- What a job's target promises ----

  /** A hash at or below the job's target reaches the target of at least one of its chains. */
  lemma JobTargetReachesAChain(config: Config, job: AuxPowJob, h: Hash) returns (i: nat)
    requires JobSound(config, job) && Value(h) <= Value(job.maxTarget)
    ensures i in job.auxPows && ReachesTarget(h, job.auxPows[i])
  {
    hide Value, IsLeafRow, MerklePathForLeaf, MerkleRoot, GetChainSlot;
    var blocks: Blocks :| JobBuiltFrom(config, job, blocks);
    var top: Hash, bits: string :| IsTopTarget(blocks, top, bits) &&
      if Value(top) > Value(config.maxJobTarget)
      then job.maxTarget == config.maxJobTarget && job.minBits == config.minJobBits
      else job.maxTarget == top && job.minBits == bits;
    i :| i in blocks && blocks[i].target == top;
    var row: seq<Hash>, k: nat :| HasTree(config.join, job, blocks, row, k);
  }

  /**
    The hash is compared in the form in which it was found. A header whose number meets a target is refused when
    only its reversed form occurs in the text and stands for a larger number.
  */
  lemma ReversedHashCanMissTarget()
    returns (hashing: HeaderHash, dataHex: string, x: AuxPow, first: Hash, auxPow: AuxPowInfo)
    ensures Parses(hashing, "BTC", dataHex, x) && FirstForm(hashing, "BTC", x.parentBlock) == Key(first)
    ensures Value(first) <= Value(auxPow.target) && !ReachesTarget(x.blockHash, auxPow)
  {
    var stored: Hash := [2, 1] + Zeros(30);
    first := Reverse(stored);
    auxPow := AuxPowInfo(0, ZERO, first, []);
    hashing := HeaderHash(_ => stored, _ => ScryptError);
    x := AuxPow([], stored, AuxMerkleBranch([], 0), AuxMerkleBranch([], 0), Zeros(HEADER_SIZE));
    dataHex := Hex(Serialize(x));
    assert FirstForm(hashing, "BTC", x.parentBlock) == Key(first);
    assert first[0] < stored[0];
    hide Serialize, Hex, Value, Parses, Occurs, FirstForm, Zeros;
    ReverseInvolutive(stored);
    TextOfStored(stored);
    PrintThenParseIff(hashing, "BTC", x);
    TopByteDecides(stored, first);
  }

  /** The reversed hash of that proof occurs nowhere in its text: only the first byte of the text is 2. */
  lemma TextOfStored(stored: Hash)
    requires stored == [2, 1] + Zeros(30)
    ensures !Occurs(Serialize(AuxPow([], stored, AuxMerkleBranch([], 0), AuxMerkleBranch([], 0), Zeros(HEADER_SIZE))),
                    Reverse(stored))
  {
    var x := AuxPow([], stored, AuxMerkleBranch([], 0), AuxMerkleBranch([], 0), Zeros(HEADER_SIZE));
    var data, first := Serialize(x), Reverse(stored);
    assert BranchBytes(AuxMerkleBranch([], 0)) == [0, 0, 0, 0, 0];
    assert data == stored + [0, 0, 0, 0, 0] + [0, 0, 0, 0, 0] + Zeros(HEADER_SIZE);
    hide Serialize, BranchBytes, Zeros, Reverse;
    LastByteOnlyAtStart(data, first);
  }

  lemma LastByteOnlyAtStart(data: seq<byte>, h: Hash)
    requires forall k | 31 <= k < |data| :: data[k] != h[31]
    ensures !Occurs(data, h)
  {
    forall i ensures !MatchAt(data, h, i) {
      if 0 <= i <= |data| - 32 {
        assert data[i..i + 32][31] == data[i + 31] != h[31];
      }
    }
  }

  lemma TopByteDecides(a: seq<byte>, b: seq<byte>)
    requires |a| == |b| > 0 && b[0] < a[0]
    ensures Value(b) < Value(a)
  {
    LeadingByteDecides(a[0], Value(a[1..]), b[0], Value(b[1..]), Pow256(|a| - 1));
  }

  // ---- End to end ----

  /**
    The merged-mining guarantee. Whatever updates and requests have happened, take any cached job, any of its chains,
    and any proof whose blockchain branch folds the job's root to `merged`: the proof sent to that chain has a branch
    that folds the block hash the chain had reported, when the job was made at step `m`, to the same `merged`.
  */
  lemma EndToEnd(config: Config, run: seq<System>, n: nat, root: Hash, i: nat, x: AuxPow, merged: Hash) returns (m: nat)
    requires IsRun(config, run) && n < |run| && root in run[n].maker.auxPowJobs
    requires i in run[n].maker.auxPowJobs[root].auxPows
    requires Fold(config.join, root, x.blockchainBranch.branchs, x.blockchainBranch.sideMask) == merged
    requires NoSideLost(x.blockchainBranch, run[n].maker.auxPowJobs[root].auxPows[i].blockchainBranch)
    ensures m < n && MadeAt(config, run, m, run[n].maker.auxPowJobs[root])
    ensures i in run[m].maker.currentAuxBlocks
    ensures var auxPow := run[n].maker.auxPowJobs[root].auxPows[i];
            var sent := Expanded(x, auxPow.blockchainBranch).blockchainBranch;
            && auxPow.hash == run[m].maker.currentAuxBlocks[i].hash
            && Fold(config.join, run[m].maker.currentAuxBlocks[i].hash, sent.branchs, sent.sideMask) == merged
  {
    var k;
    m, k := CachedJobCommits(config, run, n, root);
    var job := run[n].maker.auxPowJobs[root];
    hide IsRun, MadeAt, GetChainSlot;
    assert CommitsToChain(config.join, job, i, run[m].maker.currentAuxBlocks[i], k);
    ExpansionComposes(config.join, job.auxPows[i].hash, x.blockchainBranch, job.auxPows[i].blockchainBranch);
  }

  /**
    The same for the text that is sent: when the longer branch fits its count byte and the form of the hash searched for
    first is the stored one or does not occur in the text, the text parses, and whatever proof a receiver parses it to
    has a branch folding the reported block hash to `merged`.
  */
  lemma SentTextFolds(
    config: Config, hashing: HeaderHash, mainChain: string, run: seq<System>, n: nat, root: Hash, i: nat,
    dataHex: string, x: AuxPow, merged: Hash) returns (m: nat)
    requires IsRun(config, run) && n < |run| && root in run[n].maker.auxPowJobs
    requires i in run[n].maker.auxPowJobs[root].auxPows
    requires Parses(hashing, mainChain, dataHex, x)
    requires Fold(config.join, root, x.blockchainBranch.branchs, x.blockchainBranch.sideMask) == merged
    requires NoSideLost(x.blockchainBranch, run[n].maker.auxPowJobs[root].auxPows[i].blockchainBranch)
    requires SentTextFits(hashing, mainChain, x, run[n].maker.auxPowJobs[root].auxPows[i])
    ensures m < n && MadeAt(config, run, m, run[n].maker.auxPowJobs[root]) && i in run[m].maker.currentAuxBlocks
    ensures var text := SubmissionFor(x, run[n].maker.auxPowJobs[root].auxPows[i]).auxPowHex;
            && Parses(hashing, mainChain, text, Expanded(x, run[n].maker.auxPowJobs[root].auxPows[i].blockchainBranch))
            && forall y | Parses(hashing, mainChain, text, y) ::
                 Fold(config.join, run[m].maker.currentAuxBlocks[i].hash,
                      y.blockchainBranch.branchs, y.blockchainBranch.sideMask) == merged
  {
    m := EndToEnd(config, run, n, root, i, x, merged);
    var auxPow := run[n].maker.auxPowJobs[root].auxPows[i];
    var sent := Expanded(x, auxPow.blockchainBranch);
    ExpandedTextParsesIff(hashing, mainChain, dataHex, x, auxPow.blockchainBranch);
    hide IsRun, MadeAt, Parses, Expanded, Fold, Serialize, Hex;
    forall y | Parses(hashing, mainChain, Hex(Serialize(sent)), y) ensures y == sent {
      ParsesRoundTrip(hashing, mainChain, Hex(Serialize(sent)), sent, y);
    }
  }

  /**
    In every run the hash text sent for a chain of a cached job is, read as 32 bytes in reverse, the block hash that the
    chain had reported when the job was made.
  */
  lemma SentHashIsReported(config: Config, run: seq<System>, n: nat, root: Hash, i: nat, x: AuxPow) returns (m: nat)
    requires IsRun(config, run) && n < |run| && root in run[n].maker.auxPowJobs
    requires i in run[n].maker.auxPowJobs[root].auxPows
    ensures m < n && MadeAt(config, run, m, run[n].maker.auxPowJobs[root]) && i in run[m].maker.currentAuxBlocks
    ensures var decoded := DecodeHex(SubmissionFor(x, run[n].maker.auxPowJobs[root].auxPows[i]).hashHex);
            && decoded.Bytes? && |decoded.bytes| == 32
            && Reverse(decoded.bytes) == run[m].maker.currentAuxBlocks[i].hash
  {
    var k;
    m, k := CachedJobCommits(config, run, n, root);
    var auxPow := run[n].maker.auxPowJobs[root].auxPows[i];
    hide IsRun, MadeAt, GetChainSlot, FoldsFromSlot;
    assert CommitsToChain(config.join, run[n].maker.auxPowJobs[root], i, run[m].maker.currentAuxBlocks[i], k);
    DecodeOfHex(Reverse(auxPow.hash));
    ReverseInvolutive(auxPow.hash);
  }

  /** The condition under which the text sent to a chain parses to the proof that was meant. */
  ghost predicate SentTextFits(hashing: HeaderHash, mainChain: string, x: AuxPow, auxPow: AuxPowInfo) {
    && |auxPow.blockchainBranch| + |x.blockchainBranch.branchs| <= 255
    && var key := FirstForm(hashing, mainChain, x.parentBlock);
    && key.Key?
    && (x.blockHash == key.key || !Occurs(Serialize(Expanded(x, auxPow.blockchainBranch)), key.key))
  }

  /** No set side of the extended branch lies beyond the 32 bits of the mask. */
  predicate NoSideLost(branch: AuxMerkleBranch, ext: MerklePath) {
    forall i | 32 <= i < |ext| + |branch.branchs| :: !ExtendedSides(branch, ext)[i]
  }

  /**
    With an empty submitted branch, the side mask sent to a chain of a cached job is the slot that the published formula
    gives for the chain's own ID, as reported when the job was made, exactly when the submitted mask has no bit that
    survives the shift. The branch sent has one item per level of the tree.
  */
  lemma SlotIsPublished(config: Config, run: seq<System>, n: nat, root: Hash, i: nat, x: AuxPow)
    returns (m: nat, k: nat)
    requires IsRun(config, run) && n < |run| && root in run[n].maker.auxPowJobs
    requires i in run[n].maker.auxPowJobs[root].auxPows
    requires x.blockchainBranch.branchs == []
    ensures m < n && MadeAt(config, run, m, run[n].maker.auxPowJobs[root])
    ensures i in run[m].maker.currentAuxBlocks && k <= 31 && run[n].maker.auxPowJobs[root].merkleSize == Pow2(k)
    ensures SlotSent(run[n].maker.auxPowJobs[root], i, run[m].maker.currentAuxBlocks[i].chainID, k, x)
  {
    hide *;
    m, k := CachedJobCommits(config, run, n, root);
    var job := run[n].maker.auxPowJobs[root];
    CommitsAt(config, job, run[m].maker.currentAuxBlocks, k, i);
    SlotIsSent(config, job, i, run[m].maker.currentAuxBlocks[i], k, x);
  }

  /**
    The branch sent for chain `i` has one item per level, and its mask is the slot of the published formula exactly when
    the submitted mask has no bit that survives the shift.
  */
  ghost predicate SlotSent(job: AuxPowJob, i: nat, chainID: u32, k: nat, x: AuxPow)
    requires i in job.auxPows && k <= 32
  {
    var sent := Expanded(x, job.auxPows[i].blockchainBranch).blockchainBranch;
    && job.merkleSize > 0 && |sent.branchs| == k
    && (sent.sideMask == (1103515245 * (1103515245 * job.merkleNonce + 12345 + chainID) + 12345) % job.merkleSize <==>
        LowBitsClear(x.blockchainBranch.sideMask, 32 - k))
  }

  lemma CommitsAt(config: Config, job: AuxPowJob, blocks: Blocks, k: nat, i: nat)
    requires Commits(config.join, job, blocks, k) && i in job.auxPows
    ensures i in blocks && k <= 31 && job.merkleSize == Pow2(k) && CommitsToChain(config.join, job, i, blocks[i], k)
  {
    hide CommitsToChain, Pow2;
  }

  lemma SlotIsSent(config: Config, job: AuxPowJob, i: nat, block: AuxBlockInfo, k: nat, x: AuxPow)
    requires k <= 31 && job.merkleSize == Pow2(k) && CommitsToChain(config.join, job, i, block, k)
    requires x.blockchainBranch.branchs == []
    ensures SlotSent(job, i, block.chainID, k, x)
  {
    assert i in job.auxPows && job.merkleSize > 0;
    hide *;
    var slot := GetChainSlot(block.chainID, job.merkleSize, job.merkleNonce);
    ChainPathIs(config, job, i, block, k);
    SlotIsPublishedSlot(block.chainID, k, job.merkleSize, job.merkleNonce);
    MaskIsSlotIff(x.blockchainBranch, job.auxPows[i].blockchainBranch, slot, k);
    SlotSentIf(job, i, block.chainID, k, x, slot);
  }

  lemma ChainPathIs(config: Config, job: AuxPowJob, i: nat, block: AuxBlockInfo, k: nat)
    requires job.merkleSize == Pow2(k) && CommitsToChain(config.join, job, i, block, k)
    ensures var path := job.auxPows[i].blockchainBranch;
            var slot := GetChainSlot(block.chainID, job.merkleSize, job.merkleNonce);
            && slot < Pow2(k) && |path| == k
            && forall j | 0 <= j < k :: path[j].useFirstInConcatenation == Bit(slot, j)
  {
    hide GetChainSlot, Pow2, Bit;
  }

  lemma SlotSentIf(job: AuxPowJob, i: nat, chainID: u32, k: nat, x: AuxPow, slot: u32)
    requires i in job.auxPows && k <= 32 && job.merkleSize > 0 && x.blockchainBranch.branchs == []
    requires |job.auxPows[i].blockchainBranch| == k
    requires slot == PublishedSlot(chainID, job.merkleSize, job.merkleNonce)
    requires ExpandedBranch(x.blockchainBranch, job.auxPows[i].blockchainBranch).sideMask == slot <==>
             LowBitsClear(x.blockchainBranch.sideMask, 32 - k)
    ensures SlotSent(job, i, chainID, k, x)
  {
    hide LowBitsClear, ExpandedBranch, Hashes;
    assert PublishedSlot(chainID, job.merkleSize, job.merkleNonce) ==
           (1103515245 * (1103515245 * job.merkleNonce + 12345 + chainID) + 12345) % job.merkleSize;
    BranchLength(x.blockchainBranch, job.auxPows[i].blockchainBranch);
  }

  lemma BranchLength(branch: AuxMerkleBranch, ext: MerklePath)
    ensures |ExpandedBranch(branch, ext).branchs| == |ext| + |branch.branchs|
  {
  }

  ghost predicate LowBitsClear(x: nat, n: nat) {
    forall j: nat | j < n :: !Bit(x, j)
  }

  /** The low `k` bits of `mask` are those of `slot`, the others those of `mask0`, moved up. */
  ghost predicate MaskSplits(mask: u32, slot: u32, mask0: u32, k: nat) {
    forall j: nat | j < 32 :: Bit(mask, j) == if j < k then Bit(slot, j) else Bit(mask0, j - k)
  }

  lemma MaskIsSlotIff(branch: AuxMerkleBranch, path: MerklePath, slot: u32, k: nat)
    requires k <= 31 && slot < Pow2(k) && |path| == k
    requires forall j | 0 <= j < k :: path[j].useFirstInConcatenation == Bit(slot, j)
    ensures ExpandedBranch(branch, path).sideMask == slot <==> LowBitsClear(branch.sideMask, 32 - k)
  {
    ExpandedMaskSplits(branch, path, slot, k);
    hide *;
    SlotBitsIff(ExpandedBranch(branch, path).sideMask, branch.sideMask, slot, k);
  }

  lemma SlotBitsIff(mask: u32, mask0: u32, slot: u32, k: nat)
    requires k <= 31 && slot < Pow2(k) && MaskSplits(mask, slot, mask0, k)
    ensures mask == slot <==> LowBitsClear(mask0, 32 - k)
  {
    forall j: nat | k <= j < 32 ensures !Bit(slot, j) {
      BitAboveWidth(slot, k, j);
    }
    if LowBitsClear(mask0, 32 - k) {
      SameBits(mask, slot);
    } else {
      var j: nat :| j < 32 - k && Bit(mask0, j);
      assert Bit(mask, j + k) && !Bit(slot, j + k);
    }
  }

  lemma SameBits(a: u32, b: u32)
    requires forall j: nat | j < 32 :: Bit(a, j) == Bit(b, j)
    ensures a == b
  {
    Pow2Constants();
    hide Bit;
    BitsDetermine(a, b, 32);
  }

  lemma ExpandedMaskSplits(branch: AuxMerkleBranch, path: MerklePath, slot: u32, k: nat)
    requires |path| == k
    requires forall j | 0 <= j < k :: path[j].useFirstInConcatenation == Bit(slot, j)
    ensures MaskSplits(ExpandedBranch(branch, path).sideMask, slot, branch.sideMask, k)
  {
    hide Bit;
    var sides := PathSides(path) + Sides(branch.sideMask, 32);
    forall j: nat | j < 32
      ensures Bit(PackSides(sides), j) == if j < k then Bit(slot, j) else Bit(branch.sideMask, j - k)
    {
      assert Bit(PackSides(sides), j) == sides[j];
    }
  }
}
