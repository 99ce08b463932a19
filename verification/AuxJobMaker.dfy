/**
  The auxiliary job maker: the current block of every chain, the slot table, the construction of a job whose Merkle root
  commits to all chains, and the bounded first-in-first-out cache of jobs.

  Every region that the program runs under the maker's lock is one atomic step here.
*/
module AuxJobMaker {
  import opened Bits
  import opened Byte32
  import opened Merkle
  import opened ChainSlot
  import opened AuxPowData
  import Target

  datatype AuxBlockInfo = AuxBlockInfo(
    hash: Hash, chainID: u32, bits: string, target: Hash, height: u32, prevBlockHash: Hash, coinbaseValue: nat)

  /** Go's zero value, which a lookup of a missing chain yields. */
  const NO_BLOCK: AuxBlockInfo := AuxBlockInfo(ZERO, 0, "", ZERO, 0, ZERO, 0)

  type Blocks = map<nat, AuxBlockInfo>

  datatype AuxPowInfo = AuxPowInfo(height: u32, hash: Hash, target: Hash, blockchainBranch: MerklePath)

  datatype AuxPowJob = AuxPowJob(
    minBits: string, maxTarget: Hash,
    merkleRoot: Hash, merkleSize: u32, merkleNonce: u32,
    auxPows: map<nat, AuxPowInfo>,
    prevBlockHash: Hash, coinbaseValue: nat, height: u32)

  /** `chainIDIndexSlots`, nil or a table. */
  datatype SlotTable = Nil | Table(slots: map<u32, u32>)

  /** The fields that never change once the maker has been created. */
  datatype Config = Config(join: Join, auxPowJobListSize: nat, maxJobTarget: Hash, minJobBits: string)

  /** The fields guarded by the lock. */
  datatype Maker = Maker(
    currentAuxBlocks: Blocks,
    chainIDIndexSlots: SlotTable, merkleNonce: u32, merkleSize: u32,
    auxPowJobs: map<Hash, AuxPowJob>, auxPowJobIndex: seq<Hash>)

  function ChainIDs(blocks: Blocks): map<nat, u32> {
    map index | index in blocks :: blocks[index].chainID
  }

  function BlockAt(blocks: Blocks, index: nat): AuxBlockInfo {
    if index in blocks then blocks[index] else NO_BLOCK
  }

  /** The slot in which a chain's block hash is committed. */
  function SlotOf(block: AuxBlockInfo, size: u32, nonce: u32): (slot: u32)
    requires size > 0
    ensures slot < size
  {
    GetChainSlot(block.chainID, size, nonce)
  }

  // ---- What a job is ----

  /** The leaves: every chain's hash in its own slot, zero hashes elsewhere, and no slot used twice. */
  ghost predicate IsLeafRow(row: seq<Hash>, blocks: Blocks, size: u32, nonce: u32)
    requires size > 0
  {
    && |row| == size
    && (forall i | i in blocks :: row[SlotOf(blocks[i], size, nonce)] == blocks[i].hash)
    && (forall i, j | i in blocks && j in blocks && i != j ::
          SlotOf(blocks[i], size, nonce) != SlotOf(blocks[j], size, nonce))
    && (forall s: u32 | s < size && (forall i | i in blocks :: SlotOf(blocks[i], size, nonce) != s) :: row[s] == ZERO)
  }

  /** `top` is the largest target of all chains, and `bits` the compact form of a chain that has it. */
  ghost predicate IsTopTarget(blocks: Blocks, top: Hash, bits: string) {
    && (forall i | i in blocks :: Value(blocks[i].target) <= Value(top))
    && (exists i :: i in blocks && blocks[i].target == top)
    && (|| (exists i :: i in blocks && blocks[i].target == top && blocks[i].bits == bits)
        || (0 !in blocks && top == ZERO && bits == ""))
  }

  /** The job's target: the largest target of all chains, but never above the configured cap. */
  ghost predicate IsJobTarget(config: Config, blocks: Blocks, job: AuxPowJob) {
    exists top: Hash, bits: string :: IsTopTarget(blocks, top, bits) &&
      if Value(top) > Value(config.maxJobTarget)
      then job.maxTarget == config.maxJobTarget && job.minBits == config.minJobBits
      else job.maxTarget == top && job.minBits == bits
  }

  /** Every chain's entry: its own hash and target, and its leaf's path. */
  ghost predicate HasAuxPows(join: Join, job: AuxPowJob, blocks: Blocks, row: seq<Hash>, k: nat)
    requires job.merkleSize == Pow2(k) == |row|
  {
    && job.auxPows.Keys == blocks.Keys
    && forall i | i in blocks ::
         job.auxPows[i] == AuxPowInfo(
           blocks[i].height, blocks[i].hash, blocks[i].target,
           MerklePathForLeaf(join, row, SlotOf(blocks[i], job.merkleSize, job.merkleNonce), k))
  }

  /** The job's root and branches are those of the tree over `row`. */
  ghost predicate HasTree(join: Join, job: AuxPowJob, blocks: Blocks, row: seq<Hash>, k: nat) {
    && k <= 31 && job.merkleSize == Pow2(k)
    && IsLeafRow(row, blocks, job.merkleSize, job.merkleNonce)
    && job.merkleRoot == MerkleRoot(join, row, k)
    && HasAuxPows(join, job, blocks, row, k)
  }

  /** `job` commits to exactly these blocks. */
  ghost predicate JobBuiltFrom(config: Config, job: AuxPowJob, blocks: Blocks) {
    && IsJobTarget(config, blocks, job)
    && (exists row: seq<Hash>, k: nat :: HasTree(config.join, job, blocks, row, k))
    && job.prevBlockHash == BlockAt(blocks, 0).prevBlockHash
    && job.height == BlockAt(blocks, 0).height
    && job.coinbaseValue == BlockAt(blocks, 0).coinbaseValue
  }

  /** A chain's branch: from the slot with the given number, its hash folds to `root`. */
  ghost predicate FoldsFromSlot(join: Join, auxPow: AuxPowInfo, root: Hash, slot: nat, k: nat) {
    && |auxPow.blockchainBranch| == k
    && FoldSides(join, auxPow.hash, Hashes(auxPow.blockchainBranch), PathSides(auxPow.blockchainBranch)) == root
    && forall j | 0 <= j < k :: auxPow.blockchainBranch[j].useFirstInConcatenation == Bit(slot, j)
  }

  /** What every job promises the chains whose blocks it was built from. */
  ghost predicate Commits(join: Join, job: AuxPowJob, blocks: Blocks, k: nat) {
    && k <= 31 && job.merkleSize == Pow2(k)
    && job.auxPows.Keys == blocks.Keys
    && forall i | i in blocks :: CommitsToChain(join, job, i, blocks[i], k)
  }

  /** Chain `i`'s entry has its block hash and target, and folds from the slot of its ID to the root. */
  ghost predicate CommitsToChain(join: Join, job: AuxPowJob, i: nat, block: AuxBlockInfo, k: nat) {
    && i in job.auxPows && job.merkleSize > 0
    && job.auxPows[i].hash == block.hash && job.auxPows[i].target == block.target
    && job.auxPows[i].height == block.height
    && GetChainSlot(block.chainID, job.merkleSize, job.merkleNonce) < Pow2(k)
    && FoldsFromSlot(join, job.auxPows[i], job.merkleRoot,
                     GetChainSlot(block.chainID, job.merkleSize, job.merkleNonce), k)
  }

  lemma JobCommits(config: Config, job: AuxPowJob, blocks: Blocks) returns (k: nat)
    requires JobBuiltFrom(config, job, blocks)
    ensures Commits(config.join, job, blocks, k)
  {
    hide MerkleRoot, MerklePathForLeaf, FoldsFromSlot, GetChainSlot, IsJobTarget;
    var row: seq<Hash>, k': nat :| HasTree(config.join, job, blocks, row, k');
    k := k';
    forall i | i in blocks ensures CommitsToChain(config.join, job, i, blocks[i], k) {
      LeafFolds(config.join, row, SlotOf(blocks[i], job.merkleSize, job.merkleNonce), k, job.auxPows[i]);
    }
  }

  lemma LeafFolds(join: Join, row: seq<Hash>, slot: nat, k: nat, auxPow: AuxPowInfo)
    requires |row| == Pow2(k) && slot < |row|
    requires auxPow.hash == row[slot] && auxPow.blockchainBranch == MerklePathForLeaf(join, row, slot, k)
    ensures FoldsFromSlot(join, auxPow, MerkleRoot(join, row, k), slot, k)
  {
    PathFoldsToRoot(join, row, slot, k);
    PathSidesAreSlotBits(join, row, slot, k);
  }

  // ---- The locked steps, as functions and relations on the guarded fields ----

  /** `updateAuxBlock`: a new chain, or one whose ID changed, drops the slot table. */
  function Updated(s: Maker, index: nat, info: AuxBlockInfo): Maker {
    var keep := index in s.currentAuxBlocks && s.currentAuxBlocks[index].chainID == info.chainID;
    s.(currentAuxBlocks := s.currentAuxBlocks[index := info],
       chainIDIndexSlots := if keep then s.chainIDIndexSlots else Nil)
  }

  /** The slot table, when there is one, fits the current chains and the stored nonce and size. */
  ghost predicate SlotsConsistent(s: Maker) {
    s.chainIDIndexSlots.Table? ==>
      && IsSlotTable(ChainIDs(s.currentAuxBlocks), s.merkleNonce, s.merkleSize, s.chainIDIndexSlots.slots)
      && exists k: nat :: LeastSeparatingExponent(ChainIDs(s.currentAuxBlocks), k) && s.merkleSize == Pow2(k)
  }

  /** `makeAuxJob` when it succeeds: at most the slot table with its nonce and size changes, and only if it was nil. */
  ghost predicate MakesJob(config: Config, s: Maker, s': Maker, job: AuxPowJob) {
    && s.currentAuxBlocks != map[]
    && s' == s.(chainIDIndexSlots := s'.chainIDIndexSlots, merkleNonce := s'.merkleNonce, merkleSize := s'.merkleSize)
    && (s.chainIDIndexSlots.Table? ==> s' == s)
    && s'.chainIDIndexSlots.Table? && SlotsConsistent(s')
    && job.merkleNonce == s'.merkleNonce && job.merkleSize == s'.merkleSize
    && JobBuiltFrom(config, job, s.currentAuxBlocks)
  }

  /** The second half of `GetAuxJob`: remembers a job under its root, and forgets the oldest one beyond the limit. */
  function Stored(config: Config, s: Maker, job: AuxPowJob): Maker {
    if job.merkleRoot in s.auxPowJobs then s
    else
      var jobs := s.auxPowJobs[job.merkleRoot := job];
      var index := s.auxPowJobIndex + [job.merkleRoot];
      if |index| > config.auxPowJobListSize then s.(auxPowJobs := jobs - {index[0]}, auxPowJobIndex := index[1..])
      else s.(auxPowJobs := jobs, auxPowJobIndex := index)
  }

  ghost predicate JobSound(config: Config, job: AuxPowJob) {
    exists blocks :: JobBuiltFrom(config, job, blocks)
  }

  predicate Distinct(index: seq<Hash>) {
    forall i, j | 0 <= i < j < |index| :: index[i] != index[j]
  }

  ghost predicate SameElements(index: seq<Hash>, roots: set<Hash>) {
    forall root :: root in index <==> root in roots
  }

  /**
    The index lists the cached roots, each once, and the cache is within its limit and files every
    job under its root.
  */
  ghost predicate CacheConsistent(config: Config, s: Maker) {
    && |s.auxPowJobIndex| <= config.auxPowJobListSize
    && Distinct(s.auxPowJobIndex)
    && SameElements(s.auxPowJobIndex, s.auxPowJobs.Keys)
    && (forall root | root in s.auxPowJobs ::
          s.auxPowJobs[root].merkleRoot == root && JobSound(config, s.auxPowJobs[root]))
  }

  // ---- Every step keeps the tables consistent ----

  lemma UpdatedKeepsSlots(s: Maker, index: nat, info: AuxBlockInfo)
    requires SlotsConsistent(s)
    ensures SlotsConsistent(Updated(s, index, info))
  {
    var s' := Updated(s, index, info);
    if s'.chainIDIndexSlots.Table? {
      assert ChainIDs(s'.currentAuxBlocks) == ChainIDs(s.currentAuxBlocks);
    }
  }

  lemma StoredKeepsCache(config: Config, s: Maker, job: AuxPowJob)
    requires CacheConsistent(config, s) && JobSound(config, job)
    ensures CacheConsistent(config, Stored(config, s, job))
  {
    hide JobSound, Distinct, SameElements;
    var root, index := job.merkleRoot, s.auxPowJobIndex;
    if root !in s.auxPowJobs {
      Pushed(index, s.auxPowJobs.Keys, root);
      var jobs := s.auxPowJobs[root := job];
      assert jobs.Keys == s.auxPowJobs.Keys + {root};
      if |index| + 1 > config.auxPowJobListSize {
        var oldest := (index + [root])[0];
        Dropped(index + [root], jobs.Keys);
        assert (jobs - {oldest}).Keys == jobs.Keys - {oldest};
      }
    }
  }

  lemma Pushed(index: seq<Hash>, roots: set<Hash>, root: Hash)
    requires Distinct(index) && SameElements(index, roots) && root !in roots
    ensures Distinct(index + [root]) && SameElements(index + [root], roots + {root})
  {
  }

  lemma Dropped(index: seq<Hash>, roots: set<Hash>)
    requires Distinct(index) && SameElements(index, roots) && index != []
    ensures Distinct(index[1..]) && SameElements(index[1..], roots - {index[0]})
  {
    assert index == [index[0]] + index[1..];
  }

  // ---- Runs ----

  /**
    The maker together with the jobs that have been built but not yet cached (the two halves of `GetAuxJob` lock
    separately, so other steps come in between), and the roots ever inserted into the cache, in order.
  */
  datatype System = System(maker: Maker, inFlight: seq<AuxPowJob>, inserted: seq<Hash>)

  ghost predicate Init(s: System) {
    && s.maker.currentAuxBlocks == map[] && s.maker.chainIDIndexSlots == Nil
    && s.maker.auxPowJobs == map[] && s.maker.auxPowJobIndex == []
    && s.inFlight == [] && s.inserted == []
  }

  ghost predicate UpdateStep(s: System, s': System) {
    exists index, info :: s' == s.(maker := Updated(s.maker, index, info))
  }

  ghost predicate MakeStep(config: Config, s: System, s': System) {
    exists job :: MakesJob(config, s.maker, s'.maker, job)
      && s'.inFlight == s.inFlight + [job] && s'.inserted == s.inserted
  }

  /** Some job in flight reaches the second half of `GetAuxJob`. */
  ghost predicate StoreStep(config: Config, s: System, s': System) {
    exists i | 0 <= i < |s.inFlight| :: s' == AfterStore(config, s, i)
  }

  function AfterStore(config: Config, s: System, i: nat): System
    requires i < |s.inFlight|
  {
    var job := s.inFlight[i];
    System(Stored(config, s.maker, job),
           s.inFlight[..i] + s.inFlight[i + 1..],
           if job.merkleRoot in s.maker.auxPowJobs then s.inserted else s.inserted + [job.merkleRoot])
  }

  ghost predicate Next(config: Config, s: System, s': System) {
    UpdateStep(s, s') || MakeStep(config, s, s') || StoreStep(config, s, s')
  }

  ghost predicate IsRun(config: Config, run: seq<System>) {
    && run != [] && Init(run[0])
    && forall i | 0 <= i < |run| - 1 :: Next(config, run[i], run[i + 1])
  }

  /** The last `n` elements, or all when there are fewer. */
  function Recent(inserted: seq<Hash>, n: nat): seq<Hash> {
    if |inserted| <= n then inserted else inserted[|inserted| - n..]
  }

  ghost predicate Inv(config: Config, s: System) {
    && SlotsConsistent(s.maker)
    && CacheConsistent(config, s.maker)
    && s.maker.auxPowJobIndex == Recent(s.inserted, config.auxPowJobListSize)
    && (forall i | 0 <= i < |s.inFlight| :: JobSound(config, s.inFlight[i]))
  }

  lemma RecentPush(inserted: seq<Hash>, n: nat, root: Hash)
    ensures var pushed := Recent(inserted, n) + [root];
            Recent(inserted + [root], n) == if |pushed| > n then pushed[1..] else pushed
  {
  }

  lemma StoreKeepsInv(config: Config, s: System, i: nat)
    requires Inv(config, s) && i < |s.inFlight|
    ensures Inv(config, AfterStore(config, s, i))
  {
    var job := s.inFlight[i];
    hide JobSound, SlotsConsistent, CacheConsistent, Recent, Stored;
    StoredKeepsCache(config, s.maker, job);
    StoredKeepsSlots(config, s.maker, job);
    StoredIndex(config, s.maker, job);
    RecentPush(s.inserted, config.auxPowJobListSize, job.merkleRoot);
    RestStaysSound(config, s.inFlight, i);
  }

  lemma RestStaysSound(config: Config, jobs: seq<AuxPowJob>, i: nat)
    requires i < |jobs| && forall j | 0 <= j < |jobs| :: JobSound(config, jobs[j])
    ensures var rest := jobs[..i] + jobs[i + 1..]; forall j | 0 <= j < |rest| :: JobSound(config, rest[j])
  {
    hide JobSound;
  }

  lemma StoredIndex(config: Config, s: Maker, job: AuxPowJob)
    requires CacheConsistent(config, s)
    ensures var pushed := s.auxPowJobIndex + [job.merkleRoot];
            Stored(config, s, job).auxPowJobIndex ==
            if job.merkleRoot in s.auxPowJobs then s.auxPowJobIndex
            else if |pushed| > config.auxPowJobListSize then pushed[1..]
            else pushed
  {
    hide CacheConsistent;
  }

  lemma StoredKeepsSlots(config: Config, s: Maker, job: AuxPowJob)
    requires SlotsConsistent(s)
    ensures SlotsConsistent(Stored(config, s, job))
  {
  }

  lemma NextKeepsInv(config: Config, s: System, s': System)
    requires Inv(config, s) && Next(config, s, s')
    ensures Inv(config, s')
  {
    hide CacheConsistent, SlotsConsistent, JobSound, JobBuiltFrom, Recent, Updated, AfterStore;
    if UpdateStep(s, s') {
      var index, info :| s' == s.(maker := Updated(s.maker, index, info));
      UpdatedKeepsSlots(s.maker, index, info);
      UpdatedKeepsCache(config, s.maker, index, info);
    } else if MakeStep(config, s, s') {
      var job :| MakesJob(config, s.maker, s'.maker, job)
        && s'.inFlight == s.inFlight + [job] && s'.inserted == s.inserted;
      MadeKeepsCache(config, s.maker, s'.maker, job);
    } else {
      var i :| 0 <= i < |s.inFlight| && s' == AfterStore(config, s, i);
      StoreKeepsInv(config, s, i);
    }
  }

  lemma UpdatedKeepsCache(config: Config, s: Maker, index: nat, info: AuxBlockInfo)
    requires CacheConsistent(config, s)
    ensures CacheConsistent(config, Updated(s, index, info))
    ensures Updated(s, index, info).auxPowJobIndex == s.auxPowJobIndex
  {
  }

  lemma MadeKeepsCache(config: Config, s: Maker, s': Maker, job: AuxPowJob)
    requires CacheConsistent(config, s) && MakesJob(config, s, s', job)
    ensures CacheConsistent(config, s') && s'.auxPowJobIndex == s.auxPowJobIndex && JobSound(config, job)
  {
    hide JobBuiltFrom;
  }

  /** The job waits to be cached, or is cached. */
  predicate HasJob(s: System, job: AuxPowJob) {
    job in s.inFlight || exists root :: root in s.maker.auxPowJobs && s.maker.auxPowJobs[root] == job
  }

  /** The `m`-th step of the run made the job, from the blocks that were current then. */
  ghost predicate MadeAt(config: Config, run: seq<System>, m: nat, job: AuxPowJob) {
    m + 1 < |run| && MakesJob(config, run[m].maker, run[m + 1].maker, job)
  }

  /** A step brings no job but the one it makes, from the blocks of the state it starts in. */
  lemma JobOrigin(config: Config, s: System, s': System, job: AuxPowJob)
    requires Next(config, s, s') && HasJob(s', job) && !HasJob(s, job)
    ensures MakesJob(config, s.maker, s'.maker, job)
  {
    hide MakesJob, SlotsConsistent;
    if MakeStep(config, s, s') {
      var made :| MakesJob(config, s.maker, s'.maker, made)
        && s'.inFlight == s.inFlight + [made] && s'.inserted == s.inserted;
      MakingKeepsCache(config, s.maker, s'.maker, made);
    }
  }

  lemma MakingKeepsCache(config: Config, s: Maker, s': Maker, job: AuxPowJob)
    requires MakesJob(config, s, s', job)
    ensures s'.auxPowJobs == s.auxPowJobs
  {
  }

  /** Every job of every state of every run was made by an earlier step of it. */
  lemma {:induction false} JobWasMade(config: Config, run: seq<System>, n: nat, job: AuxPowJob) returns (m: nat)
    requires IsRun(config, run) && n < |run| && HasJob(run[n], job)
    ensures m < n && MadeAt(config, run, m, job)
  {
    assert n > 0;
    m := n - 1;
    assert Next(config, run[m], run[m + 1]);
    hide Next, MakesJob;
    if HasJob(run[m], job) {
      m := JobWasMade(config, run, m, job);
    } else {
      JobOrigin(config, run[m], run[m + 1], job);
    }
  }

  /**
    The target of a cached job is the lower of the configured cap and the highest target that a chain had reported when
    the job was made, with the bits that belong to it; what else the job says is what chain 0 had reported, or zero.
  */
  lemma CachedJobFields(config: Config, run: seq<System>, n: nat, root: Hash) returns (m: nat)
    requires IsRun(config, run) && n < |run| && root in run[n].maker.auxPowJobs
    ensures m < n && MadeAt(config, run, m, run[n].maker.auxPowJobs[root])
    ensures TargetIsCapped(config, run[n].maker.auxPowJobs[root], run[m].maker.currentAuxBlocks)
    ensures FieldsOfFirst(run[n].maker.auxPowJobs[root], run[m].maker.currentAuxBlocks)
  {
    var job := run[n].maker.auxPowJobs[root];
    m := JobWasMade(config, run, n, job);
    hide IsRun, HasJob;
    JobFields(config, job, run[m].maker.currentAuxBlocks);
  }

  ghost predicate TargetIsCapped(config: Config, job: AuxPowJob, blocks: Blocks) {
    && Value(job.maxTarget) <= Value(config.maxJobTarget)
    && (forall i | i in blocks && Value(blocks[i].target) <= Value(config.maxJobTarget) ::
          Value(blocks[i].target) <= Value(job.maxTarget))
    && (if exists i :: i in blocks && Value(blocks[i].target) > Value(config.maxJobTarget)
        then job.maxTarget == config.maxJobTarget && job.minBits == config.minJobBits
        else && (exists i :: i in blocks && blocks[i].target == job.maxTarget)
             && (|| (exists i :: i in blocks && blocks[i].target == job.maxTarget && blocks[i].bits == job.minBits)
                 || (0 !in blocks && job.maxTarget == ZERO && job.minBits == "")))
  }

  predicate FieldsOfFirst(job: AuxPowJob, blocks: Blocks) {
    if 0 in blocks
    then job.prevBlockHash == blocks[0].prevBlockHash && job.height == blocks[0].height
         && job.coinbaseValue == blocks[0].coinbaseValue
    else job.prevBlockHash == Zeros(32) && job.height == 0 && job.coinbaseValue == 0
  }

  lemma JobFields(config: Config, job: AuxPowJob, blocks: Blocks)
    requires JobBuiltFrom(config, job, blocks)
    ensures TargetIsCapped(config, job, blocks) && FieldsOfFirst(job, blocks)
  {
    hide Value, HasTree;
    var top: Hash, bits: string :| IsTopTarget(blocks, top, bits) &&
      if Value(top) > Value(config.maxJobTarget)
      then job.maxTarget == config.maxJobTarget && job.minBits == config.minJobBits
      else job.maxTarget == top && job.minBits == bits;
  }

  /** From state `i` to state `j` no chain appears and none changes its ID. */
  ghost predicate SameChains(run: seq<System>, i: nat, j: nat)
    requires i <= j < |run|
  {
    forall v: nat | i <= v <= j :: ChainIDs(run[v].maker.currentAuxBlocks) == ChainIDs(run[i].maker.currentAuxBlocks)
  }

  predicate SameSlots(s: Maker, t: Maker) {
    s.chainIDIndexSlots == t.chainIDIndexSlots && s.merkleNonce == t.merkleNonce && s.merkleSize == t.merkleSize
  }

  lemma StepKeepsSlots(config: Config, s: System, t: System)
    requires Next(config, s, t) && s.maker.chainIDIndexSlots.Table?
    requires ChainIDs(t.maker.currentAuxBlocks) == ChainIDs(s.maker.currentAuxBlocks)
    ensures SameSlots(s.maker, t.maker)
  {
    hide SlotsConsistent, JobBuiltFrom;
    if UpdateStep(s, t) {
      var index, info :| t == s.(maker := Updated(s.maker, index, info));
      assert index in ChainIDs(t.maker.currentAuxBlocks);
      assert ChainIDs(t.maker.currentAuxBlocks)[index] == info.chainID;
      assert s.maker.currentAuxBlocks[index].chainID == info.chainID;
    }
  }

  /** A slot table survives every step while no chain appears and none changes its ID. */
  lemma {:induction false} SlotsSurvive(config: Config, run: seq<System>, i: nat, j: nat)
    requires IsRun(config, run) && i <= j < |run| && run[i].maker.chainIDIndexSlots.Table? && SameChains(run, i, j)
    ensures SameSlots(run[i].maker, run[j].maker)
  {
    if i < j {
      assert Next(config, run[j - 1], run[j - 1 + 1]);
      hide Next, ChainIDs;
      SlotsSurvive(config, run, i, j - 1);
      StepKeepsSlots(config, run[j - 1], run[j]);
    }
  }

  /** Jobs made while the chains stay the same have the same nonce, size and slots. */
  lemma JobsShareSlots(config: Config, run: seq<System>, m: nat, n: nat, a: AuxPowJob, b: AuxPowJob)
    requires IsRun(config, run) && m < n && MadeAt(config, run, m, a) && MadeAt(config, run, n, b)
    requires SameChains(run, m + 1, n)
    ensures a.merkleNonce == b.merkleNonce && a.merkleSize == b.merkleSize
    ensures SameSlots(run[m + 1].maker, run[n + 1].maker)
  {
    hide JobBuiltFrom, SlotsConsistent, SameChains, IsRun;
    SlotsSurvive(config, run, m + 1, n);
  }

  /** The job found under a root stays the same one for as long as the root is cached. */
  lemma {:induction false} CachedJobStays(config: Config, run: seq<System>, m: nat, n: nat, root: Hash)
    requires IsRun(config, run) && m <= n < |run|
    requires forall i | m <= i <= n :: root in run[i].maker.auxPowJobs
    ensures run[n].maker.auxPowJobs[root] == run[m].maker.auxPowJobs[root]
  {
    hide Next, IsRun;
    if m < n {
      NextInRun(config, run, n - 1);
      CachedJobStays(config, run, m, n - 1, root);
      StepKeepsJob(config, run[n - 1], run[n], root);
    }
  }

  lemma NextInRun(config: Config, run: seq<System>, i: nat)
    requires IsRun(config, run) && i + 1 < |run|
    ensures Next(config, run[i], run[i + 1])
  {
    hide Next;
  }

  lemma StepKeepsJob(config: Config, s: System, t: System, root: Hash)
    requires Next(config, s, t) && root in s.maker.auxPowJobs && root in t.maker.auxPowJobs
    ensures t.maker.auxPowJobs[root] == s.maker.auxPowJobs[root]
  {
    hide MakesJob, Stored;
    if MakeStep(config, s, t) {
      var job :| MakesJob(config, s.maker, t.maker, job)
        && t.inFlight == s.inFlight + [job] && t.inserted == s.inserted;
      MakingKeepsCache(config, s.maker, t.maker, job);
    } else if StoreStep(config, s, t) {
      var i :| 0 <= i < |s.inFlight| && t == AfterStore(config, s, i);
      StoringKeepsJobs(config, s.maker, s.inFlight[i], root);
    }
  }

  lemma StoringKeepsJobs(config: Config, s: Maker, job: AuxPowJob, root: Hash)
    requires root in s.auxPowJobs && root in Stored(config, s, job).auxPowJobs
    ensures Stored(config, s, job).auxPowJobs[root] == s.auxPowJobs[root]
  {
  }

  /** Every job in flight or cached was made by an earlier step, from the blocks that were current then. */
  ghost predicate Traced(config: Config, run: seq<System>, n: nat)
    requires n < |run|
  {
    forall job | HasJob(run[n], job) :: exists m: nat :: m < n && MadeAt(config, run, m, job)
  }

  /**
    Every state of every run is consistent, its cache holds exactly the most recent insertions up to the limit, and
    every job in it was made in the run.
  */
  lemma {:induction false} RunKeepsInv(config: Config, run: seq<System>, n: nat)
    requires IsRun(config, run) && n < |run|
    ensures Inv(config, run[n]) && Traced(config, run, n)
  {
    forall job | HasJob(run[n], job) ensures exists m: nat :: m < n && MadeAt(config, run, m, job) {
      var m := JobWasMade(config, run, n, job);
    }
    if n > 0 {
      RunKeepsInv(config, run, n - 1);
      NextKeepsInv(config, run[n - 1], run[n - 1 + 1]);
    }
  }

  /** In the `v`-th state of the run the block is the current one of chain `i`. */
  predicate Current(run: seq<System>, v: nat, i: nat, block: AuxBlockInfo) {
    v < |run| && i in run[v].maker.currentAuxBlocks && run[v].maker.currentAuxBlocks[i] == block
  }

  /** The `u`-th step is the update that brought the block. */
  ghost predicate Reported(run: seq<System>, u: nat, i: nat, block: AuxBlockInfo) {
    u + 1 < |run| && run[u + 1].maker == Updated(run[u].maker, i, block)
  }

  ghost predicate CurrentSince(run: seq<System>, u: nat, m: nat, i: nat, block: AuxBlockInfo) {
    forall v: nat | u < v <= m :: Current(run, v, i, block)
  }

  lemma CurrentForOne(config: Config, run: seq<System>, m: nat, i: nat, block: AuxBlockInfo)
    requires IsRun(config, run) && Current(run, m, i, block)
    ensures m > 0
    ensures Current(run, m - 1, i, block) || (Reported(run, m - 1, i, block) && CurrentSince(run, m - 1, m, i, block))
  {
    assert m > 0;
    assert Next(config, run[m - 1], run[m - 1 + 1]);
    BlocksChangeByUpdate(config, run[m - 1], run[m], i);
    hide IsRun, Next, Updated;
  }

  /** A current block is one that its chain reported, and its chain has reported no other since. */
  lemma {:induction false} BlockWasReported(config: Config, run: seq<System>, m: nat, i: nat, block: AuxBlockInfo)
    returns (u: nat)
    requires IsRun(config, run) && Current(run, m, i, block)
    ensures u < m && Reported(run, u, i, block) && CurrentSince(run, u, m, i, block)
  {
    hide *;
    CurrentForOne(config, run, m, i, block);
    if Current(run, m - 1, i, block) {
      u := BlockWasReported(config, run, m - 1, i, block);
      CurrentStill(run, u, m, i, block);
    } else {
      u := m - 1;
    }
  }

  lemma CurrentStill(run: seq<System>, u: nat, m: nat, i: nat, block: AuxBlockInfo)
    requires m > 0 && CurrentSince(run, u, m - 1, i, block) && Current(run, m, i, block)
    ensures CurrentSince(run, u, m, i, block)
  {
    hide Current;
  }

  lemma BlocksChangeByUpdate(config: Config, s: System, t: System, i: nat)
    requires Next(config, s, t) && i in t.maker.currentAuxBlocks
    ensures || (i in s.maker.currentAuxBlocks && s.maker.currentAuxBlocks[i] == t.maker.currentAuxBlocks[i])
            || t.maker == Updated(s.maker, i, t.maker.currentAuxBlocks[i])
  {
    hide SlotsConsistent, JobBuiltFrom;
  }

  /**
    Every cached job was made by an earlier step: it holds an entry for exactly the chains that were current then, with
    the block hash that each of them had reported, folding from the slot of that chain's own ID to the job's root.
  */
  lemma CachedJobCommits(config: Config, run: seq<System>, n: nat, root: Hash) returns (m: nat, k: nat)
    requires IsRun(config, run) && n < |run| && root in run[n].maker.auxPowJobs
    ensures m < n && MadeAt(config, run, m, run[n].maker.auxPowJobs[root])
    ensures run[n].maker.auxPowJobs[root].merkleRoot == root
    ensures Commits(config.join, run[n].maker.auxPowJobs[root], run[m].maker.currentAuxBlocks, k)
  {
    var job := run[n].maker.auxPowJobs[root];
    RunKeepsInv(config, run, n);
    m := JobWasMade(config, run, n, job);
    hide Inv, IsRun, HasJob;
    k := JobCommits(config, job, run[m].maker.currentAuxBlocks);
  }

  /**
    In every state of every run, a slot lookup made while a job is built finds an entry, and no
    two chains share one.
  */
  lemma RunSlotsAreTotalAndInjective(config: Config, run: seq<System>, n: nat)
    requires IsRun(config, run) && n < |run| && run[n].maker.chainIDIndexSlots.Table?
    ensures var s := run[n].maker; var slots := s.chainIDIndexSlots.slots;
            && slots.Keys == ChainIDs(s.currentAuxBlocks).Values
            && (forall i | i in s.currentAuxBlocks ::
                  s.currentAuxBlocks[i].chainID in slots && slots[s.currentAuxBlocks[i].chainID] < s.merkleSize)
            && (forall i, j | i in s.currentAuxBlocks && j in s.currentAuxBlocks && i != j ::
                  slots[s.currentAuxBlocks[i].chainID] != slots[s.currentAuxBlocks[j].chainID])
  {
    RunKeepsInv(config, run, n);
    SlotsTotalAndInjective(run[n].maker);
  }

  lemma SlotsTotalAndInjective(s: Maker)
    requires SlotsConsistent(s) && s.chainIDIndexSlots.Table?
    ensures s.merkleSize > 0
    ensures forall i | i in s.currentAuxBlocks ::
              && s.currentAuxBlocks[i].chainID in s.chainIDIndexSlots.slots
              && s.chainIDIndexSlots.slots[s.currentAuxBlocks[i].chainID] ==
                 SlotOf(s.currentAuxBlocks[i], s.merkleSize, s.merkleNonce)
    ensures forall i, j | i in s.currentAuxBlocks && j in s.currentAuxBlocks && i != j ::
              SlotOf(s.currentAuxBlocks[i], s.merkleSize, s.merkleNonce) !=
              SlotOf(s.currentAuxBlocks[j], s.merkleSize, s.merkleNonce)
  {
    var ids := ChainIDs(s.currentAuxBlocks);
    var k: nat :| LeastSeparatingExponent(ids, k) && s.merkleSize == Pow2(k);
    hide GetChainSlot, Pow2;
    forall i | i in s.currentAuxBlocks ensures s.currentAuxBlocks[i].chainID in s.chainIDIndexSlots.slots {
      assert ids[i] in ids.Values;
    }
    forall i, j | i in s.currentAuxBlocks && j in s.currentAuxBlocks && i != j
      ensures SlotOf(s.currentAuxBlocks[i], s.merkleSize, s.merkleNonce) !=
              SlotOf(s.currentAuxBlocks[j], s.merkleSize, s.merkleNonce)
    {
      SlotsCollideIff(ids[i], ids[j], k, s.merkleSize, s.merkleNonce);
      assert ids[i] % Pow2(k) != ids[j] % Pow2(k);
    }
  }

  // ---- Building a job ----

  /**
    Every chain has an entry in the slot table, which is the slot the formula gives it, and no two
    chains share one.
  */
  ghost predicate SlotsFit(blocks: Blocks, slots: map<u32, u32>, size: u32, nonce: u32) {
    && size > 0
    && (forall i | i in blocks ::
          blocks[i].chainID in slots && slots[blocks[i].chainID] == SlotOf(blocks[i], size, nonce))
    && (forall i, j | i in blocks && j in blocks && i != j ::
          SlotOf(blocks[i], size, nonce) != SlotOf(blocks[j], size, nonce))
  }

  ghost predicate LeavesSoFar(row: seq<Hash>, blocks: Blocks, visited: set<nat>, size: u32, nonce: u32) {
    && size > 0 && |row| == size && visited <= blocks.Keys
    && (forall i | i in visited :: row[SlotOf(blocks[i], size, nonce)] == blocks[i].hash)
    && (forall s: u32 | s < size && (forall i | i in visited :: SlotOf(blocks[i], size, nonce) != s) :: row[s] == ZERO)
  }

  ghost predicate TopSoFar(blocks: Blocks, visited: set<nat>, top: Hash, bits: string) {
    && visited <= blocks.Keys
    && (forall i | i in visited :: Value(blocks[i].target) <= Value(top))
    && (|| (exists i :: i in visited && blocks[i].target == top && blocks[i].bits == bits)
        || (top == BlockAt(blocks, 0).target && bits == BlockAt(blocks, 0).bits))
  }

  lemma SetLeaf(row: seq<Hash>, blocks: Blocks, slots: map<u32, u32>, visited: set<nat>, size: u32, nonce: u32, i: nat)
    requires SlotsFit(blocks, slots, size, nonce) && LeavesSoFar(row, blocks, visited, size, nonce)
    requires i in blocks && i !in visited
    ensures LeavesSoFar(row[SlotOf(blocks[i], size, nonce) := blocks[i].hash], blocks, visited + {i}, size, nonce)
  {
    hide GetChainSlot;
    var slot := SlotOf(blocks[i], size, nonce);
    var row' := row[slot := blocks[i].hash];
    forall s: u32 | s < size && (forall j | j in visited + {i} :: SlotOf(blocks[j], size, nonce) != s)
      ensures row'[s] == ZERO
    {
      assert i in visited + {i};
      assert forall j | j in visited :: j in visited + {i};
    }
  }

  lemma RaiseTop(blocks: Blocks, visited: set<nat>, top: Hash, bits: string, i: nat)
    requires TopSoFar(blocks, visited, top, bits) && i in blocks
    ensures if StringLeq(Hex(blocks[i].target), Hex(top)) then TopSoFar(blocks, visited + {i}, top, bits)
            else TopSoFar(blocks, visited + {i}, blocks[i].target, blocks[i].bits)
  {
    hide Hex, StringLeq, Value;
    HexOrder(blocks[i].target, top);
    assert i in visited + {i};
    assert forall j | j in visited :: j in visited + {i};
  }

  lemma {:induction false} ZeroValue(n: nat)
    ensures Value(Zeros(n)) == 0
  {
    if n > 0 {
      ZeroValue(n - 1);
      assert Zeros(n)[1..] == Zeros(n - 1);
    }
  }

  lemma TopFound(blocks: Blocks, top: Hash, bits: string)
    requires blocks != map[] && TopSoFar(blocks, blocks.Keys, top, bits)
    ensures IsTopTarget(blocks, top, bits)
  {
    hide Value;
    if !exists i :: i in blocks && blocks[i].target == top && blocks[i].bits == bits {
      if 0 !in blocks {
        var i :| i in blocks;
        ZeroValue(32);
        assert Value(blocks[i].target) == Value(top);
        ValueInjective(blocks[i].target, top);
      }
    }
  }

  /** The first walk over the blocks: fills the leaves and finds the largest target by comparing hexadecimal texts. */
  method FillLeaves(blocks: Blocks, slots: map<u32, u32>, size: u32, ghost nonce: u32)
    returns (row: seq<Hash>, top: Hash, bits: string)
    requires blocks != map[] && SlotsFit(blocks, slots, size, nonce)
    ensures IsLeafRow(row, blocks, size, nonce) && IsTopTarget(blocks, top, bits)
  {
    hide GetChainSlot, LeavesSoFar, TopSoFar, IsTopTarget, Hex, StringLeq, Value;
    top, bits := BlockAt(blocks, 0).target, BlockAt(blocks, 0).bits;
    var bottomRow := new Hash[size](_ => ZERO);
    var remaining := blocks.Keys;
    NothingVisited(bottomRow[..], blocks, size, nonce, top, bits);
    while remaining != {}
      invariant remaining <= blocks.Keys
      invariant LeavesSoFar(bottomRow[..], blocks, blocks.Keys - remaining, size, nonce)
      invariant TopSoFar(blocks, blocks.Keys - remaining, top, bits)
      decreases remaining
    {
      var index :| index in remaining;
      var block := blocks[index];
      SetLeaf(bottomRow[..], blocks, slots, blocks.Keys - remaining, size, nonce, index);
      RaiseTop(blocks, blocks.Keys - remaining, top, bits, index);
      assert blocks.Keys - (remaining - {index}) == (blocks.Keys - remaining) + {index};
      bottomRow[slots[block.chainID]] := block.hash;
      if !StringLeq(Hex(block.target), Hex(top)) {
        top, bits := block.target, block.bits;
      }
      remaining := remaining - {index};
    }
    assert blocks.Keys - remaining == blocks.Keys;
    row := bottomRow[..];
    AllVisited(row, blocks, slots, size, nonce);
    TopFound(blocks, top, bits);
  }

  lemma NothingVisited(row: seq<Hash>, blocks: Blocks, size: u32, nonce: u32, top: Hash, bits: string)
    requires size > 0 && |row| == size && forall s | 0 <= s < size :: row[s] == ZERO
    requires top == BlockAt(blocks, 0).target && bits == BlockAt(blocks, 0).bits
    ensures LeavesSoFar(row, blocks, blocks.Keys - blocks.Keys, size, nonce)
    ensures TopSoFar(blocks, blocks.Keys - blocks.Keys, top, bits)
  {
  }

  lemma AllVisited(row: seq<Hash>, blocks: Blocks, slots: map<u32, u32>, size: u32, nonce: u32)
    requires SlotsFit(blocks, slots, size, nonce) && LeavesSoFar(row, blocks, blocks.Keys, size, nonce)
    ensures IsLeafRow(row, blocks, size, nonce)
  {
    hide GetChainSlot;
  }

  lemma {:induction false} CeilLog2OfPower(n: nat, k: nat, from: nat)
    requires n == Pow2(k) && from <= k
    ensures CeilLog2From(n, from) == k
    decreases k - from
  {
    if from < k {
      Pow2Strict(from, k);
      CeilLog2OfPower(n, k, from + 1);
    }
  }

  /** The second walk over the blocks: every chain's entry with its leaf's path. */
  method BuildAuxPows(
    join: Join, blocks: Blocks, slots: map<u32, u32>, row: seq<Hash>, size: u32, ghost nonce: u32, k: nat)
    returns (auxPows: map<nat, AuxPowInfo>)
    requires SlotsFit(blocks, slots, size, nonce) && |row| == size == Pow2(k)
    ensures auxPows.Keys == blocks.Keys
    ensures forall i | i in blocks ::
              auxPows[i] == AuxPowInfo(blocks[i].height, blocks[i].hash, blocks[i].target,
                                       MerklePathForLeaf(join, row, SlotOf(blocks[i], size, nonce), k))
  {
    hide GetChainSlot, MerklePathForLeaf, Pow2;
    auxPows := map[];
    var remaining := blocks.Keys;
    while remaining != {}
      invariant remaining <= blocks.Keys
      invariant auxPows.Keys == blocks.Keys - remaining
      invariant forall i | i in auxPows ::
        auxPows[i] == AuxPowInfo(blocks[i].height, blocks[i].hash, blocks[i].target,
                                 MerklePathForLeaf(join, row, SlotOf(blocks[i], size, nonce), k))
      decreases remaining
    {
      var index :| index in remaining;
      var block := blocks[index];
      var slot := slots[block.chainID];
      auxPows := auxPows[index := AuxPowInfo(block.height, block.hash, block.target,
                                             MerklePathForLeaf(join, row, slot, k))];
      remaining := remaining - {index};
    }
  }

  /** Caps the target: the replacement is made when the top target's text is above the cap's. */
  lemma TargetCapped(config: Config, blocks: Blocks, job: AuxPowJob, top: Hash, bits: string)
    requires IsTopTarget(blocks, top, bits)
    requires if StringLeq(Hex(top), Hex(config.maxJobTarget)) then job.maxTarget == top && job.minBits == bits
             else job.maxTarget == config.maxJobTarget && job.minBits == config.minJobBits
    ensures IsJobTarget(config, blocks, job)
  {
    hide Hex, StringLeq, Value, IsTopTarget;
    HexOrder(top, config.maxJobTarget);
  }

  /** The height of the tree over `size` leaves. */
  method Levels(size: nat, ghost k: nat) returns (levels: nat)
    requires size == Pow2(k)
    ensures levels == k
  {
    CeilLog2OfPower(size, k, 0);
    levels := CeilLog2(size);
  }

  /** Builds the job for the given blocks from a slot table that fits them. */
  method BuildJob(config: Config, blocks: Blocks, slots: map<u32, u32>, size: u32, nonce: u32, ghost k: nat)
    returns (job: AuxPowJob)
    requires blocks != map[] && k <= 31 && size == Pow2(k) && SlotsFit(blocks, slots, size, nonce)
    ensures JobBuiltFrom(config, job, blocks) && job.merkleSize == size && job.merkleNonce == nonce
  {
    hide GetChainSlot, MerkleRoot, MerklePathForLeaf, IsTopTarget, Hex, StringLeq, Value, Pow2, IsJobTarget, SlotsFit;
    var levels := Levels(size, k);
    var row, top, bits := FillLeaves(blocks, slots, size, nonce);
    assert |row| == size;
    hide IsLeafRow;
    var root := MerkleRoot(config.join, row, levels);
    var auxPows := BuildAuxPows(config.join, blocks, slots, row, size, nonce, levels);
    var first := BlockAt(blocks, 0);
    var maxTarget, minBits := top, bits;
    if !StringLeq(Hex(top), Hex(config.maxJobTarget)) {
      maxTarget, minBits := config.maxJobTarget, config.minJobBits;
    }
    job := AuxPowJob(minBits, maxTarget, root, size, nonce, auxPows,
                     first.prevBlockHash, first.coinbaseValue, first.height);
    TargetCapped(config, blocks, job, top, bits);
    assert HasTree(config.join, job, blocks, row, k);
  }

  // ---- The object ----

  /** How a request for a job ends. `SlotsFailed` is the assignment that never returns a table. */
  datatype Made = Job(job: AuxPowJob) | NoBlocks | SlotsFailed(how: Assignment)

  datatype Found = Cached(job: AuxPowJob) | NotFound

  class AuxJobMaker {
    const config: Config

    var currentAuxBlocks: Blocks
    var auxPowJobs: map<Hash, AuxPowJob>
    var auxPowJobIndex: seq<Hash>
    var merkleNonce: u32
    var merkleSize: u32
    var chainIDIndexSlots: SlotTable

    ghost function View(): Maker
      reads this
    {
      Maker(currentAuxBlocks, chainIDIndexSlots, merkleNonce, merkleSize, auxPowJobs, auxPowJobIndex)
    }

    ghost predicate Valid()
      reads this
    {
      SlotsConsistent(View()) && CacheConsistent(config, View())
    }

    /** The compact form of the cap is computed once. */
    constructor (join: Join, auxPowJobListSize: nat, maxJobTarget: Hash)
      ensures Valid() && View() == Maker(map[], Nil, 0, 0, map[], [])
      ensures config.join == join && config.auxPowJobListSize == auxPowJobListSize
      ensures config.maxJobTarget == maxJobTarget
      ensures Target.TargetToBits(Hex(maxJobTarget)) == Target.Text(config.minJobBits)
    {
      DecodeOfHex(maxJobTarget);
      config := Config(join, auxPowJobListSize, maxJobTarget, Target.TargetToBits(Hex(maxJobTarget)).text);
      currentAuxBlocks, auxPowJobs, auxPowJobIndex := map[], map[], [];
      merkleNonce, merkleSize, chainIDIndexSlots := 0, 0, Nil;
    }

    /** The locked part of an update with the block a chain's node returned. */
    method UpdateAuxBlock(index: nat, auxBlockInfo: AuxBlockInfo)
      requires Valid()
      modifies this`currentAuxBlocks, this`chainIDIndexSlots
      ensures Valid() && View() == Updated(old(View()), index, auxBlockInfo)
    {
      UpdatedKeepsSlots(View(), index, auxBlockInfo);
      UpdatedKeepsCache(config, View(), index, auxBlockInfo);
      if index !in currentAuxBlocks || currentAuxBlocks[index].chainID != auxBlockInfo.chainID {
        chainIDIndexSlots := Nil;
      }
      currentAuxBlocks := currentAuxBlocks[index := auxBlockInfo];
    }

    /** Assigns slots when there is no table; a failing assignment leaves everything as it was. */
    method EnsureSlots(rand: nat -> u32) returns (r: Assignment, draws: nat)
      requires Valid()
      modifies this`chainIDIndexSlots, this`merkleNonce, this`merkleSize
      ensures Valid()
      ensures View() == old(View()).(
                chainIDIndexSlots := chainIDIndexSlots, merkleNonce := merkleNonce, merkleSize := merkleSize)
      ensures old(chainIDIndexSlots).Table? ==> View() == old(View()) && r.Assigned? && draws == 0
      ensures old(chainIDIndexSlots).Nil? ==> (r.Assigned? <==> Separates(ChainIDs(currentAuxBlocks), 0x8000_0000))
      ensures if r.Assigned? then chainIDIndexSlots.Table? else View() == old(View())
    {
      hide CacheConsistent;
      if chainIDIndexSlots.Table? {
        return Assigned(merkleNonce, merkleSize, chainIDIndexSlots.slots, map[]), 0;
      }
      SlotsDoNotAffectCache(config, View());
      r, draws := AssignChainSlots(ChainIDs(currentAuxBlocks), rand);
      if r.Assigned? {
        merkleNonce, merkleSize := r.merkleNonce, r.merkleSize;
        chainIDIndexSlots := Table(r.chainIDIndexSlots);
      }
    }

    /** Builds a job under the lock. It fails only without blocks, or when two chain IDs agree modulo 2^31. */
    method MakeAuxJob(rand: nat -> u32) returns (made: Made)
      requires Valid()
      modifies this`chainIDIndexSlots, this`merkleNonce, this`merkleSize
      ensures Valid()
      ensures made.NoBlocks? <==> currentAuxBlocks == map[]
      ensures made.SlotsFailed? <==> currentAuxBlocks != map[] && old(chainIDIndexSlots).Nil?
                                     && !Separates(ChainIDs(currentAuxBlocks), 0x8000_0000)
      ensures if made.Job? then MakesJob(config, old(View()), View(), made.job) else View() == old(View())
    {
      if currentAuxBlocks == map[] {
        return NoBlocks;
      }
      hide CacheConsistent;
      var r, draws := EnsureSlots(rand);
      if !r.Assigned? {
        return SlotsFailed(r);
      }
      hide IsSlotTable, GetChainSlot, Pow2, JobBuiltFrom;
      SlotsTotalAndInjective(View());
      ghost var k: nat :| LeastSeparatingExponent(ChainIDs(currentAuxBlocks), k) && merkleSize == Pow2(k);
      hide SlotsConsistent;
      var job := BuildJob(config, currentAuxBlocks, chainIDIndexSlots.slots, merkleSize, merkleNonce, k);
      return Job(job);
    }

    /** The second locked part of a request. */
    method StoreAuxJob(job: AuxPowJob)
      requires Valid() && JobSound(config, job)
      modifies this`auxPowJobs, this`auxPowJobIndex
      ensures Valid() && View() == Stored(config, old(View()), job)
    {
      hide CacheConsistent, SlotsConsistent, JobSound;
      ghost var before := View();
      StoredKeepsCache(config, before, job);
      StoredKeepsSlots(config, before, job);
      if job.merkleRoot in auxPowJobs {
        return;
      }
      auxPowJobs := auxPowJobs[job.merkleRoot := job];
      auxPowJobIndex := auxPowJobIndex + [job.merkleRoot];
      if |auxPowJobIndex| > config.auxPowJobListSize {
        var oldJobMerkleRoot := auxPowJobIndex[0];
        auxPowJobIndex := auxPowJobIndex[1..];
        auxPowJobs := auxPowJobs - {oldJobMerkleRoot};
      }
      assert View() == Stored(config, before, job);
    }

    /** A request for a job when nothing else runs between its two locked parts. */
    method GetAuxJob(rand: nat -> u32) returns (made: Made)
      requires Valid()
      modifies this`chainIDIndexSlots, this`merkleNonce, this`merkleSize, this`auxPowJobs, this`auxPowJobIndex
      ensures Valid()
      ensures if made.Job?
              then exists mid :: MakesJob(config, old(View()), mid, made.job) && View() == Stored(config, mid, made.job)
              else View() == old(View())
    {
      made := MakeAuxJob(rand);
      if made.Job? {
        ghost var mid := View();
        StoreAuxJob(made.job);
        assert MakesJob(config, old(View()), mid, made.job);
      }
    }

    /** Looks a job up by its root. */
    method FindAuxJob(merkleRoot: Hash) returns (found: Found)
      requires Valid()
      ensures found.Cached? <==> merkleRoot in auxPowJobs
      ensures found.Cached? ==> found.job == auxPowJobs[merkleRoot]
      ensures found.Cached? ==> found.job.merkleRoot == merkleRoot && JobSound(config, found.job)
    {
      found := if merkleRoot in auxPowJobs then Cached(auxPowJobs[merkleRoot]) else NotFound;
    }
  }

  /** The cache invariant says nothing about the slot table. */
  lemma SlotsDoNotAffectCache(config: Config, s: Maker)
    requires CacheConsistent(config, s)
    ensures forall slots, nonce, size ::
              CacheConsistent(config, s.(chainIDIndexSlots := slots, merkleNonce := nonce, merkleSize := size))
  {
    hide JobSound;
  }
}
