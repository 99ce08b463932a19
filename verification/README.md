# btcpool-go-modules: a verified model

A Dafny model of the stateful cores of three programs, with proofs that hold for every input, every random draw and
every interleaving of their locked regions.

- **Merged mining proxy.** Auxiliary chains get slots of a Merkle tree by a linear congruential formula; one job commits
  to all of them and is kept in a bounded FIFO cache; a submitted proof of work is parsed, extended by each chain's own path
  and handed to the chains whose target it reaches. `Merkle`, `ChainSlot`, `AuxPowData`, `AuxJobMaker`, `ProxyRPC`, and
  the compact form of targets in `Compact` and `Target`.
- **Stratum switcher.** The session ID allocator and its Ethereum stride (`SessionIDs`, `EthereumStride`), the life cycle
  of a session and its reconnect counter (`StratumSession`), its handshake with miner and server (`StratumHandshake`), all
  sessions together (`StratumSessionManager`) and what follows when two share an ID (`SharedIDs`), the multiplexer of
  ZooKeeper watches (`ZookeeperManager`), sessions together with their watches (`SessionWatches`), and the stream copy
  (`IOCopy`).
- **User chain API server.** The user lists and their cached JSON text (`UserListJSON`).

`Bits` and `Byte32` hold 32-bit words, hashes and hexadecimal text.

Objects whose methods change fields are classes. Each method is proved against a function on values, or a relation, and
the theorems are about those. A region that runs under a lock is one step of a transition system; a run is any sequence of
steps, and a goroutine that has been spawned but has not run yet is part of the state. Go's `uint32` is written out modulo
2^32. Hash functions (`join`, `sha256d`, `scrypt`), the random stream, connection outcomes, and ZooKeeper's answers
are parameters, so the results hold for all of them.

Places where the code does not do what one might expect, each proved with its exact condition:

- Chain IDs that agree modulo 2^31 are never separated; the size doubles until it wraps to 0 and the next slot is a
  division by zero (`AssignChainSlots`).
- The 32-bit side mask loses the sides of items from the 33rd on (`SidesSurviveIff`).
- `BigToCompact` loses the high bits of an exponent above 255, that is for numbers from 2^2039 on (`AccurateIff`).
- `ResumeSessionID` adds the stride to the cursor without the mask. After an upgrade of an Ethereum manager two
  sessions can hold one ID (`ReissuesIff`, `ResumeKeepsInvIff`, `UpgradeCanDuplicate`), an ID can lie in another server's
  range (`OtherServerIff`), and freeing it frees another index (`FreeUndoesAllocationIff`).
- `ResumeStratumSession` logs an occupied ID and resumes the session with it all the same (`ResumeKeepsInvIff`). The release
  of one holder then frees the index under the other, as does an accept with the cursor beyond the mask (`ExposedIff`,
  `AcceptSharesIff`).
- `ReleaseStratumSession` frees the ID before it releases the channel, which can by then be the channel of another
  session (`ClosesAnothersIff`).
- `tryStop` spawns the stop, which can then stop a later generation than the one checked (`StopFindsItsGenerationIff`).
- Resuming replays the saved subscription, by which an ETHProxy miner is taken for an Ethereum Stratum miner with another
  JSON-RPC version (`UpgradeRestoresIff`).
- A block hash found in its reversed form is compared with the targets in that form (`StoredFormDecidesIff`).
- `MakeByte32FromHex` pads and cuts: a submitted hash of another length can find a job (`TextFindsRootIff`).

## Model

| member | source | states |
|---|---|---|
| ChainSlot.SlotsCollideIff | mergedMiningProxy/ChainSlot.go:9-15 | at a power-of-two size two chains share a slot iff their IDs are congruent modulo the size, whatever the nonce, through both 32-bit wrap-arounds |
| ChainSlot.SlotIsPublishedFormula | mergedMiningProxy/ChainSlot.go:9-15 | at a power-of-two size the slot is (1103515245 * (1103515245 * nonce + 12345 + chainID) + 12345) modulo the size over unbounded integers: all three 32-bit wrap-arounds cancel |
| ChainSlot.SeparatesMonotone | mergedMiningProxy/ChainSlot.go:32-61 | a size that separates the chain IDs still does after any number of doublings |
| ChainSlot.SeparatesNeedsRoom | mergedMiningProxy/ChainSlot.go:24-28 | no size smaller than the number of chains separates them, so starting at the chain count skips nothing |
| ChainSlot.InitialSize | mergedMiningProxy/ChainSlot.go:24-28 | the first size is the least power of two not below the chain count; the loop runs on forever iff the count exceeds 2^31 |
| ChainSlot.FillSlots | mergedMiningProxy/ChainSlot.go:34-60 | one attempt meets a conflict iff the size does not separate the IDs; otherwise both tables are complete, injective and each other's inverse |
| ChainSlot.AssignChainSlots | mergedMiningProxy/ChainSlot.go:17-64 | for every random stream: succeeds iff the IDs differ modulo 2^31; then the size is the least separating power of two, reached after exactly five draws per doubling and one more, every slot is the one of the published formula for the last nonce, and the two tables are inverse; otherwise the division by zero comes after that many draws |
| Merkle.PathFoldsToRoot | vendor/merkle-tree-and-bitcoin/merkle/merkle.go:69-88 | every leaf folds along its own path to the root, for every `join` and every power-of-two row |
| Merkle.PathSidesAreSlotBits | vendor/merkle-tree-and-bitcoin/merkle/merkle.go:143-162 | the sides of a leaf's path are the binary digits of its position |
| Merkle.FoldConcat | mergedMiningProxy/AuxPowData_test.go:61-72 | folding a concatenated branch is folding its parts one after the other |
| AuxPowData.Index | mergedMiningProxy/AuxPowData.go:75-90 | the first occurrence of the pattern, or -1 iff there is none |
| AuxPowData.ReadBranch | mergedMiningProxy/AuxPowData.go:99-115 | reads a branch iff the count byte and every item start inside the data; printing what was read gives the bytes passed over |
| AuxPowData.ParseBranches | mergedMiningProxy/AuxPowData.go:92-144 | succeeds iff the two branches end exactly at the 80-byte header; then printing the result gives the whole input |
| AuxPowData.ParseBytes | mergedMiningProxy/AuxPowData.go:48-145 | succeeds iff the bytes encode some proof, and returns it; each way of failing is characterised, a failing scrypt among them iff the chain is "LTC" and there are more than 80 bytes |
| AuxPowData.ParsedHashIsHeaders | mergedMiningProxy/AuxPowData.go:57-90 | the hash in a parsed proof belongs to the proof's own header: for "LTC" its scrypt key, reversed only if the key does not occur in the text; for any other chain its double SHA-256 reversed, or unreversed only if the reverse does not occur |
| AuxPowData.ParsedLayout | mergedMiningProxy/AuxPowData.go:48-145 | where everything is in the bytes of a parsed proof: transaction, 32 bytes of hash, each branch as count byte, items and mask, and the 80 bytes of header |
| AuxPowData.LittleEndianIsReversed | mergedMiningProxy/AuxPowData.go:111-115 | the side mask is the four bytes read with the least significant first |
| AuxPowData.DecodesUnique | mergedMiningProxy/AuxPowData.go:40-145 | bytes encode at most one proof |
| AuxPowData.BranchBytesPrefixFree | mergedMiningProxy/AuxPowData.go:174-190 | a printed branch of at most 255 items is determined by any text it starts |
| AuxPowData.PrintThenParseIff | mergedMiningProxy/AuxPowData.go:40-196 | parsing the printed text of a proof gives that proof iff the header is whole, the branches fit their count bytes, and the block hash is the hash of the proof's own header in the form that is found first, at no earlier place |
| AuxPowData.ParsesRoundTrip | mergedMiningProxy/AuxPowData.go:40-201 | printing a parsed proof gives its text back in lower-case digits, and the text parses to no other proof |
| AuxPowData.ParseAuxPowData | mergedMiningProxy/AuxPowData.go:40-145 | fails iff the text is the form of no proof; otherwise returns a new object holding that proof |
| AuxPowData.PackSides | mergedMiningProxy/AuxPowData.go:151-160 | the word whose bits are exactly the first 32 sides |
| AuxPowData.SidesSurviveIff | mergedMiningProxy/AuxPowData.go:148-163 | the receiver reads back the sides of extension and old branch iff no set side lies beyond the 32nd |
| AuxPowData.ExpansionComposes | mergedMiningProxy/AuxPowData.go:148-163 | folding the expanded branch is folding the extension first and the submitted branch after it |
| AuxPowData.FullBranchLosesASide | mergedMiningProxy/AuxPowData.go:151-152 | extending a full 32-item branch whose top side is set loses that side |
| AuxPowData.ExpandedTextParsesIff | mergedMiningProxy/ProxyRPC.go:222-225 | for a text that parsed, the text of the expanded proof parses to the expanded proof iff the longer branch fits its count byte and, for a hash stored reversed, the form searched for first does not occur in the longer text |
| AuxPowData.StoredFormDecidesIff | mergedMiningProxy/AuxPowData.go:75-90 | the stored form of the hash compares with every target as the header's number does iff the form searched for first occurs in the text or reads the same in both byte orders |
| AuxPowData.AuxPowData.ExpandingBlockchainBranch | mergedMiningProxy/AuxPowData.go:148-163 | the shift and or loop yields the mask of the concatenated sides; nothing else of the proof changes |
| AuxPowData.AppendBranch | mergedMiningProxy/AuxPowData.go:174-190 | the appending loop adds exactly the printed branch |
| AuxPowData.AuxPowData.ToBytes | mergedMiningProxy/AuxPowData.go:166-196 | the printed form that the round trips are about |
| AuxPowData.AuxPowData.ToHex | mergedMiningProxy/AuxPowData.go:199-201 | the text that `ParsesRoundTrip` speaks of |
| Compact.GreatestRepresentable | mergedMiningProxy/Utils.go:12-78 | below 2^2039 the encoding stands for the greatest representable number not above `n`: exact up to exponent 3, otherwise off by less than 256^(exponent-3) |
| Compact.FormStandsFor | mergedMiningProxy/Utils.go:12-38 | a form stands for its low 23 bits times 256 to its top byte less three, rounded down in magnitude, negative iff bit 23 is set |
| Compact.AccurateIff | mergedMiningProxy/Utils.go:42-78 | the encoding is within one mantissa unit below `n` iff `n` is below 2^2039 |
| Compact.ExponentFitsIff | mergedMiningProxy/Utils.go:66-73 | the exponent fits its byte iff `n` is below 2^2039 |
| Compact.EncodeIsCanonical | mergedMiningProxy/Utils.go:42-78 | encoding yields only canonical codes, with a normalised mantissa and no sign bit |
| Compact.EncodeOfDecode | mergedMiningProxy/Utils.go:12-78 | encoding undoes decoding on every canonical code |
| Compact.DecodeOfEncodeOfRepresentable | mergedMiningProxy/Utils.go:12-78 | decoding undoes encoding on every non-negative number that some code stands for |
| Compact.CanonicalOrder | mergedMiningProxy/Utils.go:12-38 | canonical codes are ordered like the numbers they stand for |
| Compact.EncodeMonotone | mergedMiningProxy/Utils.go:42-78 | encoding is monotone, as a code and in the number it stands for |
| Target.DecodedValue | mergedMiningProxy/Utils.go:95-99 | a text decodes iff it has an even number of hexadecimal digits, and its bytes have the value of the digits |
| Target.BitsRoundTrip | mergedMiningProxy/Utils.go:81-103 | for every canonical code the target text reads as its number and converts back to the code, or fails to iff it has an odd length beyond 64 digits |
| Target.TextsAreReadIff | mergedMiningProxy/Utils.go:81-99 | bits are read iff they are one or more hexadecimal digits, of either case, with a value below 2^32, and a target iff it is an even number of such digits |
| Target.TargetRoundTrip | mergedMiningProxy/Utils.go:81-103 | a 64-digit target goes to bits and back as the greatest representable target not above it, in text order too, and is then stable |
| Byte32.HexOrder | mergedMiningProxy/AuxJobMaker.go:327-346 | texts of equally long hashes compare like the numbers |
| AuxJobMaker.AuxJobMaker.UpdateAuxBlock | mergedMiningProxy/AuxJobMaker.go:137-146 | the block is replaced; a new chain or a changed ID drops the slot table, anything else keeps it |
| AuxJobMaker.FillLeaves | mergedMiningProxy/AuxJobMaker.go:313-331 | every block lands in its slot, every other leaf is zero, and the target and bits found are those of a chain with the largest target |
| AuxJobMaker.BuildAuxPows | mergedMiningProxy/AuxJobMaker.go:336-344 | each chain's entry carries its own block and the path of its slot |
| AuxJobMaker.BuildJob | mergedMiningProxy/AuxJobMaker.go:310-350 | the job commits to all blocks, and its target is the smaller of the cap and the largest chain target, with the matching bits |
| AuxJobMaker.AuxJobMaker.MakeAuxJob | mergedMiningProxy/AuxJobMaker.go:288-353 | fails iff there are no blocks, or there is no slot table and IDs agree modulo 2^31, and then changes nothing; a job made is built from the current blocks with a table that fits them |
| AuxJobMaker.AuxJobMaker.EnsureSlots | mergedMiningProxy/AuxJobMaker.go:299-308 | assigns slots only when there is no table, and succeeds then iff the IDs differ modulo 2^31 |
| AuxJobMaker.JobCommits | mergedMiningProxy/AuxJobMaker.go:321-344 | a built job has an entry for exactly the chains it was built from, each with the chain's own block hash and target, folding from the slot of the chain's own ID to the root |
| AuxJobMaker.SlotsTotalAndInjective | mergedMiningProxy/AuxJobMaker.go:299-326 | a fitting table has every current chain and gives no slot twice |
| AuxJobMaker.RunSlotsAreTotalAndInjective | mergedMiningProxy/AuxJobMaker.go:137-146 | in every state of every run a present slot table has exactly the current chain IDs, below the size, no two alike: no leaf is overwritten and no lookup defaults |
| AuxJobMaker.RunKeepsInv | mergedMiningProxy/AuxJobMaker.go:90-146 | in every state of every run, with other requests between the two locked halves of `GetAuxJob`: every cached or waiting job was made by an earlier step from the blocks current then, cached jobs are filed under their roots, the index has no duplicates and is the key set, and it lists exactly the most recent insertions up to the limit |
| AuxJobMaker.JobWasMade | mergedMiningProxy/AuxJobMaker.go:90-116 | the step of the run that made a given cached or waiting job |
| AuxJobMaker.BlockWasReported | mergedMiningProxy/AuxJobMaker.go:137-146 | a chain's current block was brought by an earlier update, and has been current ever since |
| AuxJobMaker.CachedJobCommits | mergedMiningProxy/AuxJobMaker.go:90-353 | in every run a cached job commits to the blocks that were current at the step that made it: their chains, block hashes, targets, and the slots of their IDs |
| AuxJobMaker.CachedJobStays | mergedMiningProxy/AuxJobMaker.go:99-114 | in every run the job under a root stays the same one for as long as the root is cached, whatever else is made and stored |
| AuxJobMaker.CachedJobFields | mergedMiningProxy/AuxJobMaker.go:310-350 | in every run a cached job's target is the lower of the cap and the highest target its chains had reported, with the bits that go with it, and its other fields are those chain 0 had reported, or zero |
| AuxJobMaker.SlotsSurvive | mergedMiningProxy/AuxJobMaker.go:137-146 | a slot table, its nonce and its size survive every step while no chain appears and none changes its ID |
| AuxJobMaker.JobsShareSlots | mergedMiningProxy/AuxJobMaker.go:299-311 | jobs made while the chains stay the same have the same nonce, size and slots |
| AuxJobMaker.NextKeepsInv | mergedMiningProxy/AuxJobMaker.go:90-146 | each single step keeps that invariant |
| AuxJobMaker.AuxJobMaker.StoreAuxJob | mergedMiningProxy/AuxJobMaker.go:96-116 | a job with a known root changes nothing; a new one is appended and the oldest leaves when the limit is passed |
| AuxJobMaker.AuxJobMaker.GetAuxJob | mergedMiningProxy/AuxJobMaker.go:90-117 | a request makes a job and stores it, or fails and changes nothing |
| AuxJobMaker.AuxJobMaker.FindAuxJob | mergedMiningProxy/AuxJobMaker.go:120-126 | finds a root iff it is cached, and the job found is sound and has that root |
| ProxyRPC.Dispatch | mergedMiningProxy/ProxyRPC.go:212-292 | exactly the chains whose target the hash reaches as a number get a submission: their own hash and the proof with their own path |
| ProxyRPC.SubmitAuxBlock | mergedMiningProxy/ProxyRPC.go:175-302 | each error iff its own cause: no proof, no hexadecimal hash, no job under the hash padded or cut to 32 bytes; `high-hash` iff the hash exceeds the targets of all chains of the job; otherwise exactly the reached chains get theirs |
| ProxyRPC.CreateAuxBlock | mergedMiningProxy/ProxyRPC.go:144-173 | advertises a job that was made and stored: hash and target read in reverse are the root and the job's target, the other fields are the job's, the chain ID is 1; the root is then in the cache unless the cache is configured to hold none |
| ProxyRPC.AdvertisedHashFindsRoot | mergedMiningProxy/ProxyRPC.go:155-206 | the hash advertised for a job leads back to the job's root when submitted |
| ProxyRPC.TextFindsRootIff | vendor/merkle-tree-and-bitcoin/hash/byte32.go:14-23 | a submitted text finds a root iff it is hexadecimal and, padded with zeros on the right and cut after 64 digits, is the advertised text |
| ProxyRPC.JobTargetReachesAChain | mergedMiningProxy/ProxyRPC.go:206-300 | a hash at or below the job's target reaches at least one of its chains |
| ProxyRPC.ReversedHashCanMissTarget | mergedMiningProxy/ProxyRPC.go:219-220 | a proof whose header meets a target and whose stored hash does not reach it |
| ProxyRPC.EndToEnd | mergedMiningProxy/ProxyRPC.go:213-225 | in every state of every run, for every cached job and chain: a proof whose branch folds the job root to a merged root is sent on with a branch folding to that merged root the very block hash the chain had reported when the job was made, as long as no set side lies beyond the 32nd |
| ProxyRPC.SentTextFolds | mergedMiningProxy/ProxyRPC.go:213-225 | the same of the text that is sent, under the condition of `ExpandedTextParsesIff`: it parses, and every proof a receiver parses it to has a branch folding the reported block hash to the merged root |
| ProxyRPC.SentHashIsReported | mergedMiningProxy/ProxyRPC.go:235-246 | in every run the hash text sent for a chain is, read as 32 bytes in reverse, the block hash the chain had reported when the job was made |
| ProxyRPC.SlotIsPublished | mergedMiningProxy/AuxPowData.go:148-163 | with an empty submitted branch the branch sent has one item per level of the tree, and its mask is (1103515245 * (1103515245 * nonce + 12345 + chainID) + 12345) modulo the size, for the ID the chain had reported when the job was made, iff the submitted mask has no bit that survives the shift |
| SessionIDs.SearchEnds | stratumSwitcher/SessionIDManager.go:95-98 | unless full, the search ends within one round |
| SessionIDs.AllProbed | stratumSwitcher/SessionIDManager.go:95-98 | a full round of taken indices means the manager is full |
| SessionIDs.FullIffEveryIndexTaken | stratumSwitcher/SessionIDManager.go:72-74 | in range, counting to full is the same as every index being taken |
| SessionIDs.CountFits | stratumSwitcher/SessionIDManager.go:101-102 | the count never wraps |
| SessionIDs.AllocationInRange | stratumSwitcher/SessionIDManager.go:95-107 | an allocation in range takes a free index, returns the server ID above it, and stays in range |
| SessionIDs.ResumeInRangeIff | stratumSwitcher/SessionIDManager.go:111-133 | a resume stays in range iff the ID is occupied, or below the cursor, or index plus stride stays within the mask |
| SessionIDs.ResumeMovesCursor | stratumSwitcher/SessionIDManager.go:111-133 | a resume takes the index and never moves the cursor back: an unoccupied index at or above the cursor moves it one stride above the index, any other leaves it |
| SessionIDs.FreshInRangeIff | stratumSwitcher/SessionIDManager.go:38-62 | a new manager is in range iff it has at least eight index bits |
| SessionIDs.ReissuesIff | stratumSwitcher/SessionIDManager.go:85-133 | an allocation hands out a taken index iff the cursor lies beyond the mask, is free there, and is taken when masked |
| SessionIDs.ResumeCanReissue | stratumSwitcher/SessionIDManager.go:127-129 | two resumes with different IDs after which the next allocation returns the first of them again |
| SessionIDs.OtherServerIff | stratumSwitcher/SessionIDManager.go:104-106 | an index from the range just beyond the mask puts the ID into another server's range iff the server ID is even |
| SessionIDs.FreeUndoesAllocationIff | stratumSwitcher/SessionIDManager.go:85-149 | freeing an allocated ID undoes the allocation iff its index was within the mask; otherwise the bit leaks and the masked index, perhaps another session's, is cleared |
| SessionIDs.SessionIDManager.AllocSessionID | stratumSwitcher/SessionIDManager.go:85-108 | errs iff full, with the mask and no change; otherwise takes the first free index cyclically from the cursor and moves the cursor by the stride |
| SessionIDs.SessionIDManager.ResumeSessionID | stratumSwitcher/SessionIDManager.go:111-133 | errs iff the index is taken; otherwise takes it and moves a cursor that is not beyond it |
| SessionIDs.SessionIDManager.FreeSessionID | stratumSwitcher/SessionIDManager.go:136-149 | frees the index of the ID; the count stays the number of taken bits |
| SessionIDs.SessionIDManager.IsFull | stratumSwitcher/SessionIDManager.go:72-82 | the comparison of count and mask says whether as many indices are taken as there are |
| SessionIDs.NewSessionIDManager | stratumSwitcher/SessionIDManager.go:38-62 | no manager iff more than 24 index bits or server ID 0 |
| EthereumStride.KthSessionID | stratumSwitcher/SessionIDManager.go:85-108 | in every run of allocations from a new Ethereum manager the k-th ID has index (128 + k/256 + 256k) mod 65536 |
| EthereumStride.RunExists | stratumSwitcher/SessionIDManager.go:85-108 | the first 65536 allocations all succeed |
| EthereumStride.RunIsPermutation | stratumSwitcher/StratumSessionManager.go:123-127 | they use every index exactly once, no run is longer, and the manager is then full |
| EthereumStride.NthSwapsBytes | stratumSwitcher/SessionIDManager.go:85-108 | the order is the ordinal with its two bytes swapped, plus 128 |
| EthereumStride.TruncatedDistinctInBlock | stratumSwitcher/StratumSession.go:468-477 | two allocations in one aligned block of 256 get different two-byte extranonces |
| EthereumStride.SessionIDStringsDiffer | stratumSwitcher/StratumSession.go:172-175 | different 24-bit IDs, whatever server they come from, have different texts |
| StratumSession.HeardIff | stratumSwitcher/StratumSession.go:1359-1405 | a worker is heard iff the session runs in its generation, or a multiple of 2^32 generations later |
| StratumSession.StratumSession.Run | stratumSwitcher/StratumSession.go:225-246 | starts a stopped session; any other is left alone |
| StratumSession.StratumSession.Stop | stratumSwitcher/StratumSession.go:316-341 | the caller releases iff it made the transition into stopped |
| StratumSession.StratumSession.TryStop | stratumSwitcher/StratumSession.go:1359-1377 | spawns a stop iff the worker is heard |
| StratumSession.StratumSession.TryReconnect | stratumSwitcher/StratumSession.go:1380-1405 | unheard changes nothing; heard moves to the next counter value, running iff one of eleven attempts connects, else reconnecting with a stop spawned |
| StratumSession.StratumSession.SwitchCoinType | stratumSwitcher/StratumSession.go:1408-1433 | has the same effect on the life cycle as a reconnect |
| StratumSession.StratumSession.ReconnectStratumServer | stratumSwitcher/StratumSession.go:1436-1489 | runs again iff one of retry time plus one attempts connects; otherwise the status stays and one stop is spawned |
| StratumHandshake.AlwaysInv | stratumSwitcher/StratumSession.go:587-676 | after every sequence of requests: nothing is stored before a subscription; then the protocol fields are those the saved subscription determines; an authorized session has saved the request its names come from |
| StratumHandshake.SubscriptionDetects | stratumSwitcher/StratumSession.go:416-484 | which user agents and protocol names, in upper or lower case, make a session a BTCAgent, a NiceHash client, or a NiceHash protocol session |
| StratumHandshake.ToldExtraNonce | stratumSwitcher/StratumSession.go:435-476 | the extranonce a miner is told is the session's ID text, and for a NiceHash client on Ethereum its first two bytes |
| StratumHandshake.ServerIsToldID | stratumSwitcher/StratumSession.go:835-901 | a server is sent the session's ID at its place, and the miner's own user agent and protocol name |
| StratumHandshake.NamesInFirst | stratumSwitcher/StratumSession.go:495-549 | a worker text "account.miner" gives that account as the directory spells it, and ".miner" |
| StratumHandshake.NamesWithoutDot | stratumSwitcher/StratumSession.go:495-549 | a text without a dot is the account, without a miner |
| StratumHandshake.NamesInWorker | stratumSwitcher/StratumSession.go:517-522 | on other chains than Bitcoin's the worker field is the miner |
| StratumHandshake.NamesAfterAddress | stratumSwitcher/StratumSession.go:517-522 | on other chains than Bitcoin's an address of 42 characters in front is dropped |
| StratumHandshake.FilterDrops | stratumSwitcher/Utils.go:130-134 | filtering a name leaves out exactly the characters that are not allowed |
| StratumHandshake.AllowedCharacters | stratumSwitcher/Utils.go:130-134 | which characters those are, by code point |
| StratumHandshake.LoginSubscribes | stratumSwitcher/StratumSession.go:600-616 | a login without a subscription is refused, except on Ethereum, where the session is given the ETHProxy subscription that servers are then told of, and answers in JSON-RPC 2 |
| StratumHandshake.RefusedBecause | stratumSwitcher/StratumSession.go:495-628 | which requests are refused with which error, and that no refused one logs a miner in |
| StratumHandshake.ConfigureSetsMask | stratumSwitcher/StratumSession.go:551-585 | a configure request for a mask in eight digits leaves that mask and confirms it unless it is zero |
| StratumHandshake.SentKeepsInv | stratumSwitcher/StratumSession.go:835-901 | rewriting the saved subscription for a server changes nothing that is detected from it |
| StratumHandshake.UpgradeRestoresIff | stratumSwitcher/StratumSession.go:249-313 | after any requests that authorize and any number of server connections, resuming succeeds iff the coin is unchanged and the directory, read anew, still names the sub-account; it gives back the same session iff moreover the directory names the same sub-account and the miner is not an ETHProxy one, which comes back as Ethereum Stratum with JSON-RPC 1 |
| StratumHandshake.EthProxyIsNotRestored | stratumSwitcher/StratumSession.go:600-606 | the login with which that happens |
| StratumHandshake.ExtraNonceAgrees | stratumSwitcher/StratumSession.go:1123-1207 | a server's answer, of any shape, is accepted iff its second element is the extranonce the miner was told, and for NiceHash the second element of its first is the session ID: whatever the miner sends later, after any number of server changes and after an upgrade |
| StratumHandshake.NotAcceptedBecause | stratumSwitcher/StratumSession.go:1123-1207 | which answers cannot be read, which carry another ID, which crash the session, and what the protocols without extranonce accept |
| StratumHandshake.HandshakeFields.StratumHandleRequest | stratumSwitcher/StratumSession.go:587-628 | handles subscribe, login, authorize and configure requests as the replay and the invariant assume, with subscribe before authorize |
| StratumHandshake.HandshakeFields.ParseSubscribeRequest | stratumSwitcher/StratumSession.go:416-485 | detects agent, NiceHash client and protocol from the request, and answers with the extranonce of that protocol |
| StratumHandshake.HandshakeFields.SendMiningSubscribeToServer | stratumSwitcher/StratumSession.go:835-901 | the in-place rewriting that `SentKeepsInv` is about |
| StratumHandshake.HandshakeFields.Resume | stratumSwitcher/StratumSession.go:249-309 | restores the version mask, replays the saved requests, compares the coin; succeeds iff `UpgradeRestoresIff`'s replay does, with its result |
| StratumSessionManager.StepKeepsInv | stratumSwitcher/StratumSessionManager.go:205-283 | every step of every session keeps: unreleased sessions hold different indices, and the taken bits are exactly the indices they hold |
| StratumSessionManager.ResumeKeepsInvIff | stratumSwitcher/StratumSessionManager.go:244-251 | a resume keeps it iff its index is free and the cursor stays within the mask |
| StratumSessionManager.RunKeepsInv | stratumSwitcher/StratumSessionManager.go:205-283 | so it holds in every state of every run of accepts, resumes that fit, reconnects, stops and releases |
| StratumSessionManager.UnreleasedAreDistinct | stratumSwitcher/StratumSessionManager.go:205-217 | unreleased sessions have different IDs in every state of every such run, so no allocation returns an ID still held |
| StratumSessionManager.TakenCountsUnreleased | stratumSwitcher/SessionIDManager.go:72-74 | no ID leaks: as many indices are taken as sessions are unreleased, and full means they are 2^indexBits |
| StratumSessionManager.ReleasedOnceAfterStop | stratumSwitcher/StratumSession.go:316-336 | in every run a session's ID is freed at most once, and only after a step that moved the session into stopped |
| StratumSessionManager.StoppedOnce | stratumSwitcher/StratumSession.go:316-325 | a session is moved into stopped by at most one step of a run |
| StratumSessionManager.Later | stratumSwitcher/StratumSession.go:1359-1489 | along every run the ID stays, the generation never decreases, and a stopped session stays stopped |
| StratumSessionManager.FailedReconnectOnlyStops | stratumSwitcher/StratumSession.go:1475-1481 | after a failed reconnect every later status is stopped, or still reconnecting with a stop pending |
| StratumSessionManager.FailedReconnectEnds | stratumSwitcher/StratumSession.go:1380-1489 | from the step itself: after a heard worker's reconnect that does not connect, every later state is stopped, or reconnecting with a stop waiting, and no later step reconnects the session |
| StratumSessionManager.ConnectedReconnectRuns | stratumSwitcher/StratumSession.go:1436-1489 | after one that connects the session runs in the next generation |
| StratumSessionManager.RecordedWorkerIsHeardIff | stratumSwitcher/StratumSession.go:1223-1224 | a worker that recorded the counter is heard, while the session runs, iff the generation has advanced by a multiple of 2^32 since, in particular as long as nobody has reconnected it |
| StratumSessionManager.OneReconnectPerGeneration | stratumSwitcher/StratumSession.go:1380-1433 | of two steps by which a heard worker starts a reconnect of a running session, the later one leaves a later generation, and if the workers had recorded the same counter it is 2^32 generations later: until then one worker at most reconnects for each counter value |
| StratumSessionManager.StepReconnectsIff | stratumSwitcher/StratumSession.go:1380-1433 | in every run a session's generation goes up by one in exactly the steps in which `tryReconnect` or `switchCoinType` passes its guard, and changes in no other |
| StratumSessionManager.WorkerActsIff | stratumSwitcher/StratumSession.go:1359-1433 | an attempt by a worker changes something iff the session runs in the worker's generation modulo 2^32 |
| StratumSessionManager.StopWasSpawned | stratumSwitcher/StratumSession.go:1368-1372 | every stop that waits to run was spawned by an earlier step, in the generation it carries: a failed start, a worker that was heard, or a heard worker's reconnect that did not connect |
| StratumSessionManager.StopFindsItsGenerationIff | stratumSwitcher/StratumSession.go:1359-1489 | in every run a stop that moves a session into stopped finds the generation it was spawned in iff, since the spawning step, no worker's attempt to reconnect has passed its guard |
| StratumSessionManager.StopOutlivesItsGeneration | stratumSwitcher/StratumSession.go:1368-1372 | the input for which it fails: a stop spawned in one generation stops the next one when another worker reconnects first |
| StratumSessionManager.ResumedSatisfyInv | stratumSwitcher/StratumSessionManager.go:244-251 | without a stride, resuming IDs with different indices establishes the invariant |
| StratumSessionManager.UpgradeCanDuplicate | stratumSwitcher/StratumSessionManager.go:123-127 | a run of an Ethereum manager, two resumes and an accept, after which two unreleased sessions have one ID |
| SharedIDs.ExposedIff | stratumSwitcher/StratumSessionManager.go:220-283 | in every run, whatever was resumed, the index of an unreleased session is free iff a session sharing it was released, or a session was accepted with it while the cursor was beyond the mask, and its bit has not been set since |
| SharedIDs.ExposedInRangeIff | stratumSwitcher/StratumSessionManager.go:220-283 | while the cursor stays within the mask, the release of a sharing session is the only cause |
| SharedIDs.AcceptCanExpose | stratumSwitcher/SessionIDManager.go:127-129 | a run of an Ethereum manager, one resume and one accept, in which nothing is released and the accepted session's index is free |
| SharedIDs.AcceptSharesIff | stratumSwitcher/StratumSessionManager.go:205-217 | in every run an accepted session gets the index of an unreleased one iff the cursor is beyond the mask, free there and masked to that index, or the search stops at the index and one of the causes of `ExposedIff` had left it free |
| SharedIDs.SharedCanBeExposed | stratumSwitcher/StratumSessionManager.go:244-251 | from every state of a run in which two unreleased sessions share an index, some continuation releases one and leaves the other's index free |
| SharedIDs.FittingRunExposesNobody | stratumSwitcher/StratumSessionManager.go:205-283 | while all resumes fit, no unreleased session's index is ever free |
| SharedIDs.NoStrideStaysInRange | stratumSwitcher/SessionIDManager.go:127-129 | without a stride the cursor stays within the mask in every run, whatever is resumed |
| SessionWatches.NextKeepsInv | stratumSwitcher/StratumSessionManager.go:262-283 | every step of sessions and watches together keeps, whatever is resumed and whatever path is watched: a registered channel carries its owner's ID, and an owner that is gone has released its own path |
| SessionWatches.ClosesAnothersIff | stratumSwitcher/StratumSessionManager.go:280-282 | in every run the late release of a session's channel closes a channel of another unreleased session iff that channel is for the released path and both have the same ID; and then that session was accepted after the ID was freed, unless the two already held the ID together |
| SessionWatches.FittingRunKeepsInv | stratumSwitcher/StratumSessionManager.go:205-283 | when all resumes fit, no two unreleased sessions ever hold an ID together |
| SessionWatches.ReleaseCanCloseAnothers | stratumSwitcher/StratumSessionManager.go:280-282 | a run in which that happens |
| StratumSessionManager.StratumSessionManager.RunStratumSession | stratumSwitcher/StratumSessionManager.go:205-217 | no session iff full; otherwise a new running session with a newly allocated ID |
| StratumSessionManager.StratumSessionManager.ResumeStratumSession | stratumSwitcher/StratumSessionManager.go:244-251 | an occupied ID is reported and the session runs with it nevertheless |
| StratumSessionManager.StratumSessionManager.ReleaseStratumSession | stratumSwitcher/StratumSessionManager.go:273-281 | unregisters the session and frees its ID |
| StratumSessionManager.StratumSessionManager.StopSession | stratumSwitcher/StratumSession.go:316-336 | an ID is freed only by the call that stopped the session |
| StratumSessionManager.NewStratumSessionManager | stratumSwitcher/StratumSessionManager.go:68-130 | the four configured names, in upper or lower case, give a manager of that chain type with the given server ID, with 24 index bits and no stride, and for Ethereum the 16 bits and stride of 256 that `EthereumStride` is about; any other name or server ID 0 gives none |
| StratumSessionManager.AcceptedCarriesServer | stratumSwitcher/SessionIDManager.go:104-106 | in a run whose resumes fit, every accepted session's ID has the server ID above its index bits |
| StratumSessionManager.SessionIDTextReads | stratumSwitcher/StratumSession.go:163-175 | how the ID text reads as a number on each chain: most significant byte first on Bitcoin and Ethereum, least significant first on Decred |
| StratumSessionManager.SessionIDTextsDiffer | stratumSwitcher/StratumSession.go:163-175 | different IDs have different texts; on Ethereum, as long as they have 24 bits |
| StratumSessionManager.ServersDoNotCollide | stratumSwitcher/StratumSessionManager.go:81-127 | sessions accepted by Ethereum managers of different servers have different texts, so their miners get different extranonces |
| ZookeeperManager.StepKeepsInv | stratumSwitcher/ZookeeperManager.go:45-193 | every step keeps: the map holds exactly the watchers still waiting; an armed watch's value is the node's; registered channels are open, empty and belong to one watcher and session; nothing has failed |
| ZookeeperManager.SendAllSignals | stratumSwitcher/ZookeeperManager.go:52-55 | in whatever order the map is walked, no send blocks or meets a closed channel and each registered channel is signalled and closed |
| ZookeeperManager.DeliverSignals | stratumSwitcher/ZookeeperManager.go:47-58 | delivery signals exactly the watcher's registered channels and removes exactly that watcher |
| ZookeeperManager.RunIsSafe | stratumSwitcher/ZookeeperManager.go:45-193 | over every interleaving no send blocks, no channel is sent to after closing or closed twice, and a path has at most one live watch |
| ZookeeperManager.GetWDoes | stratumSwitcher/ZookeeperManager.go:121-153 | `GetW` succeeds iff the path is watched or ZooKeeper answers with a value; then the session has one new open and empty channel with the watcher's or the node's value, and only the channel it replaces is affected |
| ZookeeperManager.ReleaseWDoes | stratumSwitcher/ZookeeperManager.go:162-193 | `ReleaseW` closes exactly the channel the session has for the path, and affects no other channel and no watch |
| ZookeeperManager.ChangeFires | stratumSwitcher/ZookeeperManager.go:121-153 | a change of a node puts the event of every channel registered for it on its way, and touches no other path |
| ZookeeperManager.DisconnectFires | stratumSwitcher/ZookeeperManager.go:43-56 | so does a lost connection, for one watch |
| ZookeeperManager.ReceivedOnce | stratumSwitcher/ZookeeperManager.go:50-53 | in every run a session receives from a channel at most once |
| ZookeeperManager.StepFate | stratumSwitcher/ZookeeperManager.go:121-193 | a channel's fate changes once: signalled only by its watcher's delivery, released or superseded only by its own session and path |
| ZookeeperManager.NoLostUpdate | stratumSwitcher/ZookeeperManager.go:121-153 | a channel returned with a value, unless released or replaced, is signalled, or the node still has that value, or the event is on its way |
| ZookeeperManager.StaleIsDelivered | stratumSwitcher/ZookeeperManager.go:45-59 | a registered channel with an outdated value can be delivered to at once, and is signalled by it |
| ZookeeperManager.ZookeeperManager.GetW | stratumSwitcher/ZookeeperManager.go:121-153 | fails iff there is no watcher and ZooKeeper does not answer with a value, changing nothing; otherwise one new channel, and a new watch only for a path without one |
| ZookeeperManager.ZookeeperManager.ReleaseW | stratumSwitcher/ZookeeperManager.go:162-193 | closes and forgets the session's channel, if it has one; the watcher stays |
| ZookeeperManager.ZookeeperManager.DeliverEvent | stratumSwitcher/ZookeeperManager.go:45-59 | the delivery loop, each send and close proved possible, is a delivery in some order |
| UserListJSON.CacheAlwaysAgrees | userChainAPIServer/initUserCoin/UserListJSON.cpp:26-78 | after any calls a cached text is the rendering of the list as it is now |
| UserListJSON.ListsAreLastWriterWins | userChainAPIServer/initUserCoin/UserListJSON.cpp:26-40 | a coin's list holds for each ID the name last added for the coin, and the merged list the name last added for any coin |
| UserListJSON.TextListsLastNames | userChainAPIServer/initUserCoin/UserListJSON.cpp:42-78 | after any calls the returned text lists, once and ascending, exactly the last names with an ID after `lastUserId`, or all when it is not positive |
| UserListJSON.EntriesAreExact | userChainAPIServer/initUserCoin/UserListJSON.cpp:54-62 | the entries rendered are exactly those, in ascending order |
| UserListJSON.BeginIsFirst | userChainAPIServer/initUserCoin/UserListJSON.cpp:55-62 | starting at `begin` or `upper_bound` skips exactly the entries not wanted |
| UserListJSON.TextDeterminesEntries | userChainAPIServer/initUserCoin/UserListJSON.cpp:64-75 | with names free of quotes, two lists with the same text are the same list |
| UserListJSON.TextFrame | userChainAPIServer/initUserCoin/UserListJSON.cpp:63-75 | the literal frame around the entries |
| UserListJSON.JoinedShape | userChainAPIServer/initUserCoin/UserListJSON.cpp:64-74 | how an entry and the entries after it are written, character by character |
| UserListJSON.DecimalReads | userChainAPIServer/initUserCoin/UserListJSON.cpp:69-69 | an ID is written in base ten: reading it back gives the ID |
| UserListJSON.Render | userChainAPIServer/initUserCoin/UserListJSON.cpp:53-75 | the appending loop renders the wanted entries, with commas only between them |
| UserListJSON.UserListJSON.AddUser | userChainAPIServer/initUserCoin/UserListJSON.cpp:26-40 | the name goes into the coin's list and the merged one, and both caches are dropped |
| UserListJSON.UserListJSON.GetUserListJson | userChainAPIServer/initUserCoin/UserListJSON.cpp:42-78 | cached or not, the text is the fresh rendering of the list |
| IOCopy.IOCopyBuffer | stratumSwitcher/Utils.go:82-115 | for every pattern of short reads, short writes and errors: after a read failure everything read was forwarded in order; after a write failure everything read is the fully forwarded chunks followed by `buf[0:bufferLen]`, of which the writer got a prefix |

## Left out

- Hash functions: `join`, double SHA-256 and scrypt are arbitrary functions of fixed-length results. Merkle rows of other than
  power-of-two length do not occur, and their duplicated last leaf is not modelled.
- Negative numbers in `BigToCompact`: right shifts of negative numbers round differently. Targets are never negative.
- Positions in Go's `map` ranges and the `rand` stream: any order and any stream.
- Out-of-range reads in `ParseAuxPowData` are failures `OutOfRange` here; a slice that ends early reads zeros as `copy` does.
- Notification of new heights (ZeroMQ channels), and the chain that a failing RPC leaves unchanged.
- The requests sent to the chains after `Dispatch`: JSON parameters, the database insert and the response's parsing.
- AuxJobMaker.AuxJobMaker.GetAuxJob: states the two locked halves without steps of others between them; runs interleave them.
- `FindAuxJob` and `getUserUpdateTime` read shared state without the lock; they are modelled as atomic, or not at all.
- Update times of users, and how long the C string that `getUserListJson` returns stays valid after the lock is gone.
- Protocol detection by the first byte, the authorization answers of servers, and the JSON text of
  requests and answers; lower-casing letters beyond ASCII.
- Failures of `Run` and `Resume` past their locked part: in the transition system, a stop spawned at any time after the start.
- The registered-session map in the transition system: it is assigned outside the session's lock. The class has it.
- `miningCoin` is assigned by `switchCoinType` before the lock, so it need not match the connected server.
- Server ID assignment from ZooKeeper: it retries the same ID after a failed create, so it need not end.
- SessionWatches.ClosesAnothersIff: a session calls `GetW` only until its own channel has been released; a later call would use
  a manager that is gone.
- IOCopy.IOCopyBuffer: readers and writers are finite scripts, so a source that never fails is cut off with a read failure.
- ZookeeperManager.NoLostUpdate: that an event on its way is eventually handled is scheduling, and not modelled.
- ZooKeeper is modelled as firing the armed watches of a node in the step that changes it, and delivering each event once.
- `initNiceHash`, `chainSwitcher`, the switcher API server and the record initialisation: external calls and plain selection.
