# Verified models of a Twister node

A twister node is a peer-to-peer blockchain node of the Bitcoin family whose blocks register user names. This
project models the parts of it that keep state consistent over long histories, and proves what their callers
rely on. Results are stated for all inputs and all random choices, and where a promise fails, with the exact condition
under which it holds; hashing, disk, clock, network and randomness are parameters or arbitrary choices.

| module | models |
|---|---|
| `BlockTree`, `SwitchLog`, `ChainSelection`, `SwitchExample` | the tree of block index entries, fork search, reorganisation, choice of the best chain |
| `TxIndex` | the index from user names to registrations: entries, lookups, connecting and disconnecting one block |
| `NameSwitch`, `NameIndex`, `NameHistory`, `NameExamples` | whole reorganisations of that index, successful and refused, and histories of them |
| `NodeHistory` | from chain selection to the name index: the switches of a node are a history of its index |
| `AddrTables`, `AddrMan`, `AddrDump` (over `Ordered`) | the address manager: tables, operations, writing to disk and reading back |
| `AddrQuality` | which entries are dropped first, said of the operations they went through |
| `TriedDraws`, `EvictionExample` | the random draws that choose an entry to evict from a full "tried" bucket |
| `Merkle`, `MerkleBinding`, `PartialMerkle` | Merkle trees, branches, and partial trees after BIP 37 |
| `Framing`, `CompactSize` | the outgoing message queue and the incremental parser of a connection; counts on the wire |
| `Locator` | block locators |
| `CompactTarget`, `Difficulty`, `BlockTime` | compact targets, retargeting, block work, median time past |
| `Radix`, `Base58` | digit sequences, Base58 with and without checksum |
| `LimitedMap`, `LockedPages`, `Accumulator` | the bounded map, page lock counts, the administrators' accumulator |
| `Arithmetic`, `Powers`, `Sequences`, `ByteStrings`, `Options` | shared vocabulary |

Objects that the program changes in place are classes with a `Valid()` invariant that every operation keeps; loops
are loops with invariants. Each such method is tied to a specification function or relation, and the properties are
proved of that.

## Where code and promise differ

Nine promises turn out to be false of the code as it stands. Each has its exact condition and a concrete case.

* `SetBestChain` skips blocks marked as failed but still makes the requested block the tip. The height vector is the
  path to the new tip if and only if no block between the fork and the new tip had failed
  (`ChainState.SetBestChain`; `FailedBranchBreaksVector` drives a node there block by block). `ConnectBestBlock` only
  ever asks for clean branches; the soft checkpoint code (src/softcheckpoint.cpp:47-75) calls `SetBestChain` directly.
* Saved entries of the name index are shared between forks. Connecting a block again after a rival at the same height
  can leave an entry that leads back to that block, and a lookup then never ends (`RivalNeverEnds`, a run in which every
  chain is longer than the one before; `ReconnectAfterRivalLoops`). After a reorganisation that succeeds all lookups are
  right if and only if every block was loop free when it was connected (`ConnectExact`, `SwitchExact`).
* A reorganisation that is refused half way has rewritten the name index, and its check may have erased entries, while
  the height vector stays. All lookups are right afterwards if and only if the refusal was `Harmless`: no user of the
  disconnected blocks is led off its newest registration, no user of a block that was connected is on the old chain, and
  no user checked by the refused block is registered only above it (`RefusedExact`, `LeftRightIff`; `RefusedFindsOlder`
  and `ErasingLosesUser` drive the index there). Over whole histories lookups are right after every reorganisation if
  and only if every step was safe in this sense (`HistoriesExact`), which holds when no block is connected twice and no
  refusal does harm (`HistoriesKeepLookupsRight`). The switches of a node, in any run of accepted blocks, are such a
  history (`NodeHistoriesExact`).
* A partial Merkle tree is documented to need at most 2N-1 flag bits for N hashes. A node with a single child costs a
  bit more: the bound holds if and only if no odd level has a match below the parent of its last node
  (`BitsWithinPromise`, `PromiseBroken`). The documented bound on the whole size holds (`SizeWithinPromise`).
* The eviction from a full "tried" bucket is documented to favour entries tried less recently. `SelectTried` finds that
  entry among four drawn ones but returns the position it was drawn from. What is evicted is one of the least recent
  of those drawn if and only if that position is one of the front places and the entry drawn to it is as old
  (`EvictionExact`, `EvictsOldestIff`); `EvictsMostRecent` evicts the entry with the most recent success of a full bucket.
* `limitedmap` is documented to keep the N elements with the highest value. It keeps N-1, and a new low value
  displaces the lowest stored one (`LowValueDisplacesHigh`). Throughout a run of insertions the stored values are the
  highest if and only if no insertion drops a value above the one it stores (`HighestIff`).
* `GetDistanceBack` is right if and only if some scheduled entry lies between the fork and the genesis block;
  otherwise the hit is the genesis entry added at the end and the distance is too large (`FindsFork`,
  `DistanceOvershoots`).
* `SetCompact(GetCompact(n))` is the rounded n if and only if the size of n fits its byte (`RoundTrip`,
  `SizeOverflows`), and the minimum work rule is monotone in time if and only if the base target is not negative or, on
  the test network, its fourfold no longer fits that byte (`MinWorkMonotoneIff`, `NegativeBaseFalls`).
* `UpdateTime` yields an acceptable time if and only if the time after the median fits 32 bits (`UpdateTime`,
  `TimeRunsOut`).

`ConnectBestBlock` may also refuse a chain with more work because it has fewer blocks: the length check in
`SetBestChain` means the best height never falls. The contracts say so, and name this as the only failure besides a
block that does not connect.

## Model

| member | source | states |
|---|---|---|
| `BlockTree.PathLinked` | src/main.cpp:1479-1486 | following `pprev` from any block gives a chain from the genesis block with consecutive heights |
| `BlockTree.SharedPrefix` | src/main.cpp:1286-1299 | two chains that share a block share everything below it |
| `BlockTree.PathPrefix` | src/main.cpp:1303-1308 | the path of a block on a path is the prefix of that path |
| `BlockTree.PathWork` | src/main.cpp:1486 | cumulative work grows strictly along every path |
| `BlockTree.WeighedStep` | src/main.cpp:1486 | where cumulative work is the sum along the path, every block adds its own work to that of the block below it |
| `BlockTree.WeighedExtend` | src/main.cpp:1479-1486 | a new entry that adds its work to that of its predecessor keeps every cumulative work the sum of the works along its path |
| `BlockTree.PathExtend` | src/main.cpp:1467-1486 | a new entry changes the path of no older entry |
| `BlockTree.ForkIsHighestCommonAncestor` | src/main.cpp:1286-1299 | the blocks on both chains are exactly those up to the fork |
| `BlockTree.GreatestCandidate` | src/main.h:810-821 | the work comparator is a total order, so a nonempty candidate set has a greatest element |
| `BlockTree.GreatestHasMostWork` | src/main.h:810-821 | the greatest candidate has the most work, and of those with as much the smallest hash |
| `ChainSelection.ChainState.constructor` | src/main.cpp:41-48 | the initial state satisfies the invariant: the vector is the path to the tip, the candidates are exactly the blocks not marked as failed, every mark has its cause, every block that broke a rule is marked, every block of the main chain was connected |
| `ChainSelection.ChainState.MainChainMembership` | src/main.h:743-751 | the height vector lookup decides membership of the `pprev` path to the best block, and a successor exists exactly below the tip |
| `ChainSelection.ChainState.FindFork` | src/main.cpp:1286-1299 | the two walks meet at the highest common block and never run off the chain; with no tip there is no fork |
| `ChainSelection.ChainState.WalkDown` | src/main.cpp:1301-1304 | exactly the blocks above the fork are disconnected, tip first |
| `ChainSelection.ChainState.ListConnect` | src/main.cpp:1306-1318 | the list is the part of the branch below its first failed block; everything from there up is marked and leaves the candidates, and nothing else |
| `ChainSelection.ChainState.DisconnectBranch` | src/main.cpp:1330-1348 | asks for the listed blocks in order; succeeds if and only if none is refused, and then the coin view stands at the fork |
| `ChainSelection.ChainState.ConnectBranch` | src/main.cpp:1350-1370 | asks for the listed blocks in order; succeeds if and only if none is refused, and then the coin view stands at the last one; otherwise the first refused block and its verdict are named; exactly the blocks before it were connected |
| `ChainSelection.ChainState.Register` | src/main.cpp:1400-1403 | the resized vector holds the connected blocks at their heights and keeps the rest |
| `ChainSelection.ChainState.InvalidChainFound` | src/main.cpp:959-976 | the best invalid work is the maximum seen |
| `ChainSelection.ChainState.PlanSwitch` | src/main.cpp:1286-1319 | both lists are the branches above the true fork; the whole branch is listed if and only if it is clean; a clean branch changes no mark |
| `ChainSelection.ChainState.ReplaceBranch` | src/main.cpp:1321-1370 | first all disconnects, then the connects, each in turn; succeeds if and only if no block is refused; otherwise tip and vector stay as they were and the invariant is kept |
| `ChainSelection.ChainState.AdoptTip` | src/main.cpp:1372-1429 | tip, height, work and coin view move together; the vector is the new path if and only if the whole branch was connected |
| `ChainSelection.ChainState.AdoptBranch` | src/main.cpp:1372-1429 | after the connects the invariant holds for the new tip if and only if all of its branch was connected |
| `ChainSelection.ChainState.SetBestChain` | src/main.cpp:1280-1429 | on success the vector is exactly the path to the new tip if and only if no block of the branch had failed; it fails if and only if the branch is too short or a block is refused, and then tip and vector are unchanged; no failed block is asked about; the best height never falls |
| `ChainSelection.ChainState.PerformSwitch` | src/main.cpp:1325-1429 | for a branch that is long enough: all moves to the new tip or nothing does; the vector is the new path and the invariant holds if and only if the whole branch was connected; the attempt is recorded |
| `ChainSelection.ChainState.InvalidBlockFound` | src/main.cpp:978-987 | a block that broke a rule is marked and leaves the candidates, so that every block that broke a rule is marked again; without a main-chain successor nothing else moves; the invariant is kept; the best invalid work never falls and covers the refused block; were it followed on the main chain, the best chain has the most work afterwards, or a block was refused, or a branch is too short |
| `ChainSelection.ChainState.WalkAncestry` | src/main.cpp:1003-1037 | the walk ends at the first failed block, the main chain or the root; collected are exactly the blocks with more work than the best |
| `ChainSelection.ChainState.MarkDescendants` | src/main.cpp:1009-1015 | exactly the blocks between the candidate and the failed block are marked |
| `ChainSelection.ChainState.RejectCandidate` | src/main.cpp:1007-1018 | the candidate set shrinks strictly; the best invalid work never falls and covers the refused block |
| `ChainSelection.ChainState.CheckAncestry` | src/main.cpp:1003-1037 | a candidate is either clean with its blocks to attach, or failed and removed |
| `ChainSelection.ChainState.BlameBlock` | src/main.cpp:1358-1361 | a block that broke a rule is marked; it is not on the main chain, so tip and vector stay; the best invalid work never falls and covers the refused block |
| `ChainSelection.ChainState.AttachNext` | src/main.cpp:1028-1029 | one switch succeeds and moves the tip, or fails for a refused block or a branch that is too short |
| `ChainSelection.ChainState.AttachAll` | src/main.cpp:1024-1034 | every switch goes to a block with strictly more work, up to the candidate |
| `ChainSelection.ChainState.ConnectBestBlock` | src/main.cpp:989-1039 | terminates; every switch strictly raises the work; on success no block outside the failed ones has a path with a larger sum of work than the path to the best block, and after a switch none of the same work has a smaller hash; on failure a block was refused or a branch with more work is too short; the invariant is kept, with cumulative work the sum along each path |
| `ChainSelection.ChainState.AddEntry` | src/main.cpp:1467-1492 | a new entry is a candidate and disturbs neither the main chain nor any path |
| `ChainSelection.ChainState.AcceptBlock` | src/main.cpp:1467-1514 | accepting any block in any state keeps the invariant, in which cumulative work is the sum of the works that the blocks of a path were accepted with; the new block stands above its predecessor with its work and no older entry changes; duplicates and orphans are refused; on success no block outside the failed ones has a path with a larger sum than that to the tip, ties going to the smallest hash; the recorded attempts still account for every question asked and lead to the main chain |
| `ChainSelection.RegisteredIff` | src/main.cpp:1400-1403 | the registered vector is the new path if and only if the whole branch was connected |
| `ChainSelection.CleanIff` | src/main.cpp:1308-1318 | the listing covers the branch if and only if no block off the main chain had failed |
| `ChainSelection.ShortIff` | src/main.cpp:1306-1323 | the length check fails if and only if the new branch ends, or has a failed block, below the height of the best block |
| `ChainSelection.ClimbingSuffix` | src/main.cpp:1020-1034 | attaching the blocks above the best work climbs at every switch and ends at the candidate |
| `ChainSelection.CauseBelow` | src/main.cpp:1007-1018 | every block marked as failed has a block on its path that broke a rule when it was to be connected |
| `SwitchLog.AttemptMade` | src/main.cpp:1330-1370 | the questions of a switch are those of its plan up to the first bad answer, and it succeeds if and only if all were answered well |
| `SwitchExample.FailedBranchBreaksVector` | src/main.cpp:1306-1403 | six blocks accepted in turn, the fifth of which breaks a rule: the switch to the sixth succeeds and leaves a height vector that is not its path, so the invariant is gone |
| `TxIndex.Newest` | src/main.cpp:651-701 | reference: the highest block up to a height that registers the user |
| `TxIndex.ConnectKeepsSound` | src/main.cpp:1208-1262 | every entry still is a registration of its own user |
| `TxIndex.ConnectKeepsAgreement` | src/main.cpp:1208-1262 | connecting a loop-free block keeps the index in agreement with the chain |
| `TxIndex.DisconnectKeeps` | src/main.cpp:1074-1096 | disconnecting the tip keeps soundness and agreement, with no condition |
| `TxIndex.LookupRight` | src/main.cpp:660-697 | the walk along saved entries ends with the answer of the scan, within as many rounds as the chain is high |
| `TxIndex.AgreementMakesLookupsRight` | src/main.cpp:651-701 | agreement makes every lookup of every user at every height right |
| `TxIndex.LookupsRightIff` | src/main.cpp:651-701 | for a sound index all lookups of all users at all heights are right if and only if it agrees with the chain |
| `TxIndex.RingForever` | src/main.cpp:660-697 | when saved entries lead back to where they started, the loop of a lookup runs for any number of rounds |
| `TxIndex.ConnectExact` | src/main.cpp:1208-1262 | all lookups are right after connecting if and only if the block was loop free |
| `TxIndex.ConnectAgreesIff` | src/main.cpp:1208-1262 | the index agrees with the longer chain if and only if the block was loop free |
| `TxIndex.UnreferencedIsLoopFree` | src/main.cpp:1221-1227 | a block that no entry leads to is loop free |
| `TxIndex.ReconnectAfterRivalLoops` | src/main.cpp:1074-1096 | a history with a rival block at the same height that is not loop free |
| `TxIndex.DisconnectUndoesConnect` | src/main.cpp:1074-1096 | disconnecting the block just connected restores every lookup |
| `NameSwitch.SwitchExact` | src/main.cpp:1330-1403 | after the disconnects and connects of a reorganisation and the change of the height vector, all lookups are right if and only if every block was loop free when it was connected |
| `NameSwitch.BrokenForGood` | src/main.cpp:1208-1262 | a saved entry that is wrong for the new chain while it is being connected leaves the index in disagreement with it at the end |
| `NameSwitch.ErasesMeans` | src/main.cpp:733-742 | the check erases a latest entry only of a user registered on the old chain above the height of the block |
| `NameSwitch.ErasesIff` | src/main.cpp:733-742 | while the index agrees with the chain, the check erases exactly the users whose registrations all lie above the height of the block |
| `NameSwitch.LostIff` | src/main.cpp:1183-1200 | a refused block has lost no entry if and only if none of the users checked is registered only above it |
| `NameSwitch.RefusedExact` | src/main.cpp:1330-1370 | after a refused reorganisation all lookups on the unchanged chain are right if and only if it was harmless, a condition on the index and blocks before it |
| `NameSwitch.LeftRightIff` | src/main.cpp:1074-1096 | down to height 2, disconnecting without the rest leaves all lookups right if and only if no user of the disconnected blocks has a saved entry |
| `NameSwitch.FuelAgrees` | src/main.cpp:660-697 | a lookup that ends has one answer, however many more rounds are allowed |
| `NameIndex.NameIndex.constructor` | src/main.cpp:2267-2297 | the empty index agrees with the genesis block |
| `NameIndex.NameIndex.StoreBlock` | src/main.cpp:1660-1666 | a block with unique user names, stored but not connected, changes no answer and can be connected safely |
| `NameIndex.NameIndex.GetTransaction` | src/main.cpp:651-701 | terminates, in the middle of a reorganisation too; when the index agrees with the chain it finds the newest registration up to the given height, or reports that there is none |
| `NameIndex.NameIndex.CheckUsers` | src/main.cpp:1181-1201 | passes if and only if every registration is new, permitted after the one found, or only found above; otherwise it stops at the first that is not; exactly the latest entries of the users checked before and found only above are erased |
| `NameIndex.NameIndex.ListWrites` | src/main.cpp:1208-1230 | the batch points the users of the block to it and saves what they pointed to before |
| `NameIndex.NameIndex.ConnectBlock` | src/main.cpp:1181-1262 | a block that passes its check is entered; one that does not has lost the erased entries and entered nothing |
| `NameIndex.NameIndex.DisconnectBlock` | src/main.cpp:1074-1096 | saved entries come back and nothing else changes |
| `NameIndex.NameIndex.DisconnectDown` | src/main.cpp:1330-1348 | the index is that after disconnecting down to some height, which is the fork if and only if nothing was refused |
| `NameIndex.NameIndex.ConnectUp` | src/main.cpp:1350-1370 | each block is checked against the old vector; the first refused one is named with the reason, and the index then is exactly what was written and erased up to there |
| `NameIndex.NameIndex.Reorganise` | src/main.cpp:1280-1403 | the vector changes only on success; then lookups are right if and only if every block was loop free; a refused reorganisation names its reason and how far it came, and lookups are right if and only if it was harmless; either way it is one step of a history |
| `NameHistory.MoveExact` | src/main.cpp:1280-1403 | one reorganisation, successful or refused, leaves all lookups right if and only if it is safe |
| `NameHistory.HistoriesExact` | src/main.cpp:1280-1403 | along every history of reorganisations, successful and refused, lookups are right after every one if and only if every one was safe |
| `NameHistory.HistoriesKeepLookupsRight` | src/main.cpp:1280-1403 | in every history that connects no block twice and whose refused reorganisations do no harm, every lookup of every user at every height is right after every one of them |
| `NodeHistory.RunIsHistory` | src/main.cpp:1280-1403 | the attempts of a node to switch chains, successful and refused, are a history of the name index that ends with its main chain |
| `NodeHistory.NodeHistoriesExact` | src/main.cpp:1465-1514 | in every state that accepted blocks can lead to, whatever blocks were refused for: all lookups were right after every switch of the node if and only if every switch was safe |
| `NameExamples.RivalNeverEnds` | src/main.cpp:651-701 | an index driven to a branch, to a longer rival and, longer still, back: the lookup of a user never ends |
| `NameExamples.RefusedFindsOlder` | src/main.cpp:1330-1370 | an index driven through a history without repetition whose last reorganisation is refused at its second block: the lookup finds the older registration although the newer one is still on the chain |
| `NameExamples.ErasingLosesUser` | src/main.cpp:733-742 | an index driven to a reorganisation whose first block erases one user and is refused for the next: the lookup of the first finds nothing although the registration is still on the chain |
| `AddrMan.AddrMan.constructor` | src/addrman.h:383-391 | the empty manager is consistent |
| `AddrMan.AddrMan.Find` | src/addrman.cpp:81-92 | finds exactly the entry of the address |
| `AddrMan.AddrMan.SwapRandom` | src/addrman.cpp:106-124 | swaps two places of the random vector and keeps it inverse to the remembered positions |
| `AddrMan.AddrMan.CreateEntry` | src/addrman.cpp:94-104 | a new entry with the announced address, services and penalised time and its source, under the next number and at the end of the random vector; every other entry is unchanged |
| `AddrMan.AddrMan.Forget` | src/addrman.cpp:162-169 | removes one entry from all indexes, filling its random position |
| `AddrMan.AddrMan.Unreference` | src/addrman.cpp:162-170 | an untried entry loses one reference and is forgotten exactly when it was its last; every other entry keeps its data but for its random position; the tables stay consistent |
| `AddrMan.AddrMan.OldestOfFour` | src/addrman.cpp:175-188 | the entry with the smallest time among four picked ones |
| `AddrMan.AddrMan.ShrinkNew` | src/addrman.cpp:150-202 | a terrible entry of the bucket is dropped if there is one, otherwise the one with the smallest time of four; none tried in the last minute is dropped as terrible; only an untried entry is ever forgotten, with its last reference, and all others keep their data |
| `AddrMan.AddrMan.SelectTried` | src/addrman.cpp:126-148 | the bucket is shuffled by exactly the draws made, and the position returned is the one from which the first entry with the least recent success of those drawn was taken |
| `AddrMan.AddrMan.LeaveNew` | src/addrman.cpp:206-216 | the entry leaves every bucket and its count reaches zero, so the assertion holds |
| `AddrMan.AddrMan.EvictFor` | src/addrman.cpp:228-259 | the entry the draws give up changes places with the new one and goes to the "new" bucket of its hash, or when that is full to the one the new entry came from; nothing else changes |
| `AddrMan.AddrMan.MakeTried` | src/addrman.cpp:204-260 | the entry is tried afterwards; an entry is evicted if and only if the bucket was full, and it is the one the draws give up, otherwise the entry goes to the end of the bucket; every other entry is unchanged and the tables stay consistent |
| `AddrMan.AddrMan.FindBucket` | src/addrman.cpp:290-307 | an untried entry is always found in some bucket |
| `AddrMan.AddrMan.Good_` | src/addrman.cpp:262-311 | the entry with exactly this address and port gets its times and is tried; an entry is evicted if and only if it was untried and its bucket full, and it is the one the draws give up; all other entries are unchanged |
| `AddrMan.AddrMan.Refresh` | src/addrman.cpp:322-356 | time and services of a known entry are updated exactly when outdated; one more reference exactly for news of an untried entry below the limit, when the draw is a multiple of two to the number of its references |
| `AddrMan.AddrMan.AddToBucket` | src/addrman.cpp:359-368 | the bucket of its hash and the announcing source afterwards holds the entry, with one reference more if it was not there; exactly when that bucket was full another entry goes, a terrible one if there is any; no other bucket changes and all other entries keep their data |
| `AddrMan.AddrMan.Add_` | src/addrman.cpp:313-369 | new exactly when the address is routable and unknown, and then recorded with its data and one reference in the bucket of the announcing source; a known one is refreshed and exactly when it should spread is in that bucket too; only from a full bucket an entry goes, a terrible one if there is any; all other entries keep their data except that this untried entry loses a reference, and with its last one is forgotten; a tried entry never is |
| `AddrMan.AddrMan.AddKnown` | src/addrman.cpp:320-350 | a known address is refreshed and, exactly when it should spread, in the bucket of the announcing source; all others keep their data but one untried entry of that bucket, if it was full, that loses a reference |
| `AddrMan.AddrMan.AddUnknown` | src/addrman.cpp:351-369 | a new address is recorded with its data in the bucket of the announcing source, from which an entry goes exactly when it was full |
| `AddrMan.AddrMan.Attempt_` | src/addrman.cpp:371-388 | exactly the last try and the attempts of the known address change |
| `AddrQuality.AttemptAll` | src/addrman.cpp:371-388 | any number of attempts leaves the last time and the number of them |
| `AddrQuality.AfterSuccess` | src/addrman.cpp:38-56 | an entry that was good at t and then tried in vain is terrible if and only if the last try is more than a minute ago and t more than thirty days, or a week with ten tries |
| `AddrQuality.AfterLearning` | src/addrman.cpp:38-56 | a new entry tried in vain is terrible if and only if the last try is more than a minute ago and it was not seen lately or was tried three times |
| `AddrQuality.TerribleStays` | src/addrman.cpp:38-56 | a terrible entry stays so with more attempts, an older time and, unless its time is in the future, at any later time |
| `AddrQuality.RefreshedTime` | src/addrman.cpp:322-327 | after an announcement the time of an entry is at most an hour or a day and the penalty behind it, is never set back, and moves only by more than that |
| `AddrMan.AddrMan.Connected_` | src/addrman.cpp:510-528 | exactly the time of the known address changes, when it is more than twenty minutes old |
| `AddrMan.AddrMan.GetAddr_` | src/addrman.cpp:494-508 | as many distinct entries as the percentage and the cap allow, each with its address, services and time; only the random order changes |
| `AddrTables.SizeBound` | src/addrman.cpp:435-491 | consistent tables never hold more than 256*64 + 64*64 addresses |
| `AddrTables.UntriedIsSomewhere` | src/addrman.cpp:476-488 | an untried entry is in some "new" bucket |
| `TriedDraws.SourceRight` | src/addrman.cpp:134-141 | which entry of the bucket is where after the draws |
| `TriedDraws.SourceOnce` | src/addrman.cpp:134-141 | the draws lose and repeat no entry |
| `TriedDraws.DrawnStays` | src/addrman.cpp:134-141 | a drawn entry stays at the front place it was drawn to |
| `TriedDraws.EvictionExact` | src/addrman.cpp:126-148 | the evicted entry is the one meant if and only if that was drawn from its own place, is one of those drawn if and only if it was drawn from a front place, and is no more recent than any drawn one under an exact condition on bucket and draws |
| `TriedDraws.EvictsOldestIff` | src/addrman.h:115-116 | in consistent tables an eviction hits one of the least recent of the drawn entries if and only if a condition on bucket, times and draws holds that can be told before it |
| `EvictionExample.FullManager` | src/addrman.cpp:222-227 | 64 addresses, each learnt and then found good, fill a "tried" bucket |
| `EvictionExample.EvictsMostRecent` | src/addrman.cpp:204-260 | a success of one more address evicts, from that bucket of 64, the entry whose own success is more recent than that of all the others |
| `EvictionExample.FullBucketEvictsMostRecent` | src/addrman.cpp:204-260 | the same from the empty manager on |
| `AddrDump.WriteUntried` | src/addrman.h:284-296 | the untried entries in id order, and the index that each of them gets |
| `AddrDump.WriteTried` | src/addrman.h:297-307 | the tried entries in id order |
| `AddrDump.WriteBucket` | src/addrman.h:308-318 | the members of a bucket as indexes |
| `AddrDump.Serialize` | src/addrman.h:280-318 | what is written determines all entries, counters and bucket memberships |
| `AddrDump.ReadUntried` | src/addrman.h:328-341 | the untried entries come back under consecutive ids |
| `AddrDump.RoomLeft` | src/addrman.h:343-360 | a bucket still missing an entry is not full while reading |
| `AddrDump.ReadTried` | src/addrman.h:342-361 | every tried entry comes back in its bucket and none is lost |
| `AddrDump.ReadBucket` | src/addrman.h:364-377 | a bucket gets its members back and reference counts stay exact |
| `AddrDump.Deserialize` | src/addrman.h:319-379 | nothing is lost, the tables are a copy up to ids, random order and last try, and they are consistent |
| `AddrDump.CopyConsistent` | src/addrman.cpp:435-491 | a copy of consistent tables is consistent |
| `AddrMan.AddrMan.Serialize` | src/addrman.h:249-381 | the dump encodes the tables |
| `AddrMan.AddrMan.Deserialize` | src/addrman.h:249-381 | whatever the manager held before, it then holds a consistent copy and has lost nothing |
| `Merkle.WidthIff` | src/main.h:452-455 | a node exists at a level exactly when its first leaf does |
| `Merkle.WidthHalves` | src/core.cpp:220 | each level has half as many nodes as the one below, rounded up, as the flat construction counts them |
| `Merkle.RootOfThree` | src/core.cpp:214-231 | the left one of a pair comes first, and the last of an odd level is paired with itself |
| `Merkle.AppendLevel` | src/core.cpp:222-228 | one pass appends exactly the next level, odd widths included |
| `Merkle.MerkleBlock.BuildMerkleTree` | src/core.cpp:214-231 | the last element of the flat array is the root of the recursive definition; an empty block gives the zero hash |
| `Merkle.MerkleBlock.GetMerkleBranch` | src/core.cpp:233-247 | the branch holds the sibling at every level, building the tree first if need be |
| `Merkle.CheckMerkleBranch` | src/core.cpp:249-262 | hashes up along the branch; index -1 gives the zero hash |
| `Merkle.BranchClimbs` | src/core.cpp:249-262 | from any level the rest of a branch leads to the root |
| `Merkle.BranchProves` | src/core.cpp:233-262 | the branch of every transaction checks against the root of the recursive definition |
| `Merkle.BranchIsSound` | src/core.cpp:249-262 | at a position only the transaction there passes the check with a branch of full length |
| `MerkleBinding.NodeBinds` | src/main.cpp:1651-1658 | equal hashes of a node over two lists without repeated transactions mean the same transactions below it |
| `MerkleBinding.RootBinds` | src/main.cpp:1651-1658 | two lists without repeated transactions, of any lengths, that have the same Merkle root are the same list |
| `MerkleBinding.RepeatedHasSameRoot` | src/main.cpp:1651-1658 | repeating the last of three transactions gives the same root, which is what the check for duplicates is for |
| `MerkleBinding.ClimbsFromNode` | src/core.cpp:249-262 | whatever a branch starts from is a node of the tree when its end is |
| `MerkleBinding.AnyBranchIsSound` | src/core.cpp:249-262 | a branch of any length and for any position that leads from a transaction to the root has the full length, and the transaction is in the block, at its position when there is one |
| `PartialMerkle.PartialMerkleTree.constructor` | src/main.cpp:1972-1984 | stores what the traversal from the root builds |
| `PartialMerkle.PartialMerkleTree.TreeHeight` | src/main.cpp:1977-1980 | the first level with at most one node |
| `PartialMerkle.PartialMerkleTree.IsParentOfMatch` | src/main.cpp:1925-1928 | whether a matched transaction lies below the node |
| `PartialMerkle.PartialMerkleTree.TraverseAndBuild` | src/main.cpp:1924-1940 | appends exactly the bits and hashes of the subtree |
| `PartialMerkle.PartialMerkleTree.TraverseAndExtract` | src/main.cpp:1942-1970 | refines the extraction function, counters, matches and failure flag included |
| `PartialMerkle.PartialMerkleTree.ExtractMatches` | src/main.cpp:1988-2019 | returns the outcome function, whose acceptances are sound and round-trip and whose refusals leave no spare data |
| `PartialMerkle.PartialMerkleTree.Serialize` | src/main.h:481-486 | the flag bits in bytes, least significant first, zero padded |
| `PartialMerkle.PartialMerkleTree.Deserialize` | src/main.h:473-480 | every bit of the bytes, and a cleared failure flag |
| `PartialMerkle.Pack` | src/main.h:482-484 | packing sets exactly the flags |
| `PartialMerkle.Unpack` | src/main.h:477-479 | unpacking reads every flag |
| `PartialMerkle.FlagIsBit` | src/main.h:477-484 | flag p is bit p mod 8 of byte p div 8, counted from the least significant one |
| `PartialMerkle.ExtractBuilt` | src/main.cpp:1924-1970 | extracting what was built gives the hash of the node and the matches below it in order and uses exactly that data |
| `PartialMerkle.RoundTrip` | src/main.cpp:1972-2019 | build, pack, unpack and extract gives the Merkle root and exactly the matched transactions in order |
| `PartialMerkle.ExtractIsSound` | src/main.cpp:1942-1970 | for arbitrary bits and hashes: a node with its true hash has only true transactions below it, at increasing positions |
| `PartialMerkle.OutcomeIsSound` | src/main.cpp:1988-2019 | for arbitrary data with the true count: the true root means that all matches are transactions of the block at strictly increasing positions |
| `PartialMerkle.ExtractExtended` | src/main.cpp:1942-1970 | what a successful traversal gives does not depend on data behind what it used |
| `PartialMerkle.OneLength` | src/main.cpp:2009-2019 | of data that differ by what is appended, in bits or hashes, all that is accepted has the same hashes and flag bytes and gives the same result |
| `PartialMerkle.NoSpareData` | src/main.cpp:1988-2019 | nothing is accepted for 0 or more than 833 transactions; what is accepted is refused with a hash more, a hash less, eight bits more or fewer flag bytes, and unchanged by padding within the last byte |
| `PartialMerkle.ExtractBinds` | src/main.cpp:1942-1970 | for the same flags the hash of a node determines every stored hash below it |
| `PartialMerkle.DamageIsNoticed` | src/test/pmt_tests.cpp:86-93 | with the flags left alone, the root is the same if and only if the hashes are |
| `PartialMerkle.HashCount` | src/main.h:423-427 | below any node: no more hashes than leaves, and no more than one plus height times matches |
| `PartialMerkle.StoredHashes` | src/main.h:423-427 | at most min(n, 1 + matches * height) hashes |
| `PartialMerkle.BitCount` | src/main.h:434 | bits are twice the hashes minus one, plus one for every single child descended into |
| `PartialMerkle.BitsWithinPromise` | src/main.h:434 | the documented 2N-1 bits hold if and only if no odd level has a match below the parent of its last node |
| `PartialMerkle.PromiseBroken` | src/main.h:434 | five different transactions of which the last is matched need more than 2N-1 bits |
| `PartialMerkle.SizeWithinPromise` | src/main.h:418-435 | for every block within the size cap and every mask the serialized tree has at most 10 + ceil(32.25 N) bytes for N stored hashes |
| `PartialMerkle.WireWithinPromise` | src/main.h:418-435 | the bytes of the serialized tree are as many as that, so within the documented bound |
| `Framing.SizeField` | src/protocol.h:34-57 | the size field of the header is read back as written, least significant byte first |
| `CompactSize.ReadWrite` | src/serialize.h:164-236 | a count is read back together with what follows it, or refused when it is too large, and takes exactly the bytes it is said to take |
| `Framing.SendQueue.constructor` | src/net.h:238-275 | nothing queued, nothing sent |
| `Framing.SendQueue.BeginMessage` | src/net.h:399-406 | starts a message with room for size and checksum |
| `Framing.SendQueue.Write` | src/net.h:475-489 | appends to the message under construction and leaves the queue alone |
| `Framing.SendQueue.EndMessage` | src/net.h:420-456 | queues exactly one frame with the right size and checksum; sends at once only when nothing was waiting; what is left in the queue, and how far its head has gone out, is stated exactly |
| `Framing.SendQueue.SocketSendData` | src/net.cpp:713-753 | for any partial sends: what was sent followed by what waits is all that was queued, the size counter is exact, whole frames go out until one does not fit, and the assertions hold |
| `Framing.RecvQueue.ReadHeader` | src/net.cpp:661-691 | takes header bytes as the byte-wise parser does; an announced size above the limit is an error |
| `Framing.RecvQueue.ReadData` | src/net.cpp:693-702 | takes data bytes up to the announced size |
| `Framing.RecvQueue.ReceiveMsgBytes` | src/net.cpp:633-659 | terminates, and gives the state of the byte-wise parser for the chunk, errors included |
| `Framing.FeedConcat` | src/net.cpp:633-659 | parsing does not depend on where the stream is cut |
| `Framing.FeedFrame` | src/net.cpp:633-702 | a whole frame gives its message, a part of one an incomplete message |
| `Framing.OversizeRefused` | src/net.cpp:682-684 | a frame is refused if and only if its payload is above the limit |
| `Framing.ChunksDoNotMatter` | src/net.cpp:633-659 | feeding chunk after chunk is feeding the whole |
| `Framing.Delivery` | src/net.cpp:633-753 | for any messages pushed, any prefix sent and any chunking received, the completed messages are a prefix of those pushed, and all of them once everything arrived |
| `Locator.BlockLocator.constructor` | src/main.h:964-967 | a locator as received |
| `Locator.BlockLocator.StepBack` | src/main.cpp:185-187 | follows `pprev` a number of times or past the first block |
| `Locator.BlockLocator.Set` | src/main.cpp:177-192 | entries at distances 0 to 11, 13, 17, 25, ... below the tip, and then the genesis block |
| `Locator.BlockLocator.GetBlockIndex` | src/main.cpp:215-229 | the first entry on the main chain, or the genesis block, for any locator |
| `Locator.BlockLocator.GetDistanceBack` | src/main.cpp:194-213 | the scheduled distance of the first entry on the main chain, for any locator |
| `Locator.NextEntry` | src/main.cpp:180-190 | the step doubles after the eleventh entry, counted by entries or by distance |
| `Locator.HitAtFork` | src/main.cpp:215-229 | the first shared entry is the first at or below the fork |
| `Locator.FindsFork` | src/main.cpp:177-229 | for a branch x above its fork the answer is a block of both chains, exactly x back when x is at most 11 and at most 2x - 11 back otherwise; the computed distance is right if and only if a scheduled entry lies in between |
| `Locator.AnswersNearFork` | src/main.cpp:177-229 | for any two chains with the same genesis block there is a fork, and the answer to a locator lies on both chains, at the fork when it is near and at most twice as far back otherwise |
| `Locator.DistanceOvershoots` | src/main.cpp:194-213 | with thirteen blocks of which only the genesis block is shared, the distance comes out as 13 instead of 12 |
| `Locator.LengthIsLogarithmic` | src/main.cpp:177-192 | a locator of more than 12 entries has two to the power of the excess below the chain length |
| `CompactTarget.Parts` | src/bignum.h:310-330 | mantissa and exponent of any number: mantissa below 2^23, and at least 2^15 unless the number is zero |
| `CompactTarget.RoundTrip` | src/bignum.h:289-330 | decoding an encoding gives the rounded number with its sign if and only if the size fits its byte |
| `CompactTarget.SizeOverflows` | src/bignum.h:289-330 | 256^255 has a size that does not fit its byte and decodes to zero |
| `CompactTarget.RoundKeepsParts` | src/bignum.h:289-330 | rounding never goes up, loses less than one part in 2^15, and keeps exponent and mantissa |
| `CompactTarget.Stable` | src/bignum.h:289-330 | encoding, decoding and encoding again gives the same header field; rounding is idempotent |
| `CompactTarget.CompactValues` | src/test/bignum_tests.cpp:142-167 | the values that the tests give for fields of every size and sign |
| `CompactTarget.RoundMonotone` | src/bignum.h:289-330 | rounding is monotone |
| `Difficulty.Ordinary` | src/main.cpp:878-882 | the last block at or below a height that starts an interval or does not carry the minimum difficulty |
| `Difficulty.GetNextWorkRequired` | src/main.cpp:858-917 | the rule for either network, whose effect the next rows state; the walk back never leaves the chain, so the assertion holds |
| `Difficulty.Adjust` | src/main.cpp:893-917 | the adjustment function, whose effect the next rows state |
| `Difficulty.RetargetBounds` | src/main.cpp:895-917 | one adjustment stays at most min(limit, four times the target) and at least the rounded min(limit, a quarter) |
| `Difficulty.Adjusted` | src/main.cpp:888-917 | at the end of an interval the new target is exactly the rounded quarter when a quarter of the intended time or less has passed, the rounded fourfold for four times or more, in proportion between, and the same for the intended time, within the limit |
| `Difficulty.SlowerIsEasier` | src/main.cpp:888-917 | of two chains that end with the same target, the one whose last interval took longer gets a target at least as large |
| `Difficulty.TestNetWithinInterval` | src/main.cpp:868-885 | along every chain of the test network a block within an interval carries the limit if it comes more than twenty minutes after the last one, and otherwise the target with which the interval began |
| `Difficulty.TargetsStayInRange` | src/main.cpp:858-917 | along every chain that follows the rule, on either network, every target stays between zero and the limit |
| `Difficulty.ConstantWithinInterval` | src/main.cpp:866-886 | off the test network the target changes only at the start of an interval |
| `Difficulty.ComputeMinWork` | src/main.cpp:836-856 | the closed form: the base times four for every started four timespans, capped |
| `Difficulty.MinWorkAfter` | src/main.cpp:836-856 | the decoded result: four times the base for every started period of four timespans, within the limit and rounded; the limit after twenty minutes on the test network |
| `Difficulty.AdjustmentWithinMinWork` | src/main.cpp:832-856 | what one adjustment requires is never easier than what is allowed for the time its interval took, on either network |
| `Difficulty.MinWorkMonotone` | src/main.cpp:836-856 | for a base that is not negative, more time never asks for more work, on either network |
| `Difficulty.MinWorkMonotoneIff` | src/main.cpp:836-856 | the rule is monotone if and only if the base is not negative or, on the test network, its fourfold does not fit the size byte; for every base that a 32-bit field holds |
| `Difficulty.NegativeBaseFalls` | src/main.cpp:836-856 | for every negative base that a 32-bit field holds there are two times, the later of which asks for a lower target |
| `Difficulty.NegativeOnTestNet` | src/main.cpp:836-856 | on the test network a negative base is monotone if and only if its fourfold does not fit the size byte |
| `Difficulty.WorkPositiveIff` | src/main.h:734-741 | a block has positive work if and only if its target is positive and below 2^256 |
| `Difficulty.WorkFillsSpace` | src/main.h:734-741 | the work is how many times the target plus one fits into 2^256 |
| `Difficulty.WorkAntitone` | src/main.h:734-741 | a harder target is at least as much work |
| `Difficulty.AcceptedWorkIsPositive` | src/main.cpp:926-930 | a target within the limit of the network adds work, as the block tree needs |
| `Difficulty.LimitEncodable` | src/chainparams.cpp:35 | the limit of the network is encodable |
| `BlockTime.GetMedianTimePast` | src/main.h:761-775 | the upper median of the last eleven block times, or of all when there are fewer |
| `BlockTime.MedianUnique` | src/main.h:761-775 | there is only one median |
| `BlockTime.MedianStep` | src/main.cpp:1699-1701 | one more block that obeys the rule does not lower the median, full window or not |
| `BlockTime.MedianNeverDecreases` | src/main.cpp:1699-1701 | along every chain that obeys the rule the median time past never decreases |
| `BlockTime.CheckHeader` | src/main.cpp:1695-1701 | a header is taken if and only if it carries the required target and is later than the median |
| `BlockTime.UpdateTime` | src/main.cpp:1041-1048 | the new time obeys the rule if and only if the time after the median fits 32 bits, for a clock that does; a target that was the required one still is, and on the test network any becomes it |
| `BlockTime.TimeRunsOut` | src/main.cpp:1041-1048 | after a median of 2^32-1 the time that is set wraps around to zero and breaks the rule |
| `Base58.SetvchGetvch` | src/bignum.h:240-265 | every integer comes back from its byte format, negative ones included |
| `Base58.FindsItself` | src/base58.h:27 | no character of the alphabet occurs twice |
| `Base58.AlphabetIs` | src/base58.h:27 | the alphabet has exactly the digits and letters other than 0, O, I and l, in the order of their codes |
| `Radix.ConvertBack` | src/base58.h:30-122 | changing base and back restores every digit sequence, zeros at the top included |
| `Base58.EncodeBase58` | src/base58.h:30-68 | computes the text of a byte string |
| `Base58.EncodedNumber` | src/base58.h:30-68 | text and bytes, both read from the left, stand for the same number, and the text begins with as many ones as there are zero bytes in front |
| `Base58.DecodeBase58` | src/base58.h:78-122 | computes the bytes of a text, ignoring white space around it, and refuses anything else |
| `Base58.Spaced` | src/base58.h:84-99 | white space before and after does not change what a text stands for |
| `Base58.OnlySpaced` | src/base58.h:84-99 | every accepted text is an alphabetic text between white space |
| `Base58.DecodeEncode` | src/base58.h:30-122 | every byte string comes back from its text |
| `Base58.EncodeDecode` | src/base58.h:30-122 | every text over the alphabet is the text of the bytes it stands for |
| `Base58.EncodeBase58Check` | src/base58.h:135-142 | the text of the data followed by its checksum |
| `Base58.DecodeBase58Check` | src/base58.h:146-163 | true exactly for a matching checksum; otherwise the result is empty |
| `Base58.CheckRoundTrip` | src/base58.h:134-163 | for any checksum function every byte string comes back |
| `Base58.CheckUnique` | src/base58.h:134-163 | an accepted alphabetic text is the one text of its data |
| `Base58.Base58Data.constructor` | src/base58.h:187-191 | version zero and no data |
| `Base58.Base58Data.SetString` | src/base58.h:207-223 | true exactly for a checked text of at least a version byte; otherwise the object is reset |
| `Base58.Base58Data.ToString` | src/base58.h:230-235 | the checked text of version and data |
| `Base58.Base58Data.Reread` | src/base58.h:207-235 | reading back what was written restores version and data |
| `LimitedMap.InsertMirrors` | src/limitedmap.h:35-48 | inserting keeps one entry per key in the reverse index, in order |
| `LimitedMap.EraseMirrors` | src/limitedmap.h:49-65 | erasing keeps one entry per key in the reverse index, in order |
| `LimitedMap.Limited.constructor` | src/limitedmap.h:28 | an empty map with its limit |
| `LimitedMap.Limited.Insert` | src/limitedmap.h:35-48 | a present key is left alone; at the limit a least stored value makes room, before the new value counts; no stored value is below the dropped one if and only if the new one is not |
| `LimitedMap.Limited.Locate` | src/limitedmap.h:54-63 | the entry of a present key is always found, so the assertions after the loops are unreachable |
| `LimitedMap.Limited.Erase` | src/limitedmap.h:49-65 | exactly the key goes, from both indexes |
| `LimitedMap.Limited.Update` | src/limitedmap.h:66-84 | exactly the value of a present key changes, in both indexes |
| `LimitedMap.LowValueDisplacesHigh` | src/limitedmap.h:10 | at limit 3 the values 5, 6 and 1 leave 6 and 1 |
| `LimitedMap.HighestIff` | src/limitedmap.h:10-48 | throughout a run of insertions no stored value is below one that was dropped if and only if no insertion dropped a value above the one it stored |
| `LimitedMap.StaysFull` | src/limitedmap.h:35-48 | once a value was dropped the map holds one element less than its limit for ever |
| `LockedPages.TouchesIff` | src/allocators.h:60-63 | the pages from first to last are exactly those holding a byte of the range |
| `LockedPages.LoopEndsIff` | src/allocators.h:64 | the loop over the pages of a range ends if and only if the range does not reach the last page of the address space |
| `LockedPages.LockedPageManager.constructor` | src/allocators.h:48-54 | nothing is locked |
| `LockedPages.LockedPageManager.LockRange` | src/allocators.h:57-77 | every count stays the number of outstanding ranges that touch the page |
| `LockedPages.LockedPageManager.UnlockRange` | src/allocators.h:80-100 | the same for a range that was locked; no count is ever missing, so the assertion holds |
| `LockedPages.LockedPageManager.LockedIff` | src/allocators.h:35-45 | a page is locked if and only if an outstanding range touches it |
| `Accumulator.RaiseCommutes` | src/accumunet.cpp:88-102 | modular powers commute |
| `Accumulator.AdmitVerifies` | test-accumulator.py:27-33 | admitting a member keeps every member verifying, the new one with the old accumulator as witness |
| `Accumulator.EveryMemberVerifies` | test-accumulator.py:17-33 | after any sequence of admissions every member verifies, and the accumulator is the base raised to all exponents |
| `Accumulator.RaisedAnyOrder` | src/accumunet.cpp:88-102 | the order of exponents does not matter |
| `Accumulator.WitnessPasses` | src/accumunet.cpp:88-120 | a witness raised through everyone else's exponents, in any order, passes the check |
| `Accumulator.ModPowSteps` | src/accumunet.cpp:101 | modular powers gain one factor with each step of the exponent |
| `Accumulator.OneAccumulator` | src/accumunet.cpp:62-119 | nobody unregistered and nobody without a witness is an administrator; everyone else is for exactly one accumulator |
| `Accumulator.StaleWitness` | src/accumunet.cpp:88-119 | a witness last updated some admissions ago passes if and only if the accumulator is still what it was then |

## Left out

- Address selection for outgoing connections (`Select_`, `GetChance`): floating-point probabilities and a loop that ends only with probability one.
- AddrMan.AddrMan.Deserialize: reads what a consistent manager wrote with the same number of buckets; damaged dumps and dumps with another number of buckets are not modelled.
- AddrDump.Deserialize: as for the method of the manager.
- AddrMan.AddrMan.Attempt_: a negative time is left out, because the program's own consistency check forbids it for an entry.
- AddrMan.AddrMan.Good_: a time that is not positive is left out, because the entry would count as tried without a success, which the program's own consistency check forbids.
- ChainSelection.ChainState.InvalidBlockFound: a block that is already marked is left out; its callers pass a block that has just been refused and was not marked before.
- ChainSelection.ChainState.InvalidChainFound: the program prints the time of the best block, which it reads through a null pointer when there is no best block yet (src/main.cpp:971-973); the model has no output and so not this failure.
- Validation of blocks: an arbitrary function answers every attempt to connect or disconnect a block.
- Memory pool, wallet notification, disk flushes and write failures around `SetBestChain`.
- NameIndex.NameIndex.ConnectBlock: a failure to write undo data after the check of the names has passed is left out; it would leave the erased entries of the whole block.
- `VerifyDB` at check level 4 (src/main.cpp:2211-2236), which disconnects and connects blocks at start-up and so writes the name index while the height vector stays.
- `CDiskTxPos` as file, position and offset: a position is a block and a place among its registrations; the comparison of positions is by block, as the code compares only file and position.
- Hash collisions: block hashes, pair hashes and index keys are free of them.
- 32-bit overflow of the locator step for heights above 2^30, and of page counts and send counters.
- Framing of `-dropmessagestest`, protocol versions, and the checksum comparison after a message is complete.
- Mask arithmetic on page addresses: a page is named by its number.
- LockedPages.LockedPageManager.LockRange: ranges that reach the last page of the address space are excluded, because the loop then never ends (`LoopEndsIff`).
- LockedPages.LockedPageManager.UnlockRange: ranges that reach the last page of the address space are excluded, because the loop then never ends (`LoopEndsIff`).
- LimitedMap.Limited.constructor: the limit 1 is excluded, because inserting into the empty map then erases from an empty index; so is `limitedmap::max_size` as a setter.
- The search for the accumulator in the network, the mapping of names to primes and the counting of signatures.
- The key of the address manager and the bucket hashes: any functions into the right range.
- Threads and locks: each locked section is one step.
- The check queue (src/checkqueue.h), RPC, DHT proxy, cryptography.
- The header chain in the difficulty and time rules is a sequence by height, so a walk over `pprev` pointers is a walk over indexes.
