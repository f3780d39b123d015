# Shade Tree client: a verified model

Shade Tree is an anonymous egress network: a member proves membership and a fresh rate-limit
slot to a gateway reached through a Tor onion address. This project models the deterministic
core of its Rust client in Dafny and proves what that core is for: no slot is ever spent
twice, gateways are chosen in the promised shares, the member tree and its proofs are the
ones the padded Merkle tree defines, a signature covers exactly one record, and only
directories the pinned signers signed are ever used.

`dafny verify dfyconfig.toml` checks the whole project. The modules follow the program:

| files | what they model |
|---|---|
| `SlotAllocator`, `CursorFile` | the crash-safe slot allocator as a step machine, and the allocating code as a path through it |
| `AckFraming`, `Connect` | one connect call: spend a slot, prove once, fail over, read the acknowledgement |
| `Selection`, `SmoothWeighted`, `SpreadSelection` | the weighted pick, the failover order, smooth weighted round-robin |
| `MembershipTree`, `Leaves`, `Paging` | the level-array Merkle tree, the event replay that rebuilds it, the paged log fetch |
| `Json`, `Records`, `CapsCanon`, `CapsMeaning`, `SignedBytes`, `Encoders` | the canonical signed bytes, what they say when read back, and the encoders that append them piece by piece |
| `Positional`, `Onion`, `Hex`, `Verification`, `DirectoryTrust` | onion addresses, gateway bindings, M-of-N acceptance and what acceptance implies |
| `DirCache`, `Health` | the last-known-good directory cache and the cross-session health cache |
| `Common`, `Sorting` | shared values; stable sorting and what makes its result unique |

How the parts fit: `CursorFile` shows that `allocate` only takes steps of `SlotAllocator`,
alone or among other calls, so the safety theorem over all interleavings applies to it;
`Connect` calls it on the same path and carries that to envelopes on the wire. `Encoders` ties
the string-appending loops to JSON values whose printed text `Json` reads back; `SignedBytes`
turns that into "every field under its name" and "equal bytes, equal records", and
`DirectoryTrust` into "an accepted directory is what its signers signed". `DirCache` runs on
that acceptance rule, and `Health` feeds both failover orders.

Hashes, signature verification, the prover, JSON parsing and the network are arbitrary
functions or arbitrary inputs; each lemma states what it assumes of them. Random draws are an
arbitrary stream in [0, 1). Floating point is exact real arithmetic.

## Findings

Properties one would expect that the code does not have; each comes with a witness and with
the exact condition under which it does hold.

- The cursor file's visible epoch can go down: a rename not yet followed by the parent fsync
  is undone by a power loss (`VisibleEpochCanDrop`). After any run it can go down exactly when
  the last durable content has a lower epoch or no cursor (`VisibleMovesBackIff`), and never
  without a power loss (`NoPowerLossNoStepBack`); no returned slot depends on it.
- Equal weights need not rotate, and may repeat at once, when deficits are carried over a
  refresh that lowers the weights (`CarriedDeficitsRepeat`). `EqualWeightsRotateIff` and
  `NoImmediateRepetitionIff` give the exact conditions on the stored deficits; the long-run
  share holds from every state, up to a constant (`SpreadKeepsExactShare`).
- Whether an acknowledgement between 65537 and 66047 bytes long is accepted depends on how it
  was cut into reads (`ChunkingDecidesAtTheLimit`, `FramingSucceedsIff`).
- The paging loop never ends when the target is block 2^64 - 1 (`LastBlockNeverEnds`,
  `CanFinishIff`).
- A cache write that fails lets the next call return an older directory (`RollbackHappens`);
  `RollbackCanFollowIff` says exactly when.
- `verify_directory_with_signers` strips `0x` from a directory's signer label to look it up
  but `verify_directory` then compares the label as written, so a prefixed label is always
  refused (`PrefixedLabelWitness`, `PrefixTurnsToRefusal`); `SingleAcceptsIff` says exactly what
  is accepted.
- `max + skew` in the age guard is a 64-bit addition that wraps in a release build
  (`AgeGuardExactIff`).
- The tree has no capacity check: a leaf past 2^depth is stored, but its proof may miss the
  root (`Overfull`). Under an injective hash it reaches the root exactly when its padded block
  equals the first one (`ProofReachesRootIff`).

Where comments and code differ the model follows the code: the comments on
`canonical_directory_bytes` and `canonical_announce_bytes` list four and five fields, the code
also appends capabilities and `capsSig` when there are any.

## Model

| member | source | states |
|---|---|---|
| `SlotAllocator.StepKeepsInv` | rust/shade-tree-egress/src/slot.rs:290-335 | every step of every call, every I/O failure, process death and power loss keeps the protocol invariant: mutual exclusion, claimed slots burned in every content that may survive, claims pairwise different, slots below the limit |
| `SlotAllocator.RunKeepsInv` | rust/shade-tree-egress/src/slot.rs:247-335 | the invariant holds after every interleaving from every initial file and lock |
| `SlotAllocator.NoSlotTwice` | rust/shade-tree-egress/src/slot.rs:288-335 | in every run no two calls return the same (epoch, slot), and every returned slot is below its caller's limit |
| `SlotAllocator.AtMostLimitPerEpoch` | rust/shade-tree-egress/src/slot.rs:307-328 | with limits at most k, at most k slots of one epoch are ever returned |
| `SlotAllocator.DecidesFirstFree` | rust/shade-tree-egress/src/slot.rs:297-328 | the slot decided is the first not burned; exhausted exactly when the slots below the limit and no others are burned; corrupt and rolled-back files exactly as named |
| `SlotAllocator.ReturnedForever` | rust/shade-tree-egress/src/slot.rs:330-334 | nothing that happens later rewrites a returned slot |
| `SlotAllocator.ReturnedStaysBurned` | rust/shade-tree-egress/src/slot.rs:288-289 | after any further steps, power loss included, no reader of the file can decide a slot that was returned |
| `SlotAllocator.NoPowerLossNoStepBack` | rust/shade-tree-egress/src/slot.rs:131-164 | between two points of a run with no power loss between them the cursor only moves forward, so its epoch never decreases |
| `SlotAllocator.DurableIsEarliest` | rust/shade-tree-egress/src/slot.rs:154-158 | the last durable content, read off the steps, may survive a power loss, and everything else that may is later |
| `SlotAllocator.VisibleMovesBackIff` | rust/shade-tree-egress/src/slot.rs:155-158 | after any run some step can move the cursor back if and only if a rename is not yet durable, and some step can lower the epoch if and only if the last durable content has a lower epoch or no cursor |
| `SlotAllocator.DurableFloorNeverDrops` | rust/shade-tree-egress/src/slot.rs:131-164 | what every possibly surviving content has burned stays burned in all of them, however the run goes on |
| `SlotAllocator.VisibleEpochCanDrop` | rust/shade-tree-egress/src/slot.rs:155-158 | a concrete run in which the visible epoch decreases |
| `SlotAllocator.TwinAgrees` | rust/shade-tree-client/src/slotcursor.rs:278-319 | the decision of the other allocator picks the same slot and cursor on every file, with exhaustion as success without a slot |
| `CursorFile.CursorPath.Acquire` | rust/shade-tree-egress/src/slot.rs:250-271 | the retry loop takes the lock only when it was free, and times out only when it was held |
| `CursorFile.CursorPath.Save` | rust/shade-tree-egress/src/slot.rs:131-164 | temporary file, rename and parent fsync are protocol steps; success means only the new cursor can survive |
| `CursorFile.CursorPath.BurnNext` | rust/shade-tree-egress/src/slot.rs:297-329 | load, decide and save under the lock are protocol steps; with no I/O failure the result is the decision on the file found, and only a slot changes the file |
| `CursorFile.CursorPath.Unlock` | rust/shade-tree-egress/src/slot.rs:273-286 | release and the second attempt in drop are protocol steps that leave the file alone |
| `CursorFile.CursorPath.Allocate` | rust/shade-tree-egress/src/slot.rs:290-335 | the whole call is a run of the protocol from the moment it found the lock; a slot is returned only when durably burned and the lock released, and with nothing failing the result is the decision on the file found |
| `CursorFile.CursorPath.TwinBurnNext` | rust/shade-tree-client/src/slotcursor.rs:278-319 | load, decision and durable save of the other allocator are steps of the same protocol |
| `CursorFile.CursorPath.AllocateWithTimeout` | rust/shade-tree-client/src/slotcursor.rs:213-325 | lock, save and release of the other allocator too: the whole call is a run of the same protocol by one call |
| `CursorFile.SpendEpoch` | rust/shade-tree-egress/src/slot.rs:288-335 | allocating one after another on a fresh epoch returns 0, 1, .., limit - 1 in that order, and then exhaustion |
| `CursorFile.RunsInACrowd` | rust/shade-tree-egress/src/slot.rs:290-335 | whatever a call does alone it does, by the same steps, among any number of other calls at any stage |
| `CursorFile.AllocatedSlotIsUnique` | rust/shade-tree-egress/src/slot.rs:288-335 | the call is a run of the crowd that left the path; no other call, before or after, in any continuation, returns its slot |
| `AckFraming.ReadAckLine` | rust/shade-tree-egress/src/lib.rs:524-544 | the read loop computes the framing function, error cases included |
| `AckFraming.OutcomeNamesTheRead` | rust/shade-tree-egress/src/lib.rs:527-544 | every outcome names the read that ended the wait: end of stream, failed read, line too long, newline, or none yet |
| `AckFraming.FrameIsExact` | rust/shade-tree-egress/src/lib.rs:512-556 | on success line, newline and early data are exactly the bytes read, the line has no newline and at most 65536 + 511 bytes |
| `AckFraming.ChunkingDoesNotChangeLine` | rust/shade-tree-egress/src/lib.rs:512-556 | any two successful chunkings of one stream yield the same line |
| `AckFraming.FramingSucceedsIff` | rust/shade-tree-egress/src/lib.rs:524-544 | exactly which chunkings succeed, and that every one does up to 65536 bytes and none beyond 65536 + 511 |
| `AckFraming.ChunkingDecidesAtTheLimit` | rust/shade-tree-egress/src/lib.rs:524-544 | every line in the window past the limit has a chunking that succeeds and one that fails |
| `Connect.TryCandidates` | rust/shade-tree-egress/src/lib.rs:452-508 | attempts follow the candidate list up to the first that answers, only failures precede it, and the candidates dialled were sent exactly the bytes of the one envelope that the link let through |
| `Connect.Connect` | rust/shade-tree-egress/src/lib.rs:399-509 | without gateways the cursor path is untouched; otherwise exactly one allocation runs from start to end on it, a slot is proved exactly once and always below the limit, a failed allocation or proof sends nothing |
| `Connect.AllFailIff` | rust/shade-tree-egress/src/lib.rs:452-508 | the outcome is failure of all candidates exactly when none answers; the attempts cover the whole list exactly when none before the last answers |
| `Connect.AnswerMeans` | rust/shade-tree-egress/src/lib.rs:470-494 | connected on ok true and only then, refused on ok false, over the payload limit exactly when the gateway says so; acknowledgement and early data are those framed by the last candidate attempted |
| `Connect.AnswersIff` | rust/shade-tree-egress/src/lib.rs:512-556 | a link answers exactly when its replies frame a line that parses to an acknowledgement with ok |
| `Connect.LinkFailures` | rust/shade-tree-egress/src/lib.rs:512-556 | which bytes leave on a link and which error a silent one is recorded with |
| `Connect.ConnectSpendsOneSlot` | rust/shade-tree-egress/src/lib.rs:399-432 | a connect call that got a slot is one call of the crowd on its cursor, and no other allocation returns that slot in any continuation |
| `Connect.NoEnvelopeReusesASlot` | rust/shade-tree-egress/src/lib.rs:399-509 | a connect call never sends an envelope for the (epoch, slot) of an earlier one, whatever happened on the cursor between them; each sends pieces of a single envelope |
| `Connect.InterleavedCallsDiffer` | rust/shade-tree-egress/src/lib.rs:399-432 | nor do connect calls whose allocations interleave with each other and with everyone else |
| `Selection.PickGateway` | rust/shade-tree-proto/src/lib.rs:1759-1808 | the pick loop equals the pick function and draws once, or not at all when nothing is left |
| `Selection.TotalWeight` | rust/shade-tree-proto/src/lib.rs:1792-1795 | the accumulated total is the sum of the clamped weights |
| `Selection.WalkPool` | rust/shade-tree-proto/src/lib.rs:1800-1807 | the subtracting walk stops at the gateway the specification names |
| `Selection.PickIsInverseCdf` | rust/shade-tree-proto/src/lib.rs:1800-1807 | index i is picked exactly when u * W falls in its interval of width w_i |
| `Selection.PickFollowsTheDraw` | rust/shade-tree-proto/src/lib.rs:1783-1808 | on a directory: the gateway picked is the one of the pool in whose interval u * W falls, or the one at the whole part of u times the size when there is no weight |
| `Selection.PoolMembers` | rust/shade-tree-proto/src/lib.rs:1759-1775 | the pool holds every gateway not excluded that is not down, or every one not excluded when all are down, as often and in the order listed |
| `Selection.ClampIsNearest` | rust/shade-tree-proto/src/lib.rs:1748-1755 | the nearest weight in [0, 1000], and 1 for anything not finite |
| `Selection.AttestedWeightIsCapped` | rust/shade-tree-proto/src/lib.rs:1748-1755 | an attested weight counts as it is up to 1000 and as 1000 beyond |
| `Selection.ZeroWeightNeverPicked` | rust/shade-tree-proto/src/lib.rs:1783-1808 | with a positive total a weightless gateway is never picked |
| `Selection.PickIsBestClass` | rust/shade-tree-proto/src/lib.rs:1759-1808 | a pick exists exactly when an onion is left, and no remaining gateway is of a better health and weight class |
| `Selection.SelectionOrder` | rust/shade-tree-proto/src/lib.rs:1813-1824 | the order is the repeated pick, one draw each |
| `Selection.OrderIsPicks` | rust/shade-tree-proto/src/lib.rs:1813-1824 | place k is the pick of draw k among those not placed before it |
| `Selection.FillOrder` | rust/shade-tree-proto/src/lib.rs:1893-1899 | the shared pick loop, from any set of onions already taken |
| `Selection.SelectionOrderIsSound` | rust/shade-tree-proto/src/lib.rs:1813-1824 | each distinct onion exactly once, non-down before down, and weighted before weightless within a class |
| `SmoothWeighted.DeficitsBounded` | rust/shade-tree-proto/src/lib.rs:1864-1891 | from any deficits: their sum is kept and each stays above the lesser of where it started and the average less the total |
| `SmoothWeighted.DeficitsConserved` | rust/shade-tree-proto/src/lib.rs:1864-1891 | from drawn phases the deficits keep their sum and each exceeds -W |
| `SmoothWeighted.DeficitIsDebt` | rust/shade-tree-proto/src/lib.rs:1864-1891 | each deficit is its phase plus n * w_i minus count_i * W |
| `SmoothWeighted.ShareFromAnyDeficits` | rust/shade-tree-proto/src/lib.rs:1833-1891 | from any deficits count_i * W - n * w_i stays between two constants fixed at the start |
| `SmoothWeighted.ExactLongRunShare` | rust/shade-tree-proto/src/lib.rs:1833-1891 | from drawn phases the distance of count_i * W from n * w_i stays below k * W |
| `SmoothWeighted.EveryWindowIsAPermutation` | rust/shade-tree-proto/src/lib.rs:1864-1891 | equal weights and deficits less than a total apart: every window of k picks holds each gateway once |
| `SmoothWeighted.RotatesIff` | rust/shade-tree-proto/src/lib.rs:1833-1891 | equal weights: every window is a permutation if and only if no deficit is ahead of another by a total, or by exactly that only where the other comes first |
| `SmoothWeighted.NeverRepeatsIff` | rust/shade-tree-proto/src/lib.rs:1833-1891 | equal weights: no gateway is picked twice in a row if and only if none starts ahead of all others even after paying the total |
| `SpreadSelection.SmoothWeightedState.SpreadSelectionOrder` | rust/shade-tree-proto/src/lib.rs:1837-1900 | the call returns the order and leaves the deficits and draws that its specification names |
| `SpreadSelection.SmoothWeightedState.CreditPool` | rust/shade-tree-proto/src/lib.rs:1872-1885 | the crediting loop with its lazily drawn phases and first-wins leader |
| `SpreadSelection.SpreadOrderIsSound` | rust/shade-tree-proto/src/lib.rs:1837-1900 | from every state the order has the properties of the failover order |
| `SpreadSelection.SpreadPoolMembers` | rust/shade-tree-proto/src/lib.rs:1842-1854 | the rotating gateways are all of the best health and weight class, in directory order |
| `SpreadSelection.SpreadForgetsAbsent` | rust/shade-tree-proto/src/lib.rs:1855-1891 | the state after a call knows exactly the rotating gateways and those it knew that are still listed, the latter untouched |
| `SpreadSelection.SpreadTailIsPicks` | rust/shade-tree-proto/src/lib.rs:1893-1899 | behind the leader each place is the pick of the next draw among those not placed |
| `SpreadSelection.WithoutRotation` | rust/shade-tree-proto/src/lib.rs:1855-1870 | with nothing to rotate the order is the failover order from the same draws |
| `SpreadSelection.DrawnPhaseIs` | rust/shade-tree-proto/src/lib.rs:1876-1879 | a first call draws one phase per gateway in order, each its draw times its weight |
| `SpreadSelection.SpreadIsRound` | rust/shade-tree-proto/src/lib.rs:1864-1891 | on a fixed pool, whatever part of it the state knows, one call is one round of the deficit vector and its first candidate the round's pick |
| `SpreadSelection.CallsAreRun` | rust/shade-tree-proto/src/lib.rs:1837-1900 | from any state m calls are m rounds, starting from the stored deficits and the phases drawn for the rest |
| `SpreadSelection.SpreadKeepsExactShare` | rust/shade-tree-proto/src/lib.rs:1833-1900 | over any number of calls, any draws and any stored deficits each gateway leads its share up to a constant; within k * W when nothing was stored |
| `SpreadSelection.SpreadConservesDeficits` | rust/shade-tree-proto/src/lib.rs:1864-1891 | from any state the deficits keep their sum and their floors; above -W when nothing was stored |
| `SpreadSelection.EqualWeightsRotateIff` | rust/shade-tree-proto/src/lib.rs:1833-1900 | equal weights: every k consecutive calls lead with each gateway once if and only if the deficits they start from are less than a total apart, ties decided by position |
| `SpreadSelection.NoImmediateRepetitionIff` | rust/shade-tree-proto/src/lib.rs:1833-1900 | equal weights: no two consecutive calls lead with the same gateway if and only if none starts ahead of all others by more than a total, ties decided by position |
| `SpreadSelection.EqualWeightsRotate` | rust/shade-tree-proto/src/lib.rs:1833-1900 | both hold when none of the gateways was stored |
| `SpreadSelection.CarriedDeficitsRepeat` | rust/shade-tree-proto/src/lib.rs:1859-1891 | a concrete refresh of the weights after which four calls in a row lead with one of two equal gateways |
| `MembershipTree.MerkleTree.constructor` | rust/shade-tree-rln/src/tree.rs:114-162 | every stored node is the node of the padded tree |
| `MembershipTree.MerkleTree.Remove` | rust/shade-tree-rln/src/tree.rs:209-217 | the tree afterwards is the one a fresh build over the zeroed leaves stores |
| `MembershipTree.MerkleTree.Recompute` | rust/shade-tree-rln/src/tree.rs:223-241 | rebuilding the levels restores the tree of the current leaves |
| `MembershipTree.MerkleTree.IndexOf` | rust/shade-tree-rln/src/tree.rs:180-182 | the first position of a leaf, or none when it is absent |
| `MembershipTree.MerkleTree.CreateProof` | rust/shade-tree-rln/src/tree.rs:249-272 | siblings and direction bits level by level |
| `MembershipTree.RemoveEach` | rust/shade-tree-rln/src/tree.rs:209-241 | any sequence of removals gives the fresh build over the leaves zeroed at exactly those positions |
| `MembershipTree.RootIsPaddedRoot` | rust/shade-tree-rln/src/tree.rs:114-177 | for every leaf list, the empty one included, the root is that of the perfect tree padded with zero values |
| `MembershipTree.ProofFoldsToRoot` | rust/shade-tree-rln/src/tree.rs:249-272 | folding leaf i through its proof reaches the root for every i below 2^depth, and another top node beyond |
| `MembershipTree.ProofReachesRootIff` | rust/shade-tree-rln/src/tree.rs:114-272 | under an injective hash a proof reaches the root if and only if the padded block of its leaf equals the first block |
| `MembershipTree.Overfull` | rust/shade-tree-rln/src/tree.rs:114-162 | a tree of depth 1 with three leaves, the third of which has a proof that misses the root |
| `MembershipTree.PathIsBinary` | rust/shade-tree-rln/src/tree.rs:249-272 | the direction bits are the binary expansion of the index |
| `MembershipTree.OpeningsCollide` | rust/shade-tree-rln/src/tree.rs:243-272 | two different openings of one root on one path exhibit a hash collision |
| `MembershipTree.OnlyTheLeafFolds` | rust/shade-tree-rln/src/tree.rs:243-272 | under an injective hash only the stored leaf and siblings fold to the root on that path |
| `MembershipTree.RemoveMovesOneSibling` | rust/shade-tree-rln/src/tree.rs:209-272 | removing i changes the proof of j at no level but that of the highest bit where i and j differ |
| `MembershipTree.RemoveKeepsOtherProofs` | rust/shade-tree-rln/src/tree.rs:209-272 | on whole proofs: removing i changes exactly one entry of the sibling list of j, at the one level where the paths part, which exists |
| `MembershipTree.TopDifferenceUnique` | rust/shade-tree-rln/src/tree.rs:249-272 | there is at most one such level |
| `MembershipTree.TopDifferenceExists` | rust/shade-tree-rln/src/tree.rs:249-272 | and at least one below the depth |
| `Leaves.ReplayLogs` | rust/shade-tree-client/src/leaves.rs:79-109 | the loop over sorted logs equals the replay function, errors included |
| `Leaves.Reconstruct` | rust/shade-tree-client/src/leaves.rs:73-120 | sorting, replaying and building the tree gives the members, live count and padded root of the ascending replay |
| `Leaves.ReplayIsFaithful` | rust/shade-tree-client/src/leaves.rs:73-120 | the live map is injective, its keys are the registered commitments, each sits at its index and every other index holds zero |
| `Leaves.IndicesAreNeverReused` | rust/shade-tree-client/src/leaves.rs:79-109 | however many logs follow, the append-only list grows only at its end, a position keeps its value until it is zero for good, and later indices are past all earlier ones |
| `Leaves.PageOrderIsIrrelevant` | rust/shade-tree-client/src/leaves.rs:59-120 | with distinct (block, logIndex) keys the delivery order changes neither result nor error |
| `Leaves.OrderedAscends` | rust/shade-tree-client/src/leaves.rs:59-78 | block numbers, and log indices within a block, never decrease along the replayed order, which loses and repeats nothing |
| `Leaves.RegisteredIff` | rust/shade-tree-client/src/leaves.rs:81-109 | a commitment is registered exactly when some registration of it, read off the topics, has no removal after it |
| `Leaves.NewestWordDecides` | rust/shade-tree-client/src/leaves.rs:59-109 | on unsorted logs with distinct keys: registered at the end exactly when some registration comes after every removal on the chain |
| `Leaves.DecodeFailures` | rust/shade-tree-client/src/leaves.rs:82-97 | which defect of a log is reported, and where topic and commitment come from |
| `Leaves.ReplayLeavesAreRemovals` | rust/shade-tree-client/src/leaves.rs:98-111 | the replayed leaves are the append-only list with the vacated positions removed one by one |
| `Paging.FetchLogs` | rust/shade-tree-client/src/leaves.rs:203-225 | the loop equals the step-by-step run over the node's answers |
| `Paging.EveryBlockOnce` | rust/shade-tree-client/src/leaves.rs:203-225 | whatever the range errors, accepted pages visit every block of [from, to] exactly once |
| `Paging.GathersTheChain` | rust/shade-tree-client/src/leaves.rs:203-225 | the logs gathered are those of the blocks passed, each once |
| `Paging.RangeErrorsAreIrrelevant` | rust/shade-tree-client/src/leaves.rs:203-226 | members and root rebuilt do not depend on the range errors or on the order inside pages |
| `Paging.FetchMembers` | rust/shade-tree-client/src/leaves.rs:199-227 | the whole fetch rebuilds from exactly the logs gathered, and nothing from an unfinished one |
| `Paging.ElevenHalvings` | rust/shade-tree-client/src/leaves.rs:203-225 | the chunk reaches its minimum after exactly 11 halvings |
| `Paging.FetchFailsIff` | rust/shade-tree-client/src/leaves.rs:214-224 | a fetch fails exactly on a non-array, another error, or a range error after eleven halvings |
| `Paging.PageIsFull` | rust/shade-tree-client/src/leaves.rs:207-218 | a page asks for as many blocks as the chunk allows and the target leaves |
| `Paging.PagingEnds` | rust/shade-tree-client/src/leaves.rs:203-225 | the loop has ended once it has used as many answers as there are blocks plus 11 halvings |
| `Paging.LastBlockNeverEnds` | rust/shade-tree-client/src/leaves.rs:203-225 | with target 2^64 - 1 no run finishes |
| `Paging.CanFinishIff` | rust/shade-tree-client/src/leaves.rs:203-225 | some answers let the loop finish exactly when the target is below 2^64 - 1 |
| `Json.PushString` | rust/shade-tree-proto/src/lib.rs:76-94 | appending character by character appends exactly the escaped literal |
| `Json.QuotePrefix` | rust/shade-tree-proto/src/lib.rs:76-94 | string literals are prefix-free: equal text gives equal strings and equal remainders |
| `Json.KnownDecimal` | rust/shade-tree-proto/src/lib.rs:643-645 | digits are decimal, most significant first |
| `Json.DecRoundTrip` | rust/shade-tree-proto/src/lib.rs:643-645 | decimal text gives its number back |
| `Json.ReadBack` | rust/shade-tree-proto/src/lib.rs:635-890 | a reader written from RFC 8259 takes exactly the printed value off any text it starts |
| `Json.ReadPrint` | rust/shade-tree-proto/src/lib.rs:635-890 | the printed text of a value reads back as that value |
| `Json.PrintPrefix` | rust/shade-tree-proto/src/lib.rs:635-890 | the printed JSON of any value determines the value in every context |
| `Json.EscapeForms` | rust/shade-tree-proto/src/lib.rs:76-94 | each character takes the form JSON.stringify gives it |
| `CapsCanon.CollectTiers` | rust/shade-tree-proto/src/lib.rs:503-519 | the tier loop keeps the first well-formed entry of each limit, in list order |
| `CapsMeaning.CanonicalKeeps` | rust/shade-tree-proto/src/lib.rs:565-616 | every canonical field comes from the raw field of that name: region, protocol range and admission paths written out, the others as in the rows below |
| `CapsMeaning.PortsKept` | rust/shade-tree-proto/src/lib.rs:567-580 | the valid ports, each once, ascending; absent exactly when there is none |
| `CapsMeaning.ArtifactsKept` | rust/shade-tree-proto/src/lib.rs:594-602 | the valid artifact ids, each once, in byte order; absent exactly when there are none or more than eight |
| `CapsMeaning.PayKept` | rust/shade-tree-proto/src/lib.rs:470-532 | a payment advert is kept exactly when all its parts are well formed, with the values named |
| `CapsMeaning.TiersKept` | rust/shade-tree-proto/src/lib.rs:503-520 | each limit with the price of its first well-formed entry, ascending |
| `CapsMeaning.RateKept` | rust/shade-tree-proto/src/lib.rs:539-558 | the rate policy, all of it exactly when every bound holds |
| `CapsMeaning.HasCapsIff` | rust/shade-tree-proto/src/lib.rs:621-630 | there are capabilities exactly when some field is kept |
| `CapsMeaning.PayGrammars` | rust/shade-tree-proto/src/lib.rs:447-465 | asset, chain and address shapes in terms of digits, numbers and the base32 alphabet |
| `CapsMeaning.UintIff` | rust/shade-tree-proto/src/lib.rs:450-455 | a canonical decimal is the text of a positive number below a power of ten |
| `CapsMeaning.TierLimitIff` | rust/shade-tree-proto/src/lib.rs:504-514 | a tier counts exactly when its key is the text of a limit from 1 to 65535 and its price is canonical |
| `CapsMeaning.StrLessIff` | rust/shade-tree-proto/src/lib.rs:599-600 | byte order: smaller at the first difference, a prefix first |
| `CapsCanon.CanonicalIsIdempotent` | rust/shade-tree-proto/src/lib.rs:438-616 | canonicalising a canonical form again changes nothing |
| `CapsCanon.VariantsCanonicaliseAlike` | rust/shade-tree-proto/src/lib.rs:438-616 | reordering or repeating ports, artifacts, admits and protocols, and reordering tiers of distinct limits, leaves one canonical form |
| `Encoders.EncodeCaps` | rust/shade-tree-proto/src/lib.rs:635-752 | the appended text is the JSON of the canonical capabilities |
| `Encoders.EncodePay` | rust/shade-tree-proto/src/lib.rs:697-730 | the appended text is the JSON of the payment advert |
| `Encoders.EncodeTiers` | rust/shade-tree-proto/src/lib.rs:720-729 | the appended text is the JSON object of the price tiers |
| `Encoders.EncodeRate` | rust/shade-tree-proto/src/lib.rs:732-749 | the appended text is the JSON of the rate policy |
| `Encoders.EncodeGateway` | rust/shade-tree-proto/src/lib.rs:862-886 | the appended text is the JSON of the covered part of an entry |
| `Encoders.CanonicalDirectoryBytes` | rust/shade-tree-proto/src/lib.rs:848-890 | the encoder yields exactly the bytes the unambiguity theorem is about |
| `Encoders.CanonicalAnnounceBytes` | rust/shade-tree-proto/src/lib.rs:813-839 | likewise for announces |
| `Encoders.CanonicalCapsBytes` | rust/shade-tree-proto/src/lib.rs:760-769 | likewise for capability records |
| `Encoders.CanonicalReceiptBytes` | rust/shade-tree-proto/src/lib.rs:1413-1425 | likewise for receipts |
| `SignedBytes.DirectoryReadsBack` | rust/shade-tree-proto/src/lib.rs:848-890 | read as JSON and looked up by name, the bytes give back version, issue time and every covered gateway field, names in that order |
| `SignedBytes.AnnounceReadsBack` | rust/shade-tree-proto/src/lib.rs:813-839 | likewise for an announce |
| `SignedBytes.CapsRecordReadsBack` | rust/shade-tree-proto/src/lib.rs:760-769 | likewise for a capability record, behind its literal domain line |
| `SignedBytes.ReceiptReadsBack` | rust/shade-tree-proto/src/lib.rs:1413-1425 | likewise for a receipt, behind its literal domain line |
| `SignedBytes.CapsReads` | rust/shade-tree-proto/src/lib.rs:635-752 | every capability under its own name, in the fixed order, absent ones absent |
| `SignedBytes.DirectoryBytesUnambiguous` | rust/shade-tree-proto/src/lib.rs:848-890 | equal bytes exactly when version, issue time and every covered gateway field agree |
| `SignedBytes.AnnounceBytesUnambiguous` | rust/shade-tree-proto/src/lib.rs:813-839 | equal bytes exactly when every covered announce field agrees |
| `SignedBytes.CapsBytesUnambiguous` | rust/shade-tree-proto/src/lib.rs:760-769 | equal bytes exactly when onion and canonical capabilities agree |
| `SignedBytes.CapsJsonInjective` | rust/shade-tree-proto/src/lib.rs:635-752 | the capability JSON determines the canonical capabilities |
| `SignedBytes.ReceiptBytesUnambiguous` | rust/shade-tree-proto/src/lib.rs:1413-1425 | equal bytes give equal receipts |
| `SignedBytes.KindsNeverCollide` | rust/shade-tree-proto/src/lib.rs:760-890 | bytes of different kinds of record are never equal |
| `SignedBytes.VariantsSignAlike` | rust/shade-tree-proto/src/lib.rs:760-769 | reordered or repeated capability lists sign identical bytes |
| `Onion.DecodeEncode` | rust/shade-tree-proto/src/lib.rs:245-283 | decoding the address of any 32-byte key returns the key |
| `Onion.Encode32RoundTrip` | rust/shade-tree-proto/src/lib.rs:54-59 | base32 without padding decodes to the bytes it encodes |
| `Onion.Decode32RoundTrip` | rust/shade-tree-proto/src/lib.rs:54-59 | and text that decodes is the encoding of its bytes: no slack bits |
| `Onion.EncodeDecode` | rust/shade-tree-proto/src/lib.rs:245-283 | an address that decodes re-encodes to its own lowercase form with the suffix |
| `Onion.DecodesIff` | rust/shade-tree-proto/src/lib.rs:245-283 | an address decodes to a key exactly when its lowercase form is the key's one canonical address |
| `Onion.SizeAlwaysRight` | rust/shade-tree-proto/src/lib.rs:250-258 | the wrong-size error is unreachable: 56 symbols always carry 35 bytes |
| `Onion.SymbolsAreTheAlphabet` | rust/shade-tree-proto/src/lib.rs:54-59 | symbols are the letters of the literal alphabet at their places |
| `Onion.KnownGroup` | rust/shade-tree-proto/src/lib.rs:54-59 | the published base32 example of five bytes |
| `Onion.AddressShape` | rust/shade-tree-proto/src/lib.rs:245-255 | the length and symbol errors, exactly |
| `Onion.AddressBytes` | rust/shade-tree-proto/src/lib.rs:256-270 | decodes exactly when the 35 bytes are key, checksum and 3; version before checksum |
| `Hex.HexDecodesIff` | rust/shade-tree-proto/src/lib.rs:952-954 | a text decodes to bytes exactly when its lowercase form is their hex encoding |
| `Hex.KnownHex` | rust/shade-tree-proto/src/lib.rs:952 | high half first |
| `Verification.CheckGatewayBindings` | rust/shade-tree-proto/src/lib.rs:945-968 | the loop reports the first entry that is wrong, and why |
| `Verification.EntryAcceptedIff` | rust/shade-tree-proto/src/lib.rs:940-968 | an entry passes exactly when pubkey, onion address and capability signature belong to one key |
| `Verification.BindingsHoldIff` | rust/shade-tree-proto/src/lib.rs:940-968 | the check passes exactly when every entry is so bound |
| `Verification.CountSigners` | rust/shade-tree-proto/src/lib.rs:1027-1050 | the counting loop lists the distinct pinned keys that verified, first seen first |
| `Verification.CountedGrows` | rust/shade-tree-proto/src/lib.rs:1027-1050 | keys are listed in the order they first verified |
| `Verification.VerifyDirectoryThreshold` | rust/shade-tree-proto/src/lib.rs:1009-1060 | the method computes the verdict, each reason in its order |
| `Verification.ThresholdAcceptsIff` | rust/shade-tree-proto/src/lib.rs:985-1060 | accepted exactly when the shape checks pass, the distinct pinned keys (lowercase, one 0x or 0X dropped) with a valid signature reach the threshold and all bindings hold; the keys returned are that set |
| `Verification.ThresholdReasons` | rust/shade-tree-proto/src/lib.rs:1014-1058 | each reason exactly when it is the first that applies, with the number of endorsers it names |
| `Verification.FirstBadEntry` | rust/shade-tree-proto/src/lib.rs:945-968 | the entry reported is the first that is not bound |
| `Verification.EntryReasons` | rust/shade-tree-proto/src/lib.rs:945-968 | which defect of an entry is reported, with the first twelve characters of its address |
| `Verification.PermutationInvariant` | rust/shade-tree-proto/src/lib.rs:1009-1060 | permuting (signer, signature) pairs changes neither acceptance nor the reason of a rejection |
| `Verification.OneKeyOneVote` | rust/shade-tree-proto/src/lib.rs:974-1060 | an accepted directory has at least threshold distinct pins and signers, however often each is listed |
| `DirectoryTrust.VerifyDirectoryWithSigners` | rust/shade-tree-proto/src/lib.rs:1119-1153 | the method computes the verdict of the allowlist rule |
| `DirectoryTrust.SingleAcceptsIff` | rust/shade-tree-proto/src/lib.rs:1074-1153 | a single-signature directory is accepted exactly when bound and signed by a pinned key its label, if any, names |
| `DirectoryTrust.SingleReasons` | rust/shade-tree-proto/src/lib.rs:1074-1153 | why a single-signature directory is refused, the first reason that applies |
| `DirectoryTrust.FirstPinIsFirst` | rust/shade-tree-proto/src/lib.rs:1147-1151 | of several pins that verify the first is returned |
| `DirectoryTrust.SpellingIsIrrelevant` | rust/shade-tree-proto/src/lib.rs:974-983 | pins that stand for the same key are interchangeable in every allowlist |
| `DirectoryTrust.SpellingsOfAKey` | rust/shade-tree-proto/src/lib.rs:974-983 | a key in any case, bare or after 0x or 0X, stands for the same key |
| `DirectoryTrust.PrefixedLabelRefused` | rust/shade-tree-proto/src/lib.rs:1087-1142 | a label with a 0x prefix is refused under every allowlist |
| `DirectoryTrust.PrefixTurnsToRefusal` | rust/shade-tree-proto/src/lib.rs:1087-1142 | any directory accepted under a label is refused as not pinned once 0x is put before the label |
| `DirectoryTrust.AcceptedIsEndorsed` | rust/shade-tree-proto/src/lib.rs:1115-1153 | every key returned for an accepted directory is pinned, distinct and signed its bytes, and there are at least threshold of them |
| `DirectoryTrust.AcceptedWasSigned` | rust/shade-tree-proto/src/lib.rs:985-1153 | with unforgeable signatures each such key signed a directory with the same covered content, whatever else it signs |
| `DirectoryTrust.AcceptedCapsWereAttested` | rust/shade-tree-proto/src/lib.rs:771-796 | and each gateway's capabilities were attested by the key its own address encodes |
| `DirCache.CacheFile.ResolveDirectory` | rust/shade-tree-client/src/dircache.rs:367-437 | the call returns the specified outcome and leaves the specified file, for every fetch, guard and write result |
| `DirCache.CacheFile.WriteCache` | rust/shade-tree-client/src/dircache.rs:346-357 | a complete write of a document that verifies makes it the document the verified cache holds, newline terminated; without a path nothing changes |
| `DirCache.EveryReturnedVerified` | rust/shade-tree-client/src/dircache.rs:299-437 | in every run, whatever the file held, each returned directory verified against the pins |
| `DirCache.FreshUsedIff` | rust/shade-tree-client/src/dircache.rs:379-418 | a fresh document is used exactly when it verifies, is not older than the cache and was issued (seconds) no more than max plus skew (milliseconds) ago |
| `DirCache.RefusalNamed` | rust/shade-tree-client/src/dircache.rs:379-436 | otherwise the cache answers if it can, and the reason is named |
| `DirCache.RunNeverRollsBack` | rust/shade-tree-client/src/dircache.rs:340-437 | with reliable writes: after one success no call fails, issue times never decrease, and the cache holds the document last returned |
| `DirCache.OlderReturnedIff` | rust/shade-tree-client/src/dircache.rs:374-437 | a call can return something older than n if and only if the cache holds something older, or nothing while an older document verifies |
| `DirCache.RollbackCanFollowIff` | rust/shade-tree-client/src/dircache.rs:346-437 | a rollback can follow a call if and only if it used a fresh document, its write failed, and what that left does not keep older ones out |
| `DirCache.LostWriteRollsBack` | rust/shade-tree-client/src/dircache.rs:346-357 | any two verifying documents roll back when the write of the newer fails |
| `DirCache.RollbackHappens` | rust/shade-tree-client/src/dircache.rs:346-357 | a concrete client and run that return issue time 2 and then 1 |
| `DirCache.PrefixedLabelWitness` | rust/shade-tree-proto/src/lib.rs:1132-1142 | one concrete directory accepted under its signer's key and refused under the same key with 0x |
| `DirCache.AgeGuardExactIff` | rust/shade-tree-client/src/dircache.rs:392-393 | the guard refuses exactly the ages beyond max + skew if and only if that sum fits in 64 bits |
| `Health.HealthCache.Update` | rust/shade-tree-client/src/health.rs:170-200 | one dial folded into the record of a known onion, nothing else changed |
| `Health.HealthCache.Seed` | rust/shade-tree-client/src/health.rs:148-161 | failing gateways marked down and exactly the expired records of listed ones pruned |
| `Health.HealthCache.Bound` | rust/shade-tree-client/src/health.rs:107-120 | at most max entries remain, unchanged, and every evicted one was seen before every kept one, or at the same time with a smaller key |
| `Health.HealthCache.Save` | rust/shade-tree-client/src/health.rs:127-141 | bounded to 512 entries before writing; nothing happens without a path |
| `Health.RecordIsHistory` | rust/shade-tree-client/src/health.rs:170-200 | over any history of dials and drops, fails is the trailing run of failed dials, lastSeen the last dial and lastFail the last failure |
| `Health.LatencySmooths` | rust/shade-tree-client/src/health.rs:192-197 | the first latency as it is, then the whole number nearest to seven tenths of the old and three of the new |
| `Health.SeededDownIff` | rust/shade-tree-client/src/health.rs:148-200 | after seeding a gateway is down exactly when the directory said so or its unexpired run has reached 2 |
| `Health.FailingGatewaysComeLast` | rust/shade-tree-client/src/health.rs:143-200 | in both failover orders such a gateway follows every gateway that is not down, and no onion is lost |

## Left out

- Groth16 proving, witness calculation and key parsing: `prove` is an arbitrary partial function of its input.
- Ed25519, secp256k1, SHA-3, Keccak and Poseidon internals: arbitrary functions; injectivity and unforgeability are hypotheses of the lemmas that need them.
- UTF-8 and non-ASCII case folding: text is a sequence of characters, lowercasing is ASCII only, and lengths count characters.
- Rounding of f64 in weights, deficits and latencies: exact reals.
- Splitting the comma-separated signer option into pins: the list of pins is given.
- JSON parsing (`serde_json`) and the demo advert in a directory document: an arbitrary function from text to document.
- Overflow of `fails` after 2^64 failed dials, and the error texts of every module: constructors stand for the messages.
- Lock directories removed by anyone but their holder, and removals that report failure after taking effect: the allocator is modelled with only the holder removing the lock and a failed removal leaving it in place. A power loss may take the lock with it.
- File permissions, path resolution, temporary file names and the non-unix `save` variants.
- The `UnsafeForSlashingTest` slot policy of `connect`, which deliberately reuses slots.
- Concurrent processes sharing one directory or health cache file: runs of those caches are sequential.
- The text of the health cache file and its bare-map form: the map, its bound and whether it was written are modelled.
- Tor dialling, the HTTP proxy, stdio relays, CLI parsing, bootnode fetches.
- Announce verification, stake and operator signatures, and receipt checking: one branch each beside the byte encodings proved here.
- Registration, enrolment, membership RPC, version and artifact negotiation, identity files: single checks without an invariant across calls.
