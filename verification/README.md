# Verification of the Merkle layer, the proof store and what is built on them

This project models the live crates of the Verifiable Accounting Arithmetic workspace and proves what they
promise, for every input and every run: the Merkle tree with odd-node duplication, the sharded proof store
with its two verifiers, the audit call, the two simulation studies, the accounting equations, and the data
path of `vaa prove` / `vaa verify`.

## How the model is set up

- **Hash.** `hash_pair` is an arbitrary total function `hp` on labels, and the record digest an arbitrary total
  function `d` from byte strings to 32-byte hashes; `PairHashOf(d)` is the digest of the 64-byte block, as in
  the code. Nothing is assumed about either. Where the repository appeals to collision resistance, a lemma
  says "the claim holds, or *this* pair collides", where the pair is what a deterministic extractor
  (`WalkCollision`, `NodeCollision`) reads off the two computations being compared.
- **Tree.** `MerkleTree.Node` is the interval node rule of WO 2022/100946 A1: a node covers
  `2^h` leaves from `lo` on, and a right half that lies wholly past the end is replaced by the left half.
  The loops of the crates are methods (`Merkle`, `ProofStore`) proved against it. `VirtualLeaves` is the list with
  all duplication written out (ABCDEF becomes ABCDEFEF).
- **Store.** `ProofStore.ProofStore` is a class with the two maps as fields. `Contents` is its abstract value,
  `Contents.AfterAnchor` what one call does to it, `StoreRuns.Replay` what a whole sequence of calls does, failed calls
  included.
- **Integers.** `usize` is `nat`; `u32` and `u64` are bounded, with checked and wrapping additions written out. Bit
  operations on indices are halving, parity and neighbour.

Files: `MerkleTree` (specification and tree inductions), `MerkleLaws` (completeness, soundness, binding, the cut at a
level), `Merkle` (the loops), `ProofStore`, `StoreLaws` (one entry), `StoreRuns` (every run), `Audit`, `AnchorAll`, `Storage`,
`Baseline` and `StorageLaws` (storage study), `Sums`, `Accounting`, `RollForward`, `Study` and `Faults` (population study), `Hex` and
`Cli`, and the helpers `Wrappers`, `Arithmetic`, `Bsv`.

## Where the code does less than is said of it

- `verify_with_assistance` does not always accept an honestly anchored leaf after later anchors: assistance is
  kept per root and overwritten, and lists of different length can share a root without any collision (ABC and ABCC).
  `StoreRuns.AssistedAfterRunCanFail` gives the run and `StoreRuns.AssistedAfterRunIff` the exact condition; between
  trees of equal depth it is a condition on lengths alone, up to an extracted collision
  (`StoreRuns.AssistedAfterRunAccepts`).
- Nor does it reject every other leaf of an honestly stored entry: once the labels of some level have been anchored as a
  list of their own, they are published under the same root, and an inner label can pass as the leaf with no forged
  data and no collision (`StoreRuns.InnerLabelPassesAfterRun`; for labels published at the leaves
  `StoreRuns.AssistedAfterRunAtLeaves` is exact). `StoreRuns.AssistedAfterRunSound` bounds what can pass for every `k`: the
  anchored leaf alone when the list last published is as deep as the entry's own, a label of the entry's tree when it is
  shallower, each up to an extracted collision.
- A root identifies its leaves only at equal depth and only up to written-out duplicates
  (`MerkleLaws.RootIgnoresWrittenOutDuplicate`), and a proof shorter than the tree is deep can carry an inner label
  (`MerkleLaws.InnerLabelAccepted`). `MerkleLaws.ShortProofSound` is the converse: a proof no longer than the tree is deep
  carries a label of the level it starts from, which at full length is the level of the leaves.
- The "wrong index" fault of the population study can be missed (`Faults.WrongIndexCanBeMissed`): up to an extracted
  collision exactly when at every height where the two indices differ the label equals its sibling
  (`Faults.WrongIndexMissedIff`).
- Omission and duplication of a record are detected exactly when its value is not zero.
- The sharded byte count does not always stay within the naive baseline (`docs/AUDIT.md:18`). With everything stored it
  exceeds the baseline in every study, by the bytes of the labels. The minimum viable count stays within it if and only if a
  condition on the numbers of leaves and queries and the level holds; the deduplicated count, over distinct labels, if
  and only if the same condition holds with the number of blocks the queries lie in (`StorageLaws.WithinBaselineIff`,
  `StorageLaws.WithinBaselineByQueries`). Queries that all lie in different blocks never meet the latter
  (`Baseline.SpreadQueriesNeverPayOff`). In the tested setting, `k` at half the depth and at least half
  the leaves, and at least two, queried, every choice of queries meets it if and only if there are ten leaves or more
  (`Baseline.HalfDepthThreshold`); below ten `StorageLaws.SmallTreeExceedsBaseline` gives queries that exceed the baseline
  over any distinct labels.

## Model

| member | source | states |
|---|---|---|
| Arithmetic.CeilLog2Bounds | crates/simstore/src/main.rs:133-139 | the depth formula is the least exponent whose power of two covers n |
| MerkleTree.NodeIsPerfect | crates/merkle/src/lib.rs:12-20 | the tree by the node rule is the perfect tree over the virtual leaves that duplication induces |
| MerkleTree.NodeIsLocal | crates/merkle/src/lib.rs:12-20 | a node is computed from the leaves of its own interval alone |
| MerkleTree.NodeOverParents | crates/merkle/src/lib.rs:94-102 | one round of padding and pairing raises every node of the tree by exactly one level |
| MerkleTree.WalkResidue | crates/merkle/src/lib.rs:127-139 | reconstruction depends on the leaf index only through its residue modulo 2^siblings, for any index and proof length |
| MerkleTree.WalkAppend | crates/merkle/src/lib.rs:127-139 | walking two stretches of siblings is two walks, the second from the shifted index |
| MerkleLaws.SiblingAt | crates/merkle/src/lib.rs:190-191 | the sibling collected at height t is the label at index ^ 1, or the label itself at an odd end, in the level t above the leaves |
| MerkleTree.ExtensionOverParents | crates/merkle/src/lib.rs:94-102 | the virtual leaves one round up are the hashes of adjacent virtual leaves |
| MerkleTree.SiblingsOverParents | crates/merkle/src/lib.rs:185-198 | the honest siblings are the neighbour in the padded level followed by the honest siblings one level up |
| MerkleTree.RootFolds | crates/merkle/src/lib.rs:88-105 | the root of one leaf is that leaf; otherwise it is the root of the list of pair hashes in order, a lone last node hashed with itself |
| MerkleTree.SiblingsFold | crates/merkle/src/lib.rs:184-200 | the honest siblings of one leaf are none; otherwise the node at index ^ 1 of the padded level followed by the siblings of index >> 1 in the next |
| MerkleTree.WalkSteps | crates/merkle/src/lib.rs:127-139 | an even index hashes the current label on the left of its sibling, an odd one on the right, and the index halves |
| MerkleTree.PathReachesNode | crates/merkle/src/lib.rs:160-162 | the siblings of every virtual position, padded ones included, lead its leaf up to its node |
| MerkleTree.WalkIsHonest | crates/merkle/src/lib.rs:127-156 | a walk that reaches a node used its virtual leaf and its true siblings, or the extracted pairs, one from the walk and one from the tree, collide |
| MerkleTree.ExtensionCopies | crates/merkle/src/lib.rs:94-97 | every virtual leaf is the real leaf its position copies |
| MerkleTree.EqualWalksAgree | crates/merkle/src/lib.rs:127-139 | two walks along one path under different indices that end alike started alike and differ in side only between equal labels, or the extracted inputs, one from each walk, collide |
| MerkleTree.NodeBinds | crates/merkle/src/lib.rs:88-105 | equal labels stand over equal virtual leaves or the extracted pairs collide |
| MerkleLaws.ProofComplete | crates/merkle/src/lib.rs:160-162 | the proof generated for any leaf of any list verifies against the root |
| MerkleLaws.VirtualProofComplete | crates/merkle/src/lib.rs:127-139 | indices at or past the end are accepted with the leaf of the padded position they stand for |
| MerkleLaws.ProofSound | crates/merkle/src/lib.rs:127-156 | an accepted proof of full length, at any index, carries the virtual leaf and the siblings of the index modulo the tree size, or an extracted collision |
| MerkleLaws.ProofSoundInRange | crates/merkle/src/lib.rs:127-156 | for an index in range an accepted proof of full length is the honest proof of that very leaf, or an extracted collision |
| MerkleLaws.ProofSoundMembership | crates/merkle/src/lib.rs:24-29 | whatever index is claimed, an accepted leaf is one of the anchored leaves, or an extracted collision |
| MerkleLaws.RootIsPerfect | crates/merkle/src/lib.rs:71-77 | the root is that of the perfect tree over the virtual leaves, which extend the real ones |
| MerkleLaws.RootBinds | crates/merkle/src/lib.rs:88-105 | at equal depth roots agree exactly when virtual leaves do, up to an extracted collision; equal-length lists with equal roots are equal |
| MerkleLaws.RootIgnoresWrittenOutDuplicate | crates/merkle/src/lib.rs:94-97 | writing out the duplicate of an odd last leaf never changes the root |
| MerkleLaws.InnerLabelAccepted | crates/merkle/src/lib.rs:127-156 | with its own shorter path every inner label passes as a leaf, for every tree and level |
| MerkleLaws.ShortProofSound | crates/merkle/src/lib.rs:127-156 | an accepted proof no longer than the tree is deep is, at any index, the path of the position the index stands for in the level it starts from, and carries the label there, or an extracted collision |
| MerkleLaws.LabelsBind | docs/SECURITY.md:35-37 | labels with the root of a tree, no deeper than it, are up to written-out duplicates the level of their own depth, or the extracted pairs collide |
| MerkleLaws.LabelsDistinct | crates/proofstore/src/lib.rs:431-442 | over distinct leaves two labels of one level differ, or the pairs extracted from their blocks collide |
| MerkleLaws.VirtualOverLevel | crates/proofstore/src/lib.rs:431-442 | lists of one depth with the same virtual leaves have the same virtual labels at every level |
| MerkleLaws.LevelWidth | crates/proofstore/src/lib.rs:431-442 | the level h above n leaves has exactly ceil(n / 2^h) labels |
| MerkleLaws.LevelFolds | crates/proofstore/src/lib.rs:429-441 | level 0 is the leaves and each level the pair hashes in order of the one below |
| MerkleLaws.LevelLabel | crates/proofstore/src/lib.rs:419-421 | label j of a level is the node over block j, computed from that block alone |
| MerkleLaws.RootOverLevel | crates/proofstore/src/lib.rs:181-187 | the labels of any level hash to the root of the leaves, in exactly the remaining depth |
| MerkleLaws.PathOverLevel | crates/proofstore/src/lib.rs:391-417 | cut at any level, the lower siblings walk to the label of the leaf's block and the upper siblings are that label's own proof |
| Merkle.MerkleRoot | crates/merkle/src/lib.rs:88-105 | the level-folding loop computes the root of the recursive node rule, and fails only on the empty list |
| Merkle.GenerateProof | crates/merkle/src/lib.rs:172-203 | the collecting loop returns the siblings of the recursive tree with the given index, and the two errors in their order |
| Merkle.MerkleProof.ReconstructRoot | crates/merkle/src/lib.rs:127-139 | the steering loop computes the walk for every index and any number of siblings |
| Merkle.MerkleProof.Verify | crates/merkle/src/lib.rs:149-155 | accepts exactly when the walk ends at the expected root |
| ProofStore.StoredProof.Reassemble | crates/proofstore/src/lib.rs:169-178 | the loop returns the concatenation of all shards under the stored index |
| ProofStore.ComputeProofAssistance | crates/proofstore/src/lib.rs:422-447 | the loop stops at min(k, depth) with the labels of that level of the tree, and fails only on the empty list |
| ProofStore.ProofStore.constructor | crates/proofstore/src/lib.rs:214-220 | a new store is empty |
| ProofStore.ProofStore.Anchor | crates/proofstore/src/lib.rs:247-271 | answers the node-rule root exactly for an index in range, EmptyTree and IndexOutOfRange exactly otherwise; on success writes the one entry with that root and index, publishes assistance under it and touches nothing else; on failure writes nothing |
| ProofStore.ProofStore.Query | crates/proofstore/src/lib.rs:279-281 | answers the entry held under the exact key or KeyNotFound |
| ProofStore.ProofStore.Verify | crates/proofstore/src/lib.rs:300-320 | Ok exactly when the walk along all shards ends at the stored root, the mismatch error otherwise; the other mode always errs, with its own error |
| ProofStore.ProofStore.VerifyWithAssistance | crates/proofstore/src/lib.rs:339-388 | on any leaf, stored data and published labels: Ok exactly when the walk along the first lower siblings meets the label at the shifted index and the labels hash to the stored root; KeyNotFound exactly without assistance |
| StoreLaws.ShardsCoverProof | crates/proofstore/src/lib.rs:395-417 | shards are non-empty, start at the leaves, abut, end at the depth and concatenate to the proof, for every k |
| StoreLaws.ShardsCutAtLevel | crates/proofstore/src/lib.rs:391-417 | there are two shards exactly when k lies inside the proof, and then they are its first k siblings and the rest |
| StoreLaws.ConcatenatedAppend | crates/proofstore/src/lib.rs:169-178 | reassembly of any list of shards is piecewise, in order |
| StoreLaws.LowerSiblingsAreFirst | crates/proofstore/src/lib.rs:348-353 | the lower siblings are those of the first shard that starts at level 0, none without one |
| StoreLaws.EntryIsHonest | crates/proofstore/src/lib.rs:247-271 | the entry of a successful call reassembles to the generated proof and its leaf passes the full verifier |
| StoreLaws.AdversarialSound | crates/proofstore/src/lib.rs:300-320 | altered stored data no longer than the tree under the root is deep that passes is, at any leaf index, the honest path and label of the position the index stands for, a leaf at full length, or an extracted collision |
| StoreLaws.EntryAcceptsItsLeafOnly | crates/proofstore/src/lib.rs:300-320 | an anchored entry accepts its own leaf and, short of an extracted collision, no other |
| StoreLaws.AssistanceIsCut | crates/proofstore/src/lib.rs:422-447 | published assistance: the level, ceil(n / 2^level) labels, each the node over its block, together hashing to the root |
| StoreLaws.AssistedGivesProof | crates/proofstore/src/lib.rs:339-388 | assisted acceptance of untrusted shards and labels is one proof, with the same leaf index, from the leaf to the expected root; no hash assumption |
| StoreLaws.AssistedSound | crates/proofstore/src/lib.rs:326-388 | forged shards and forged labels of at most full total length accept only the label of the position the index stands for, a leaf at full length, and the labels are those of the tree at their depth; each or an extracted collision |
| StoreLaws.EntryAssistedSound | crates/proofstore/src/lib.rs:339-388 | against the assistance of any list with the same root that is no deeper, an anchored entry accepts only a label as far above the leaves as that list is shallower, at equal depth only its leaf, or an extracted collision |
| StoreLaws.AssistedAcceptsIff | crates/proofstore/src/lib.rs:339-388 | against assistance published for another list with the same root, acceptance is exactly that its label serves the entry's block |
| StoreLaws.LabelsServeByLength | crates/proofstore/src/lib.rs:339-388 | between lists of equal depth and root the labels of one serve an entry of the other exactly when it reaches the first leaf of the entry's block, or an extracted collision |
| StoreLaws.OwnLabelsServe | crates/proofstore/src/lib.rs:339-388 | assistance of the entry's own list serves it for every k, zero and beyond the depth included |
| StoreLaws.VerifiersAgree | crates/proofstore/src/lib.rs:300-388 | with the entry's own assistance, assisted acceptance implies full acceptance, and conversely up to an extracted collision |
| StoreLaws.UpperShardsAreIdle | crates/proofstore/src/lib.rs:328-330 | deleting the shards from level k on never changes an assisted verdict, whatever is stored or published at k or below |
| StoreRuns.Run | crates/proofstore/src/lib.rs:203-271 | a store driven through any sequence of calls holds exactly the replayed contents |
| StoreRuns.LastForIsLatest | crates/proofstore/src/lib.rs:265-265 | the call a key answers for is the last successful one under it |
| StoreRuns.LastUnderIsLatest | crates/proofstore/src/lib.rs:268-268 | the call whose labels stand under a root is the last successful one with that root |
| StoreRuns.RunInvariant | crates/proofstore/src/lib.rs:247-281 | after every run a query answers the entry of the last successful call under the key; it reassembles, its leaf passes, its root has assistance |
| StoreRuns.AssistanceAfterRun | crates/proofstore/src/lib.rs:267-268 | after every run the assistance under a root is that of the last successful call with this root, and exists exactly when there is one |
| StoreRuns.PublishedLabelsHashToRoot | crates/proofstore/src/lib.rs:181-187 | after every run published labels hash to the root they are published under |
| StoreRuns.AssistedAfterRunIff | crates/proofstore/src/lib.rs:268-268 | after every run an anchored leaf passes the assisted verifier exactly when the labels last published under its root serve its entry |
| StoreRuns.AssistedAfterRunAccepts | crates/proofstore/src/lib.rs:339-388 | if the list last published under the root is as deep as the entry's own, the assisted verifier accepts, for every k, exactly when that list reaches the first leaf of the entry's block, or an extracted collision; lists of equal length always do |
| StoreRuns.AssistedAfterRunSameLeaves | crates/proofstore/src/lib.rs:339-388 | if calls that share the root share the leaves, it accepts without any collision clause |
| StoreRuns.AssistedAfterRunCanFail | crates/proofstore/src/lib.rs:268-268 | anchoring ABC after ABCC makes the assisted verifier reject position 3 of ABCC, whatever the hash |
| StoreRuns.AssistedAfterRunSound | crates/proofstore/src/lib.rs:339-388 | after every run, a leaf that passes for a stored entry is the anchored one when the list last published under the root is as deep, a label of the entry's tree when it is shallower, or an extracted collision |
| StoreRuns.AssistedAfterRunAtLeaves | crates/proofstore/src/lib.rs:339-388 | after every run at level 0 exactly the leaf at the entry's index of the list last published under the root passes |
| StoreRuns.InnerLabelPassesAfterRun | crates/proofstore/src/lib.rs:268-268 | anchoring the labels of any level after the leaves makes an inner label pass as the leaf of the earlier entry, whatever the hash |
| Audit.AuditVerifier.Verify | crates/api/src/lib.rs:104-123 | exactly when each of the four errors is returned on any store contents, and the evidence otherwise; evidence only in adversarial mode and for a record that hashes to the leaf |
| Audit.AuditAfterRun | crates/api/src/lib.rs:104-123 | after any run each error is returned exactly under its condition on mode, digest, last anchor under the key and walk along that anchor's siblings, and evidence exactly when none is due |
| Audit.EvidenceIsSound | crates/api/src/lib.rs:104-123 | evidence after any run names root and index of the last anchor under the key and a record that hashes to the leaf anchored there, or two 64-byte blocks collide |
| Audit.EvidenceIsTheRecord | crates/api/src/lib.rs:46-62 | the disclosed bytes are the anchored record, or one of two named pairs of byte strings collides |
| Audit.EvidenceIsComplete | crates/api/src/lib.rs:104-123 | any record that hashes to the leaf last anchored under its key is accepted |
| Audit.OtherKeysDoNotMatter | crates/api/src/lib.rs:114-116 | anchors under other keys and failed anchors never change an audit verdict |
| AnchorAll.AnchorIndices | crates/simstore/src/main.rs:225-231 | the anchoring loop never fails on indices in range and leaves the replay of its calls |
| AnchorAll.KeyFields | crates/simstore/src/main.rs:120-130 | a study key is the leaf as transaction, output 0, and the index as block position, saturated at u32::MAX |
| AnchorAll.AnchoredAnswers | crates/simstore/src/main.rs:233-242 | every anchored key answers an entry of the list for the same leaf, and the root has that list's assistance |
| AnchorAll.AnchoredAnswersExactly | crates/simstudy/src/main.rs:213-223 | over at most 2^32 leaves the answer is for exactly the queried index |
| AnchorAll.AnsweredAsQueried | crates/simstore/src/main.rs:120-130 | over at most 2^32 leaves the list of indices answered for is the list queried |
| Storage.MeasureStoreBytes | crates/simstore/src/main.rs:147-185 | the loops compute the three byte counts of any stored proofs, distinct upper shards counted once |
| StorageLaws.EntryMeasures | crates/simstore/src/main.rs:141-144 | an entry holds depth siblings, min(k, depth) of them below k, and one upper shard exactly when k is below the depth |
| StorageLaws.UpperShardsShared | crates/simstore/src/main.rs:160-172 | two indices with equal index >> k have identical upper siblings |
| StorageLaws.UpperPerBlock | crates/simstore/src/main.rs:160-172 | there are at most ceil(n / 2^k) distinct upper shards |
| StorageLaws.UpperPathCount | crates/simstore/src/main.rs:160-172 | distinct upper paths are at most the occupied blocks, these at most the queries and the blocks of the tree; over distinct labels they are exactly as many as the occupied blocks |
| StorageLaws.StudyCounts | crates/simstore/src/main.rs:147-185 | exact totals of siblings, lower siblings and labels of an anchored study, and of siblings in distinct upper shards as paths times remaining depth |
| StorageLaws.RetrievalBytes | crates/simstore/src/main.rs:187-203 | a retrieval is 32 bytes per level plus the index; the assisted one is smaller exactly when k is below the depth |
| Baseline.ComparedWithBaseline | crates/simstore/src/main.rs:147-185 | full storage always exceeds the baseline by the labels; minimum <= deduplicated <= full; each of the lower two is within the baseline if and only if the labels pay off against the upper shards it stores |
| Baseline.SpreadQueriesNeverPayOff | crates/simstore/src/main.rs:147-185 | queries in pairwise different blocks never meet the condition, for any tree and level |
| Baseline.LabelsArePaidFor | crates/simstore/src/main.rs:393-428 | at half depth, with at least max(n/2, 2) queries, the minimum viable store meets its condition, for every n from 2 on |
| Baseline.SharingBeatsBaseline | crates/simstore/src/main.rs:393-428 | at half depth, with at least n/2 queries in any number of blocks, the deduplicated store meets its condition, for every n from 10 on |
| Baseline.HalfDepthThreshold | crates/simstore/src/main.rs:393-428 | at half depth every choice of at least max(n/2, 2) leaves (one of one leaf) meets the condition if and only if there are at least 10 leaves |
| StorageLaws.WithinBaselineIff | docs/AUDIT.md:18-18 | for every study exactly which counts are within the baseline, in terms of distinct upper paths and, over distinct labels, of leaves, queries, level and occupied blocks alone |
| StorageLaws.WithinBaselineByQueries | docs/AUDIT.md:18-18 | over distinct leaves the condition on the queries is exact, or the labels of two blocks give an extracted collision |
| StorageLaws.HalfDepthStudyWithin | crates/simstore/src/main.rs:393-428 | the tested inequality for any leaves and hash, at least half of 10 or more leaves queried |
| StorageLaws.SmallTreeExceedsBaseline | crates/simstore/src/main.rs:393-428 | below 10 leaves with distinct labels, queries of half the leaves exist whose deduplicated store exceeds the baseline |
| StorageLaws.EntriesPass | crates/simstore/src/main.rs:275-287 | after the anchoring loop both verifiers accept every entry read back with its queried leaf |
| StorageLaws.VerifyEvery | crates/simstore/src/main.rs:275-287 | the verification loop succeeds exactly when both verifiers accept every entry |
| StorageLaws.MeasuredCounts | crates/simstore/src/main.rs:225-254 | the five byte counts written out in leaves, queries, level and distinct upper paths |
| StorageLaws.StorageStudy | crates/simstore/src/main.rs:225-287 | the study never fails and returns the exact five counts, a function of leaves, queries, level and distinct upper paths; over at most 2^32 leaves these are the paths of the queried indices |
| Accounting.InvoiceTotal.Verify | crates/accounting/src/lib.rs:65-79 | net plus tax against gross plus discount, as true sums: Ok exactly when equal and within 64 bits, Overflow exactly when a side is not, EquationDoesNotHold exactly when both fit and differ |
| Accounting.ArRollForward.Verify | crates/accounting/src/lib.rs:113-131 | opening plus invoices against closing plus receipts, credit notes and write-offs, as true sums: Ok exactly when equal and within 64 bits, Overflow exactly when a side is not, EquationDoesNotHold exactly when both fit and differ |
| Accounting.DebitsCredits.Verify | crates/accounting/src/lib.rs:154-168 | the total of all debits against that of all credits, for any lengths, as true sums: Ok exactly when equal and within 64 bits, Overflow exactly when a side is not, EquationDoesNotHold exactly when both fit and differ |
| Accounting.BankReconciliation.Verify | crates/accounting/src/lib.rs:194-204 | book cash plus all items against the balance, as true sums: Ok exactly when equal and within 64 bits, Overflow exactly when a side is not, EquationDoesNotHold exactly when both fit and differ |
| Accounting.VatPayable.Verify | crates/accounting/src/lib.rs:230-240 | output tax against payable plus input tax, as true sums: Ok exactly when equal and within 64 bits, Overflow exactly when a side is not, EquationDoesNotHold exactly when both fit and differ |
| Accounting.ReorderingKeepsVerdict | crates/accounting/src/lib.rs:147-169 | reordering either side never changes the verdict |
| Accounting.ReorderingKeepsReconciliation | crates/accounting/src/lib.rs:194-204 | reordering the items of a reconciliation never changes the verdict |
| RollForward.RollForwardHolds | crates/simstudy/src/main.rs:269-297 | true exactly when the four totals by kind are, modulo 2^64, the claimed ones in their order and opening plus invoices equals closing plus receipts, credit notes and write-offs within 64 bits |
| RollForward.KindTotalPush | crates/simstudy/src/main.rs:270-279 | a total by kind is the sum of the values of that kind and no other |
| RollForward.CleanPopulationHolds | crates/simstudy/src/main.rs:287-296 | a population with true totals passes exactly when they satisfy the equation within 64 bits |
| RollForward.AlteredValueDetected | crates/simstudy/src/main.rs:309-321 | changing any one value of a clean population is always rejected |
| RollForward.OmissionDetectedIff | crates/simstudy/src/main.rs:323-337 | omitting any record is rejected exactly when its value is not zero |
| RollForward.DuplicationDetectedIff | crates/simstudy/src/main.rs:339-353 | duplicating any record is rejected exactly when its value is not zero |
| RollForward.RekindingDetectedIff | crates/simstudy/src/main.rs:269-297 | booking a record under another kind is rejected exactly when its value is not zero |
| RollForward.PermutationUndetected | crates/simstudy/src/main.rs:269-297 | the verdict does not depend on the order of the records |
| RollForward.OriginFalsehoodUndetectedIff | crates/simstudy/src/main.rs:417-464 | raising an invoice and a receipt together with their totals passes exactly when the equation's sides still fit 64 bits |
| Study.SamplesIncrease | crates/simstudy/src/main.rs:491-494 | the sample is j * total / size for each j, in range and strictly increasing, for every population and sample size |
| Study.AnchorSample | crates/simstudy/src/main.rs:481-497 | leaf i is the digest of record i; exactly the sampled indices are anchored, in a new store at half the depth |
| Study.Included | crates/simstudy/src/main.rs:229-231 | an index passes exactly when its key has an entry along which its leaf walks to the stored root; otherwise the error says which failed |
| Study.RunInclusionSample | crates/simstudy/src/main.rs:226-235 | passes all indices or returns the first failure |
| Study.RunSelectiveDisclosureChecks | crates/simstudy/src/main.rs:242-265 | errs exactly on a missing key, and otherwise returns the number of positions whose answer is for their own index |
| Study.AllAnswerTheirOwn | crates/simstudy/src/main.rs:259-264 | that number is the sample size exactly when every answer is for its own index |
| Study.SamplePasses | crates/simstudy/src/main.rs:495-505 | after the anchoring loop every sampled index passes both checks |
| Study.RunStudy | crates/simstudy/src/main.rs:475-505 | the study fails exactly on populations that violate the identity, with that error, and otherwise both checks pass the whole sample |
| Faults.RunFaultInjection | crates/simstudy/src/main.rs:299-415 | the injected copies give three population classes and then the evidence classes of the entry under the first key, failing exactly when that key has none |
| Faults.PopulationFaultsReported | crates/simstudy/src/main.rs:309-353 | for any population each class is reported missed exactly when its mutant (first value plus one wrapping, first record removed, first record appended) passes, and falsely flagged exactly when the population itself fails |
| Faults.EvidenceFaultsReported | crates/simstudy/src/main.rs:355-412 | each evidence fault is reported missed exactly when the walk it presents ends at the root it is checked against |
| Faults.FlipIsLowBit | crates/simstudy/src/main.rs:361-362 | the tampered leaf differs in the low bit of its first byte and nowhere else |
| Faults.BadRootBytes | crates/simstudy/src/main.rs:401-402 | the wrong root is 0xff followed by zeros |
| Faults.PopulationFaultsDetected | crates/simstudy/src/main.rs:309-353 | on a clean population nothing is falsely flagged and the three population faults are missed only for a zero value |
| Faults.EvidenceFaultsDetected | crates/simstudy/src/main.rs:355-412 | after the anchoring loop, for a sample of any size, each injected evidence fault is detected, up to the named exception or an extracted collision |
| Faults.TamperedLeafDetected | crates/simstudy/src/main.rs:355-374 | a flipped leaf bit is detected against its entry or a collision is extracted |
| Faults.WrongIndexMissedIff | crates/simstudy/src/main.rs:376-394 | under any other index the proof is missed when the sides differ only between equal labels, and otherwise only with an extracted collision |
| Faults.WrongIndexHonestThere | crates/simstudy/src/main.rs:376-394 | under another index of the tree it is missed when it is the honest proof there too, and otherwise only with an extracted collision |
| Faults.WrongIndexCanBeMissed | crates/simstudy/src/main.rs:376-394 | over two equal leaves the wrong index is missed |
| Faults.WrongRootDetectedIff | crates/simstudy/src/main.rs:396-412 | the wrong root is detected exactly when it is not the root |
| Hex.DecodeEncode | crates/cli/src/main.rs:145-160 | decoding undoes encoding for all byte strings |
| Hex.EncodeDecode | crates/cli/src/main.rs:145-160 | text that decodes is, in lower case, the encoding of the result |
| Hex.DigitValueIff | crates/cli/src/main.rs:145-160 | a digit of either case decodes to its numeric value and nothing else decodes |
| Hex.EncodeAt | crates/cli/src/main.rs:145-160 | byte i is written as its two lower-case digits, high one first, at position 2i |
| Hex.DecodeIff | crates/cli/src/main.rs:145-160 | text decodes to given bytes exactly when it has two digits for each, in order |
| Hex.WhitespaceIff | crates/cli/src/main.rs:145-160 | the white space that is trimmed is the 25 characters of the Unicode property |
| Hex.TrimIff | crates/cli/src/main.rs:145-160 | trimming takes exactly the white space off both ends |
| Cli.DisplayIsReversed | crates/cli/src/main.rs:156-160 | byte i of the display text is internal byte 31 - i, in two lower-case digits |
| Cli.InternalIsReversed | crates/cli/src/main.rs:145-154 | text is read as a hash exactly when, trimmed, it decodes to 32 bytes of which byte i is internal byte 31 - i; the two errors exactly otherwise |
| Cli.InternalAllInOrder | crates/cli/src/main.rs:481-486 | siblings are read each in its place, or the error is that of the first that fails |
| Cli.InternalDisplayInternal | crates/cli/src/main.rs:145-160 | showing a hash and reading it back, through both byte reversals, gives the hash |
| Cli.DisplayInternalDisplay | crates/cli/src/main.rs:145-160 | accepted text is shown again as itself, trimmed and in lower case |
| Cli.RecordsInOrder | crates/cli/src/main.rs:174-186 | record i is what text i decodes to, and there are records exactly when every text decodes |
| Cli.LoadRecords | crates/cli/src/main.rs:174-186 | the loop returns record i of text i and its digest for every i, and fails exactly when some text does not decode |
| Cli.Prove | crates/cli/src/main.rs:438-453 | writes version 2, the index, the record, and in display order the root, the leaf and every sibling of the recursive tree; or the loading or range error |
| Cli.BundleVerdictIff | crates/cli/src/main.rs:468-524 | a bundle is accepted exactly when its version is 2, its parts are readable, the walk ends at its root, its record hashes to its leaf and its index fits u32; each check fails with its own error exactly when the earlier ones pass |
| Cli.Verify | crates/cli/src/main.rs:468-524 | decides the bundle by its own parts; the re-anchored audit that follows never changes the outcome |
| Cli.ProvedBundleVerifies | crates/cli/src/main.rs:438-530 | the bundle written for any record is accepted exactly when its index fits u32 |
| Cli.PreimageAt | crates/merkle/src/lib.rs:205-213 | behind every label of the tree over records stands a byte string with that digest, the record or a 64-byte block |
| Cli.VerifiedBundleIsSound | crates/cli/src/main.rs:468-530 | an accepted bundle with at most as many siblings as the tree is deep discloses the bytes behind the label its index stands for, in the level the siblings start from, or a named pair of byte strings collides |
| Cli.FullBundleDisclosesRecord | crates/cli/src/main.rs:468-530 | with all siblings and an index in range it discloses the record at that index, or a named pair collides |

## Left out

- SHA-256 itself: it is external to the repository (`crates/bsv/src/lib.rs`) and enters as an uninterpreted function.
- Rejection of truncated or over-long proofs of a given leaf: it needs absence of hash cycles, which the code does not provide; `MerkleLaws.InnerLabelAccepted` shows the limit. For the same reason what passes the assisted verifier against the labels of a deeper list with the same root is not bounded.
- Overflow of `usize` in index and byte arithmetic (`i * records.len()`, byte sums): sizes are unbounded here.
- The trusted-operational mode: a stub that always errs in the code; it is kept as that error.
- The round of pairing that three loops of the code repeat inline is one method, `Merkle.FoldPairs`.
- Early returns that cannot be reached (assistance after a computed root, root of labels after a label was found) appear as assertions that the call succeeded.
- `slice::reverse`, `hex` and `str::trim` are library calls and are modelled as functions on values, not in place.
- Random generation of leaves, populations and query indices, timings, percentiles and floating-point ratios: indices and populations are arbitrary inputs instead.
- The canonical JSON of a record: an arbitrary function from records to bytes.
- Error contexts (which sibling or record string was bad), JSON and file reading and writing, printing, and the remaining subcommands.
- `origin_falsehood_check` as a procedure: its two-record population is an instance of `RollForward.OriginFalsehoodUndetectedIff`.
- The record counts of the population summary, which no check reads.
- Benchmarks, the Python bridges under `examples/`, everything under `legacy/`, and header chains, which the code does not implement.
