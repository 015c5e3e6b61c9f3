# Merkle Mountain Ranges, cycle proofs and bit packing: a verified model

This project models the parts of the `mimblewimble` package whose correctness rests on bit-level
arithmetic and long-lived state, and proves what they promise.

**The Merkle Mountain Range stack.** `PostOrder` defines the height of a position and the number of leaves
below it by recursion over perfect binary trees laid out in postorder. `MmrIndex`, `MmrPeaks` and
`LegacyIndex` prove every closed form and loop of `index.py` against that definition. `Hashing` defines the
hash of a node and the root by recursion, `RootMeanings` restates both as equations between stored hashes,
`Binding` proves that the root binds the leaves. `MerkleProofs` holds verifier and prover with completeness
and soundness, `ProofLayouts` what a proof holds, `ProofSizes` what one can get accepted by claiming another
size. `Storage` models the two buffered files and the prune bitmap as classes, `Pmmrs` the PMMR class over
them, each method equated with a step of `PmmrState`. `Forests` and `Runs` describe what any run of push,
prune and rewind leaves behind, `PrunedRoot` what that means for `root`, `validate` and Merkle proofs,
`PruneLosses` runs in which all three are lost, `Pushes` the runs without prunes; `Validation` is about stores
that were damaged. `Bitmaps` is the bitmap accumulator. `TxIndex` and `TxHashSets` are the three PMMRs and the
commitment index, `Blocks` what blocks and rewinds do to them, `Ledgers` the plain ledger that every run of
them holds.

**The cycle verifiers.** `Cycles` is the walk over partner links, `Tours` the same cycle as an order of the
edges, `Slots` where the links come from, `Sides` the slots themselves, `XorPairs` the prefilter, `Buckets`
the circular lists; `Cuckatoo`, `Cuckaroo` and `Cuckarooz` are the three verifiers.

**Two bit packers.** `Mnemonics` and `PowPacking` with their loops and round trips, `Phrases` and
`PackedNumbers` with what they write and read as numbers.

Notes for the reader:

- The hash is an arbitrary function from a position and bytes to 32 bytes. Nothing assumes that it is injective:
  the binding and soundness theorems say that the conclusion holds or two *named* finite sets of hashed inputs
  hold a collision (or an input hashing to 32 zero bytes). The endpoint functions of the cycle verifiers and
  the checksum byte of the mnemonics are arbitrary functions too.
- A `Forest` is the history of a PMMR: leaves, pruned leaf numbers, and the *blind* parents, those that push
  formed over a left child already overwritten with zeros. `Abs` is the state it stands for.
- Methods are equated with functions, and the lemmas are about those functions, so both halves are needed
  to read a result. `CuckatooExact`, `BlockMeaning`, `EncodeExact`, `PackExact` and their like say what such a function gives
  without its helpers: over node functions and edges, over the states before and after, over numbers.

Where code and documentation or names disagree, the model follows the code:

- `prune` promises to keep the highest surviving ancestor for the root, but zeroes a fully pruned peak as well.
  `PrunedRoot.RootExact` gives the exact condition under which the root survives, `RunKeepsRoot` its form over runs,
  `PruneLosses.RootLost` a run in which it does not.
- `validate` says it skips pruned subtrees, but leaf hashes are never zeroed, so the zeroed parent of two pruned
  sibling leaves fails, as in `PruneLosses.RootLost`. `PrunedRoot.ValidateExact` gives the exact condition.
- `validate` promises to check all internal hashes, and does, but a wrong leaf hash is only noticed at its parent: not for
  a leaf that is a peak, and not when it is zeros (`Validation.DamageExact`).
- `merkle_proof` reads zeroed siblings without noticing. `PrunedRoot.PrunedProofExact` says when the proof still works,
  `PrunedRoot.AliveProofAccepted` what a caller can check beforehand, `PruneLosses.ProofLost` gives a run in which it does not.
- `MerkleProof.verify` accepts the zero hash at any position against the root of an empty PMMR
  (`MerkleProofs.EmptyRangeAccepts`); soundness is therefore stated for nonempty ones. It also takes path entries
  of any length; soundness is stated for 32-byte entries, as the wire format has them.
- The verifier takes the size of the PMMR from the proof. `MerkleProofs.Soundness` is about proofs that claim the true
  size; `ProofSizes.AcceptsExact` covers every claim. Offering the root itself under size 0 or as the sole peak of a full
  tree is always accepted, and `2^k - 2` is accepted in place of `2^k - 1`.
- `MMRIndex.getSibling` gives the wrong height exactly for left children (`LegacyIndex.SiblingMeaning`).
- `MMRDataFile.rewind` cuts at the end of the last kept entry, which loses bytes of an earlier entry that was
  repointed past it (`Storage.CutExact`, `Storage.MMRDataFile.Rewind`, `Storage.RewindAfterRepoint`).
- `verify_cuckarooz` names a status the enumeration lacks for edges out of order: `NoSuchStatus`.
- `mnemonicFromEntropy` fails on more than 32 bytes, where a shift count turns negative.
- No cycle verifier has a lower bound on edge numbers, so "in range" means at most the edge mask.

## Model

| member | source | states |
|---|---|---|
| `MmrIndex.ComputePeakMapHeight` | mimblewimble/mmr/index.py:93-124 | the loop gives the greedy peak map and remainder for every size below 2^64 and fails for every larger one |
| `MmrIndex.PeakMapHeightMeaning` | mimblewimble/mmr/index.py:93-141 | for every size, mid-merge sizes included, the greedy remainder is the true postorder height of the next node, and the peak map (plus one on a positive remainder) counts the leaf positions below the size |
| `MmrIndex.LeafPosMeaning` | mimblewimble/mmr/index.py:144-151 | `2n - popcount(n)` is a leaf position with exactly n leaves below it |
| `MmrIndex.LeafIndexInverse` | mimblewimble/mmr/index.py:144-165 | leaf number to position and position to leaf number are inverse in both directions, and only leaf positions have a number |
| `MmrIndex.LeafPosGrows` | mimblewimble/mmr/index.py:144-151 | leaf positions grow with the leaf number |
| `MmrIndex.RoundUpMeaning` | mimblewimble/mmr/index.py:320-332 | the result is the least leaf position not below the argument |
| `PostOrder.NextHeight` | mimblewimble/mmr/index.py:168-179 | the node after a node is a leaf or one higher |
| `MmrIndex.FamilyMeaning` | mimblewimble/mmr/index.py:187-220 | siblings name each other, have equal heights, opposite sides and one parent, one higher, whose two children they are |
| `MmrIndex.RangeOfParent` | mimblewimble/mmr/index.py:284-292 | the range of a parent is the left child's range, then the right child's, then the parent |
| `MmrIndex.OutermostLeaves` | mimblewimble/mmr/index.py:295-317 | leftmost and rightmost are the first and the last leaf of the range |
| `MmrPeaks.ComputePeaks` | mimblewimble/mmr/index.py:256-281 | the nested loops compute the peak list of every size, valid or not |
| `MmrPeaks.PeaksExact` | mimblewimble/mmr/index.py:256-281 | for every size, valid or not, a list is the peak list exactly when it cuts the positions from the left, each entry ending the largest full tree that still fits |
| `MmrPeaks.PeaksPartition` | mimblewimble/mmr/index.py:93-124 | for a valid size the peaks cut `[0, size)` into full subtrees of strictly decreasing height, one per bit of the leaf count, and the peak map is the leaf count |
| `MmrPeaks.ComputeFamilyBranch` | mimblewimble/mmr/index.py:223-253 | the loop collects the branch up to the last parent inside the size |
| `ProofLayouts.BranchExact` | mimblewimble/mmr/index.py:223-253 | a list is the branch exactly when it climbs from parent to parent, with the sibling on each level, for as long as the parent is inside the size |
| `MmrPeaks.ParentlessIsPeak` | mimblewimble/mmr/index.py:223-281 | in a valid size every position whose parent is outside is a peak |
| `MmrPeaks.BranchEndsAtPeak` | mimblewimble/mmr/index.py:223-281 | from any position in range the branch ends at the peak whose range holds that position |
| `LegacyIndex.FillMeaning` | mimblewimble/helpers/__init__.py:1-9 | on 64-bit numbers the shift-or chain gives all ones up to the top bit |
| `LegacyIndex.CalculateHeight` | mimblewimble/mmr/index.py:61-69 | for every position the loop computes `HeightLoop` from the filled number down |
| `LegacyIndex.LegacyHeightMeaning` | mimblewimble/mmr/index.py:61-69 | on 64-bit positions the second implementation of the height agrees with the first |
| `LegacyIndex.WideHeightFails` | mimblewimble/mmr/index.py:61-69 | beyond them it does not: the leaf position 2^65 is given height 1 |
| `LegacyIndex.CalculateLeafIndex` | mimblewimble/mmr/index.py:71-80 | for every position the loop computes `LeafLoop` from the filled number down |
| `LegacyIndex.LegacyLeafMeaning` | mimblewimble/mmr/index.py:71-80 | on 64-bit leaf positions the second implementation of the leaf number agrees with the first |
| `LegacyIndex.WideLeafFails` | mimblewimble/mmr/index.py:71-80 | beyond them it does not: the leaf at 2^65 is given a number one too low |
| `LegacyIndex.ParentMeaning` | mimblewimble/mmr/index.py:39-43 | getParent is the parent `family` names, at its true height, and undoes one of the child functions |
| `LegacyIndex.SiblingMeaning` | mimblewimble/mmr/index.py:45-51 | getSibling names the right position always and the right height exactly for right children |
| `LegacyIndex.ChildrenMeaning` | mimblewimble/mmr/index.py:53-59 | the child functions give nodes at their true height, each with the node as its parent |
| `Hashing.NodeHashStable` | mimblewimble/mmr/pmmr.py:93-131 | the hash of a node does not depend on leaves added later |
| `RootMeanings.NodesExact` | mimblewimble/mmr/pmmr.py:93-131 | a list is the hashes of all nodes exactly when each leaf entry is the hash of its position and leaf and each other entry the hash of its position, its left child's entry and its right child's entry, in this order |
| `RootMeanings.RootExact` | mimblewimble/mmr/pmmr.py:217-248 | the root is what is bagged at the first peak, from the right: each peak's entry hashed, at the size of the PMMR, in front of what is bagged behind it; 32 zero bytes without leaves |
| `Hashing.NodeBinding` | mimblewimble/mmr/pmmr.py:84-131 | equal hashes at a node mean equal leaves under it, or a collision |
| `Binding.NoSizeBeforePeak` | mimblewimble/mmr/index.py:144-151 | `2^k - 2` is no valid size for k >= 2 |
| `Binding.RootBinding` | mimblewimble/mmr/pmmr.py:217-248 | equal roots of two leaf sequences of any lengths mean equal sequences, unless two hashed inputs collide or one hashes to 32 zero bytes |
| `MerkleProofs.Verify` | mimblewimble/mmr/proof.py:95-161 | the verifier's loops decide exactly `Accepts`, early exits included |
| `MerkleProofs.RootIsBagged` | mimblewimble/mmr/pmmr.py:217-248 | bagging the stored peaks of an unpruned PMMR gives the root of its leaves |
| `MerkleProofs.ProofAccepted` | mimblewimble/mmr/proof.py:95-161 | whatever the hash store holds, the generated proof is accepted against its bagged root when each parent on the branch is the hash of its stored children |
| `MerkleProofs.Completeness` | mimblewimble/mmr/pmmr.py:305-362 | on an unpruned PMMR the proof for any position in range is accepted with that position's hash and the root |
| `MerkleProofs.ClimbSound` | mimblewimble/mmr/proof.py:112-123 | a climb that reaches the genuine peak started from the genuine hash and used the genuine siblings, or inputs collide |
| `MerkleProofs.BagsToSound` | mimblewimble/mmr/proof.py:129-161 | bagging that reaches the root used the genuine peak, left peaks and right part, or inputs collide |
| `MerkleProofs.Soundness` | mimblewimble/mmr/proof.py:95-161 | a proof of 32-byte entries that claims the own size of a nonempty PMMR and is accepted against its genuine root is for a position in range and its stored hash, and is entry for entry the one the prover builds, or inputs collide |
| `ProofSizes.RootlessAccepts` | mimblewimble/mmr/proof.py:112-161 | claiming one position less than a full tree has is accepted exactly when claiming the full tree is, over the same hashed inputs, for positions below |
| `ProofSizes.LastOfVerify` | mimblewimble/mmr/proof.py:112-161 | an accepted proof hashed last a bagging step indexed by its claimed size or the claimed sole peak, or hashed nothing |
| `ProofSizes.AcceptsExact` | mimblewimble/mmr/proof.py:95-161 | for every claimed size: against the genuine root of a nonempty PMMR a proof of 32-byte entries is accepted if and only if it is the prover's path for a position in range and its stored hash, under the PMMR's size or, for a single tree, one less, or the root itself is offered for size 0 or as the sole peak with an empty path; or inputs collide |
| `MerkleProofs.EmptyRangeAccepts` | mimblewimble/mmr/proof.py:105-132 | against the empty PMMR's root exactly the zero hash is accepted, at every position and with every path |
| `Storage.MMRHashFile.Get` | mimblewimble/mmr/storage.py:87-100 | reads the sequence of hashes across file and buffer, nothing out of range |
| `Storage.MMRHashFile.Append` | mimblewimble/mmr/storage.py:102-105 | appends to that sequence |
| `Storage.MMRHashFile.Set` | mimblewimble/mmr/storage.py:107-119 | overwrites one entry on either side of the flush boundary, ignores positions past the end |
| `Storage.MMRHashFile.Flush` | mimblewimble/mmr/storage.py:121-131 | is invisible and empties the buffer |
| `Storage.MMRHashFile.Rewind` | mimblewimble/mmr/storage.py:133-149 | keeps exactly the prefix |
| `Storage.MMRDataFile.GetData` | mimblewimble/mmr/storage.py:199-212 | reads the sequence of leaves through the offset index or the buffer |
| `Storage.MMRDataFile.AppendData` | mimblewimble/mmr/storage.py:214-218 | appends and returns the leaf number |
| `Storage.MMRDataFile.SetData` | mimblewimble/mmr/storage.py:220-257 | replaces one leaf or pads with empty leaves and appends; on disk the new bytes go to the end and the one entry is repointed there, in the buffer the files stay as they are |
| `Storage.MMRDataFile.Flush` | mimblewimble/mmr/storage.py:259-275 | is invisible; bytes and entries of the buffered leaves are appended to the files, and the index stays correct after repointing |
| `Storage.MMRDataFile.Rewind` | mimblewimble/mmr/storage.py:277-301 | keeps the prefix exactly when the last kept entry ends no earlier than the other kept ones; always for an index never repointed |
| `Storage.RewindAfterRepoint` | mimblewimble/mmr/storage.py:277-301 | three leaves flushed, the first set to any other nonempty bytes, rewound to two: the first leaf's bytes are lost |
| `Storage.RewindAfterBufferedWrite` | mimblewimble/mmr/storage.py:220-301 | a write to a leaf still in the buffer leaves a later rewind exact |
| `Storage.CutExact` | mimblewimble/mmr/storage.py:282-296 | the kept entries read as before after the truncation if and only if all of them end inside the cut |
| `Storage.AppendedLeaves` | mimblewimble/mmr/storage.py:263-275 | whatever was repointed before, appended leaves read as written, old ones as before, and cuts among the new ones keep everything |
| `Storage.OrderedCut` | mimblewimble/mmr/storage.py:282-296 | entries in the order they were appended always survive the cut |
| `Storage.PruneBitmap.MarkPruned` | mimblewimble/mmr/storage.py:333-337 | adds one leaf number |
| `Storage.PruneBitmap.Save` | mimblewimble/mmr/storage.py:355-362 | the file then holds the set |
| `Storage.PruneBitmap.Rewind` | mimblewimble/mmr/storage.py:374-381 | drops exactly the leaf numbers from the bound on |
| `Pmmrs.PMMR.constructor` | mimblewimble/mmr/pmmr.py:59-74 | without files it starts empty |
| `Pmmrs.PMMR.Open` | mimblewimble/mmr/pmmr.py:59-74 | over existing files it starts from the records, leaves and prune set they hold |
| `Pmmrs.PMMR.Push` | mimblewimble/mmr/pmmr.py:93-131 | the whole new state is `PmmrState.Push` of the old one; returns the old size as the leaf position |
| `Pmmrs.PMMR.MergeParents` | mimblewimble/mmr/pmmr.py:112-129 | the merge loop appends the parents `MergeUp` names |
| `Pmmrs.PMMR.Root` | mimblewimble/mmr/pmmr.py:217-248 | bags the stored peaks, or gives zeros when empty |
| `Pmmrs.PMMR.Prune` | mimblewimble/mmr/pmmr.py:368-391 | refuses non-prunable PMMRs and non-leaves unchanged; otherwise the new state is `PmmrState.Prune` of the old one |
| `Pmmrs.PMMR.CompactAncestorsOf` | mimblewimble/mmr/pmmr.py:393-407 | the climbing loop overwrites what `CompactAncestors` names |
| `Pmmrs.PMMR.Validate` | mimblewimble/mmr/pmmr.py:424-455 | passes exactly when every internal node is the hash of its stored children or has a zero child |
| `Validation.ValidateMeaning` | mimblewimble/mmr/pmmr.py:424-455 | on any store of valid size whose leaf entries are the leaf hashes and which holds no zero entry, validate passes exactly when every entry is the tree hash of the leaves |
| `Validation.WrongNodeFound` | mimblewimble/mmr/pmmr.py:447-455 | with zero entries about: an internal entry that differs from the hash of its two nonzero children makes it fail, at every height |
| `Validation.NothingElseFound` | mimblewimble/mmr/pmmr.py:424-455 | nothing else makes it fail |
| `Validation.DamageExact` | mimblewimble/mmr/pmmr.py:424-455 | one damaged record among genuine ones goes unnoticed exactly when it is a leaf's and zeroed or without a parent, unless the parent's hash collides or a node hashes to zeros |
| `Validation.UnreadLeaf` | mimblewimble/mmr/pmmr.py:436-447 | such a leaf record can indeed hold anything |
| `Pmmrs.PMMR.Rewind` | mimblewimble/mmr/pmmr.py:461-473 | the new state of all three stores is `PmmrState.Rewind` of the old one, across the flushes inside |
| `Pmmrs.PMMR.Flush` | mimblewimble/mmr/pmmr.py:479-484 | is invisible; afterwards both buffers are empty and the prune set is saved |
| `Pmmrs.PMMR.CloseAndReopen` | mimblewimble/mmr/pmmr.py:550-553 | a PMMR opened on the files a close leaves is in the same state, hashes, leaves and prune set |
| `Pmmrs.PMMR.LeafPosIter` | mimblewimble/mmr/pmmr.py:281-291 | lists the unpruned leaf positions in order |
| `Pmmrs.PMMR.LeafIdxIter` | mimblewimble/mmr/pmmr.py:293-299 | lists number and position of the unpruned leaves from a number on |
| `TxIndex.PositionsListed` | mimblewimble/mmr/pmmr.py:281-291 | a position is listed exactly when it is in range, a leaf and not pruned |
| `TxIndex.PositionsAscend` | mimblewimble/mmr/pmmr.py:281-291 | and in ascending order |
| `PmmrState.NumbersListed` | mimblewimble/mmr/pmmr.py:293-299 | a number is listed with a position exactly when it is an unpruned leaf number in range and the position is its own |
| `Pmmrs.PMMR.GetData` | mimblewimble/mmr/pmmr.py:198-211 | gives leaf data, nothing for non-leaves, pruned leaves and leaves out of range |
| `Pmmrs.PMMR.MerkleProofOf` | mimblewimble/mmr/pmmr.py:305-362 | builds `ProofFor` the position, in every left-peak and right-peak case |
| `ProofLayouts.ProofLayout` | mimblewimble/mmr/pmmr.py:305-362 | the proof claims the size and holds, in this order and nothing else: the stored hashes of the siblings up to the peak, those of the peaks to its left, what is bagged of the peaks to its right if there are any |
| `PmmrState.IteratorsAgree` | mimblewimble/mmr/pmmr.py:281-299 | the scan over positions and the loop over leaf numbers list the same leaves, n minus the pruned ones, when no leaf out of range is pruned |
| `Pmmrs.PMMR.NUnprunedLeaves` | mimblewimble/mmr/pmmr.py:270-275 | then the count from the sizes is the number of leaves either iterator lists |
| `Pushes.PopcountNext` | mimblewimble/mmr/pmmr.py:112-129 | the sizes before and after a push differ by one plus the trailing ones of n |
| `Pushes.PushUnpruned` | mimblewimble/mmr/pmmr.py:93-131 | from n leaves push puts the leaf at `2n - popcount(n)`, merges trailing-ones-of-n times, and leaves every hash the tree hash of the n+1 leaves |
| `Pushes.PushesValidate` | mimblewimble/mmr/pmmr.py:424-455 | after pushes alone validate passes and root is the root of the leaves |
| `Forests.SubtreePrunedMeaning` | mimblewimble/mmr/pmmr.py:409-418 | the recursion holds exactly when every leaf under the position is pruned |
| `Forests.CompactMeaning` | mimblewimble/mmr/pmmr.py:393-407 | the walk overwrites exactly the nodes above the pruned leaf, in range, that have no unpruned leaf left |
| `Forests.PruneOverwrites` | mimblewimble/mmr/pmmr.py:368-407 | on any state whatever: prune overwrites exactly the internal nodes in range that had an unpruned leaf below and no longer have one |
| `Forests.PushRefines` | mimblewimble/mmr/pmmr.py:93-131 | push on any pruned state adds the leaf and its parents and keeps the invariant, zeros read from overwritten left siblings included |
| `Runs.PruneRefines` | mimblewimble/mmr/pmmr.py:368-407 | prune keeps the invariant and overwrites exactly the newly fully pruned internal nodes |
| `Runs.RewindRefines` | mimblewimble/mmr/pmmr.py:461-473 | rewind to a valid size keeps the invariant and cuts leaves, hashes and prune set together |
| `Runs.RunRefines` | mimblewimble/mmr/pmmr.py:93-473 | over every run of push, in-range prune and rewind to valid sizes, an internal hash is zeros by pruning exactly when every leaf under it is pruned, and what push computed otherwise |
| `Runs.OverwrittenExactly` | mimblewimble/mmr/pmmr.py:368-418 | in terms of the state alone, after every run: leaf hashes are always those of the leaf data, a fully pruned internal node holds zeros, any other a hash made at its own position |
| `Runs.RewindUndoes` | mimblewimble/mmr/pmmr.py:461-473 | rewinding to an earlier size undoes any run of pushes, prunes of newer leaves and shorter rewinds: hashes, leaf data and prune set come back exactly |
| `PrunedRoot.RootPreserved` | mimblewimble/mmr/pmmr.py:217-248 | with no parent formed from zeros and every peak alive, root is the root of the same leaves never pruned |
| `PrunedRoot.RootExact` | mimblewimble/mmr/pmmr.py:388-407 | root is the unpruned root exactly when no push merged an overwritten peak and no peak is overwritten, unless hashes collide or are zero |
| `PrunedRoot.RunKeepsRoot` | mimblewimble/mmr/pmmr.py:388-407 | over every run in which each peak above the leaves keeps an unpruned leaf, root is the root of the same leaves never pruned |
| `PrunedRoot.ValidateExact` | mimblewimble/mmr/pmmr.py:424-455 | validate passes exactly when no two sibling leaves are both pruned, unless some node hashes to zeros |
| `PrunedRoot.PrunedProofExact` | mimblewimble/mmr/pmmr.py:305-362 | the proof for an unpruned leaf of a pruned PMMR is accepted exactly when no sibling on its branch was overwritten after its parent was formed, unless inputs collide or a node hashes to zeros |
| `PrunedRoot.AliveProofAccepted` | mimblewimble/mmr/pmmr.py:305-362 | in terms of the state alone: after every run the proof of an unpruned leaf is accepted if no internal sibling on its branch is fully pruned |
| `PruneLosses.PrunedRun` | mimblewimble/mmr/pmmr.py:368-407 | every leaf sequence with any leaves pruned after all pushes is reached by a run, which forms no parent from zeros |
| `PruneLosses.TwoPruned` | mimblewimble/mmr/pmmr.py:388-455 | push two leaves, prune both: root is 32 zero bytes, and validate fails unless one of the three nodes hashes to zeros |
| `PruneLosses.RootLost` | mimblewimble/mmr/pmmr.py:388-455 | with a concrete hash that run does lose the root and fail validate |
| `PruneLosses.FourPruned` | mimblewimble/mmr/pmmr.py:305-407 | push four leaves, prune the last two: the proof of the first is accepted only if zeros hash like the overwritten node |
| `PruneLosses.ProofLost` | mimblewimble/mmr/pmmr.py:305-407 | with a concrete hash that proof is rejected |
| `Bitmaps.SetBitMeaning` | mimblewimble/mmr/bitmap.py:53-69 | set_bit changes the one bit that is_set then reads |
| `Bitmaps.IsSetMeaning` | mimblewimble/mmr/bitmap.py:53-59 | bit b is the bit of weight `2^(b % 8)` of byte `b // 8`; out of 0 to 511 nothing is answered |
| `Bitmaps.SetBitAdds` | mimblewimble/mmr/bitmap.py:61-69 | setting a clear bit adds its weight to its byte, a set one changes nothing, and no other byte changes |
| `Bitmaps.IterSetBits` | mimblewimble/mmr/bitmap.py:71-78 | yields exactly the set bits, ascending |
| `Bitmaps.BitmapAccumulator.ApplyChunk` | mimblewimble/mmr/bitmap.py:132-138 | stores the chunk and drops the cached bitmap |
| `Bitmaps.BitmapAccumulator.BuildFromPmmr` | mimblewimble/mmr/bitmap.py:147-166 | afterwards the bits set are exactly the prune set, none without one |
| `Bitmaps.BitmapAccumulator.Finalize` | mimblewimble/mmr/bitmap.py:182-211 | the bit-by-bit meaning of the chunks; the cache is never stale |
| `Bitmaps.BitmapAccumulator.IsSpent` | mimblewimble/mmr/bitmap.py:213-216 | answers by the same meaning |
| `Bitmaps.PushLeaf` | mimblewimble/mmr/bitmap.py:257-277 | the accumulator's own push loop, with its extra guard, appends what PMMR.push would |
| `Bitmaps.PushChunks` | mimblewimble/mmr/bitmap.py:236-280 | pushing all chunk hashes gives the hash list of the PMMR over them |
| `Bitmaps.ChunkLeavesExact` | mimblewimble/mmr/bitmap.py:236-243 | leaf i of that PMMR is the hash of chunk i, or of 64 zero bytes if it is missing, at the position of leaf number i, and the leaves are the one list with that property |
| `Bitmaps.BitmapRoot` | mimblewimble/mmr/bitmap.py:222-298 | the PMMR root of as many leaves as the last chunk's number plus one, leaf i being the hash of chunk i, or of 64 zero bytes if missing, at the position of leaf number i; nothing exactly without chunks |
| `Bitmaps.BitmapBinding` | mimblewimble/mmr/bitmap.py:222-298 | equal roots mean the same last chunk number and the same bit for every leaf, unless two hashed inputs collide or one hashes to 32 zero bytes |
| `TxHashSets.NewTxHashSet` | mimblewimble/mmr/txhashset.py:576-588 | in an empty directory it starts with nothing, consistently |
| `TxHashSets.TxHashSet.ApplyBlock` | mimblewimble/mmr/txhashset.py:594-630 | the new state of the three PMMRs and the index is `TxIndex.ApplyBlock` of the old one, and consistency is kept |
| `TxHashSets.TxHashSet.AddOutput` | mimblewimble/mmr/txhashset.py:605-615 | output and range proof land at the same position: the assertion never fires on equal sizes |
| `TxHashSets.TxHashSet.Rewind` | mimblewimble/mmr/txhashset.py:948-954 | the new state is `TxIndex.RewindTx` of the old one; rewinding to valid sizes keeps consistency |
| `TxHashSets.TxHashSet.RebuildCommitIdx` | mimblewimble/mmr/txhashset.py:956-962 | the index over the surviving leaves, later positions winning |
| `TxHashSets.TxHashSet.CutThrough` | mimblewimble/mmr/txhashset.py:637-647 | the range proofs' prune set becomes the union of both and exactly the nodes this leaves without an unpruned leaf are overwritten; nothing changes when it already is |
| `TxHashSets.TxHashSet.CutThroughConsistent` | mimblewimble/mmr/txhashset.py:637-647 | in a consistent state nothing changes |
| `Pmmrs.PMMR.PruneMissing` | mimblewimble/mmr/txhashset.py:644-647 | in whatever order, the loop prunes exactly the listed leaves and overwrites exactly the nodes this leaves without an unpruned leaf |
| `TxHashSets.TxHashSet.CommitToOutputPos` | mimblewimble/mmr/txhashset.py:903-905 | the answer is the entry, and always an in-range leaf storing that commitment |
| `TxHashSets.TxHashSet.MerkleProofForOutput` | mimblewimble/mmr/txhashset.py:907-912 | the PMMR proof for the indexed position, nothing for an unknown commitment |
| `TxIndex.ApplyBlockInStep` | mimblewimble/mmr/txhashset.py:594-630 | a block keeps output and range proof histories in step and the index true to them |
| `Blocks.BlockMeaning` | mimblewimble/mmr/txhashset.py:594-630 | over the states before and after: outputs, range proofs and kernels are the old ones followed by the block's; a commitment's entry is the position of the block's last output with it, else its old entry; both prune sets grow by exactly the leaf numbers of the entries that the inputs have, and the kernels keep all their tree hashes |
| `Blocks.InputSpent` | mimblewimble/mmr/txhashset.py:623-630 | every input whose commitment is indexed or among the block's outputs is spent afterwards: its entry names a leaf that stores it, pruned in both PMMRs |
| `Blocks.RewindMeaning` | mimblewimble/mmr/txhashset.py:948-962 | over the states before and after: all three PMMRs keep the leaves before the target sizes, with what is pruned of them; the index holds exactly the commitments of unspent outputs, each at the last output that has it |
| `TxIndex.RebuiltIndex` | mimblewimble/mmr/txhashset.py:956-962 | the rebuilt index names only leaves storing their commitment and covers every unpruned one |
| `TxIndex.LaterWins` | mimblewimble/mmr/txhashset.py:956-962 | no entry is before a listed position that stores its commitment |
| `TxIndex.RewindInStep` | mimblewimble/mmr/txhashset.py:948-962 | so does a rewind to a valid size |
| `TxIndex.RunKeepsIndex` | mimblewimble/mmr/txhashset.py:594-630 | over every run of blocks and rewinds to valid sizes: equal sizes and prune sets, entries name in-range leaves storing their commitment, every unpruned commitment has an entry |
| `TxIndex.RunIndexExact` | mimblewimble/mmr/txhashset.py:594-630 | if no output repeats the commitment of one unspent at that moment, after every run the entry of each unspent output is exactly its own position |
| `Ledgers.RunIsLedger` | mimblewimble/mmr/txhashset.py:594-962 | after every run of blocks and rewinds to valid sizes in which no output reuses an unspent commitment the three PMMRs and the index hold a plain ledger: outputs in order, spent exactly those whose commitment was an input after they came, kernels with all tree hashes, each unspent output's own position in the index |
| `Ledgers.BlockRecorded` | mimblewimble/mmr/txhashset.py:594-630 | one block from any state that holds a ledger: it spends exactly the outputs, old or new, whose commitment is among its inputs |
| `TxIndex.OutputProofAccepted` | mimblewimble/mmr/txhashset.py:907-912 | the proof of an indexed unspent output is accepted for the hash of the commitment when its siblings are usable |
| `TxIndex.AliveOutputProofAccepted` | mimblewimble/mmr/txhashset.py:907-912 | the same when no internal sibling on its branch is fully pruned, which a caller can check |
| `Cycles.EdgeFaultMeaning` | mimblewimble/pow/algos/cuckatoo.py:87-94 | no complaint exactly when there are PROOFSIZE edges and the first so many are at most the mask and strictly ascending |
| `Cycles.FirstFault` | mimblewimble/pow/algos/cuckatoo.py:87-94 | the complaint is about the first edge that is missing, over the mask or not above the one before, each with its own status |
| `Cycles.PathDistinct` | mimblewimble/pow/algos/cuckatoo.py:109-134 | the walk over mutual links visits no slot twice |
| `Cycles.NeverBack` | mimblewimble/pow/algos/cuckatoo.py:109-134 | the walk never stands on the far end of an edge it came along: no edge is traversed twice |
| `Cycles.PathFits` | mimblewimble/pow/algos/cuckatoo.py:109-134 | so it has at most as many steps as there are slots: the loop terminates |
| `Cycles.WalkExact` | mimblewimble/pow/algos/cuckatoo.py:109-136 | the walk from slot 0 closes after all edges exactly when the links form one cycle through all of them |
| `Cycles.OutcomeEnds` | mimblewimble/pow/algos/cuckatoo.py:109-136 | every outcome is the verdict on the path from slot 0: forked or unmatched at its last slot by their own status, else back at the start with all edges or too few |
| `Tours.CycleIsTour` | mimblewimble/pow/algos/cuckatoo.py:109-136 | links form one cycle exactly when some order of all edges leaves each by one end into the next, wherever it starts and whichever way round it goes |
| `Slots.LinkMeaning` | mimblewimble/pow/algos/cuckatoo.py:112-126 | the link of a slot is the one other slot with its key (and, in Cuckatoo, the other low bit) |
| `Slots.LinkKinds` | mimblewimble/pow/algos/cuckatoo.py:114-126 | a slot is forked exactly when two others have its key, unmatched exactly when no other has it or the only one is the same endpoint |
| `Slots.LinksMutual` | mimblewimble/pow/algos/cuckatoo.py:112-128 | partner is an involution |
| `XorPairs.PairsXor` | mimblewimble/pow/algos/cuckatoo.py:83-106 | values that pair off up to a common difference XOR to that difference once per pair |
| `XorPairs.XorParity` | mimblewimble/pow/algos/cuckatoo.py:83-106 | a bit of the XOR is set exactly when an odd number of the values have it |
| `Buckets.FollowLists` | mimblewimble/pow/algos/cuckaroo.py:64-91 | walking closed bucket lists gives the outcome of scanning all slots, and both loops terminate |
| `Buckets.ScanBucket` | mimblewimble/pow/algos/cuckaroo.py:68-80 | one round of a bucket list finds the partner a scan of all slots finds |
| `Cuckatoo.VerifyCuckatoo` | mimblewimble/pow/algos/cuckatoo.py:79-136 | the loops return `Status` for every list of edges, too short and too long ones and each kind of rejection included |
| `Cuckatoo.EndpointsAt` | mimblewimble/pow/algos/cuckatoo.py:96-100 | slots 2i and 2i + 1 hold the endpoints of edge i on sides 0 and 1 |
| `Cuckatoo.FilterRedundant` | mimblewimble/pow/algos/cuckatoo.py:83-106 | the XOR filter rejects no full cycle |
| `Cuckatoo.CuckatooExact` | mimblewimble/pow/algos/cuckatoo.py:79-136 | stated over the endpoint function and the edges alone: accepted exactly when the first PROOFSIZE edges are there, in range, ascending, and some order of all of them goes round, each edge's endpoint on the side it is left by differing in the low bit from the next edge's, no third edge near, the next left by its other side |
| `Cuckatoo.StatusMeaning` | mimblewimble/pow/algos/cuckatoo.py:79-136 | which of the other answers is given when: the first missing, too big or descending edge, else a side whose endpoints do not XOR to the start value, else how the path from slot 0 ends |
| `Cuckatoo.CuckatooValidate` | mimblewimble/pow/algos/cuckatoo.py:139-157 | over lists of every length: accepted exactly when there are PROOFSIZE edges that go round in that way; wrong lengths by their status |
| `Cuckaroo.BuildLists` | mimblewimble/pow/algos/cuckaroo.py:39-62 | head and prev arrays close into one circular list per bucket and side |
| `Cuckaroo.VerifyCuckaroo` | mimblewimble/pow/algos/cuckaroo.py:8-91 | the loops return `Status` for every list of edges |
| `Cuckaroo.EndpointsAt` | mimblewimble/pow/algos/cuckaroo.py:26-31 | slots 2i and 2i + 1 hold the low and the high half of edge i's block, each cut to the edge bits |
| `Cuckaroo.FilterRedundant` | mimblewimble/pow/algos/cuckaroo.py:33-37 | the XOR filter rejects no full cycle |
| `Cuckaroo.CuckarooExact` | mimblewimble/pow/algos/cuckaroo.py:8-91 | stated over the block function and the edges alone: accepted exactly when the first PROOFSIZE edges are there, in range, ascending, and some order of all of them goes round, each sharing the end it is left by with the next edge and with no third, ends being block quotients by 1 and 2^32 modulo 2^edgeBits |
| `Cuckaroo.StatusMeaning` | mimblewimble/pow/algos/cuckaroo.py:8-91 | which of the other answers is given when: the first missing, too big or descending edge, else a side on which some bit is in an odd number of ends, else how the path from slot 0 ends |
| `Cuckaroo.CuckarooValidate` | mimblewimble/pow/algos/cuckaroo.py:94-110 | the same over lists of every length |
| `Cuckarooz.CloseAll` | mimblewimble/pow/algos/cuckarooz.py:51-55 | the one-sided lists are closed |
| `Cuckarooz.VerifyCuckarooz` | mimblewimble/pow/algos/cuckarooz.py:14-87 | the loops return `Status` for every list of edges, the failing branch for descending ones included |
| `Cuckarooz.FilterRedundant` | mimblewimble/pow/algos/cuckarooz.py:34-37 | the XOR filter rejects no full cycle |
| `Cuckarooz.CuckaroozExact` | mimblewimble/pow/algos/cuckarooz.py:14-87 | the same over one set of nodes: an edge may be left by either end, and no third end is the same node |
| `Cuckarooz.StatusMeaning` | mimblewimble/pow/algos/cuckarooz.py:14-87 | which of the other answers is given when, the status the enumeration lacks for descending edges included |
| `Cuckarooz.CuckaroozValidate` | mimblewimble/pow/algos/cuckarooz.py:95-112 | the same over lists of every length |
| `Mnemonics.MnemonicFromEntropy` | mimblewimble/mnemonic.py:24-63 | the forward, most-significant-first loops compute `Encode` for every input |
| `Mnemonics.EntropyFromMnemonic` | mimblewimble/mnemonic.py:65-110 | the backward, least-significant-first loop computes `Decode` for every input |
| `Mnemonics.IndicesCarry` | mimblewimble/mnemonic.py:36-55 | the word numbers of an entropy carry its bytes and its checksum |
| `Mnemonics.DecodeEncode` | mimblewimble/mnemonic.py:65-110 | decoding the phrase of 16, 20, 24, 28 or 32 bytes over a duplicate-free list returns the bytes |
| `Mnemonics.EncodeDecode` | mimblewimble/mnemonic.py:24-63 | every accepted phrase is the phrase of what it decodes to |
| `Mnemonics.SameInteger` | mimblewimble/mnemonic.py:36-55 | read in base 2048 the words are the entropy read in base 256 with the checksum appended |
| `Phrases.EndsInDigest` | mimblewimble/mnemonic.py:46-55 | the bits of the words are those of the entropy followed by the leading bits of the digest byte, one for every four bytes of entropy |
| `Phrases.EncodeExact` | mimblewimble/mnemonic.py:24-63 | a phrase is returned exactly when it spells the entropy: lengths that are multiples of four up to 32 bytes, words whose numbers in base 2048 read as the entropy times `2^w` plus the digest byte divided by `2^(8 - w)`, w being a quarter of the length |
| `Phrases.DecodeExact` | mimblewimble/mnemonic.py:65-110 | an entropy is returned exactly when it has at least 16 bytes and the phrase spells it in that sense, over a duplicate-free list |
| `Phrases.RefusedExact` | mimblewimble/mnemonic.py:65-110 | a phrase is refused exactly when it spells no entropy of at least 16 bytes |
| `PowPacking.SerializeCycle` | mimblewimble/blockchain.py:80-90 | for any number of nonces the bit loops compute `Pack`, failing when a set bit falls behind the buffer |
| `PowPacking.DeserializeProofNonces` | mimblewimble/blockchain.py:100-113 | the bit loops compute `Unpack`, bad edge bits and short buffers included |
| `PackedNumbers.PackExact` | mimblewimble/blockchain.py:80-90 | bytes are returned exactly when they are as many as 42 nonces need and write, least significant byte first, the sum of each nonce's low edge bits times `2^(n * edgeBits)`; it fails exactly when that sum does not fit |
| `PackedNumbers.UnpackExact` | mimblewimble/blockchain.py:100-113 | nonces are returned exactly for 1 to 63 edge bits and enough bytes: the 42 digits in base `2^edgeBits` of the low bits of the number the bytes write; no edge bits or more than 63, then too few bytes, are refused and nothing else is |
| `PowPacking.NoncesReturn` | mimblewimble/blockchain.py:80-113 | for 1 to 63 edge bits, nonces that fit come back unchanged |
| `PowPacking.UnpackPack` | mimblewimble/blockchain.py:80-113 | any nonces come back cut to their low edge bits |
| `PowPacking.PackUnpack` | mimblewimble/blockchain.py:80-113 | re-packing a buffer of the right length gives it back exactly when its padding bits are zero |

## Left out

- `LegacyIndex.LegacyHeightMeaning`: for positions below 2^64 - 1, because `fillOnesToRight` stops at a shift of 32 and leaves holes in some wider numbers; which of the wider positions go wrong, besides 2^65, is not stated, and likewise for `LegacyIndex.LegacyLeafMeaning` from 2^64 on.
- `Storage.MMRDataFile.SetData`: requires, like `Flush` and `Rewind`, that every index entry points at bytes that are there, which only a rewind over a repointed entry breaks; what later writes do to such a damaged store is not modelled.
- `Runs.RunRefines`: covers in-range prunes only; `prune` itself does not check the range, and a leaf number marked ahead of its push is a state the runs leave out (`Pmmrs.PMMR.Prune` covers the call).
- `Ledgers.RunIsLedger`: for runs in which no output reuses the commitment of an unspent one; `Blocks.BlockMeaning` and `Blocks.RewindMeaning` hold without that.
- `Phrases.DecodeExact`: for word lists without duplicates; the words of `wordlist.json` are not part of this model.
- Word size elsewhere: positions and sizes are unbounded naturals, so the failure of `hash_with_index` and of index entries beyond 64 bits is not modelled, and `bintree_postorder_height` and `n_leaves` are total; `MmrIndex.ComputePeakMapHeight` shows the bound.
- `Pmmrs.PMMR.Open`: says what the state is when the hash file holds whole records and the index is in append order, as PMMR operations leave them; after a crash between writes the files can be otherwise.
- Files: a file is a sequence held by its object; handles and memory maps are not modelled, index entries are kept as (offset, length) pairs, not as 16 packed bytes, and the prune bitmap file as the set it stands for.
- PROOFSIZE is the constant 42 of `mimblewimble/pow/common.py` and `mimblewimble/consensus.py`, not a parameter.
- SipHash, blake2b and sha256 internals; phrases are lists of words, so joining and splitting at blanks is left out.
- `get_hash`, `batch_push` (whose precomputed result is discarded), `write_segment`, `extend_to_size` and `verify_segment_root` of the PMMR.
- `serialize` and `deserialize` of Merkle proofs and bitmap chunks, `set_total_chunks` and `is_complete`: simple field copies.
- Segments, `Segmenter` and `Desegmenter`: `segment_first_mmr_pos` matches the layout for the first two segments only.
- `validate_roots`, `validate_kernel_sums`, `compact`, `snapshot`, `replace_directory`, `get_unspent_outputs` and the JSON file of the TxHashSet's index; blocks reach the model as byte strings.
- `verify_cuckaroom` and `verify_cuckarood`: variants of the same walk.
- Difficulty, consensus rules, slates, wallet, networking and storage back ends.
