/** The PMMR of mimblewimble/mmr/pmmr.py over its three stores, refining PmmrState. */
module Pmmrs {
  import opened Bits
  import opened PostOrder
  import opened MmrIndex
  import opened MmrPeaks
  import opened Hashing
  import opened MerkleProofs
  import opened Storage
  import opened PmmrState
  import opened Forests

  datatype PruneResult = Pruned | NotPrunable | NotALeaf

  class PMMR {
    const H: HashFn
    const hashes: MMRHashFile
    const data: MMRDataFile
    /** Absent when the PMMR is not prunable. */
    const pruneBm: PruneBitmap?

    /** The objects holding the state. */
    ghost function Stores(): set<object> {
      {hashes, data} + (if pruneBm == null then {} else {pruneBm})
    }

    ghost predicate Valid()
      reads Stores()
    {
      hashes.Valid() && data.Valid() && data.AppendOnly()
    }

    function PrunedSet(): set<nat>
      reads Stores()
    {
      if pruneBm == null then {} else pruneBm.bm
    }

    function View(): State
      requires Valid()
      reads Stores()
    {
      State(hashes.Contents(), data.Contents(), PrunedSet())
    }

    constructor (H: HashFn, prunable: bool)
      ensures Valid() && fresh(Stores()) && this.H == H
      ensures (pruneBm != null) == prunable
      ensures View() == State([], [], {})
    {
      this.H := H;
      hashes := new MMRHashFile();
      data := new MMRDataFile();
      if prunable {
        var bm := new PruneBitmap();
        pruneBm := bm;
      } else {
        pruneBm := null;
      }
    }

    /** Over files that exist: the state they hold, if hash records are whole and leaf entries in append order. */
    constructor Open(H: HashFn, hashFile: Bytes, dataFile: Bytes, idxFile: seq<Entry>, saved: Option<set<nat>>)
      ensures fresh(Stores()) && this.H == H && (pruneBm != null) == saved.Some?
      ensures |hashFile| % HASH_SIZE == 0 && InAppendOrder(dataFile, idxFile) ==>
                && Valid()
                && View() == State(Records(hashFile, |hashFile| / HASH_SIZE), ReadAll(dataFile, idxFile),
                                   if saved.Some? then saved.value else {})
    {
      this.H := H;
      hashes := new MMRHashFile.Open(hashFile);
      data := new MMRDataFile.Open(dataFile, idxFile);
      if saved.Some? {
        var bm := new PruneBitmap.Load(saved.value);
        pruneBm := bm;
      } else {
        pruneBm := null;
      }
    }

    function Size(): nat
      requires Valid()
      reads Stores()
    {
      hashes.Size()
    }

    /** Appends a leaf and the parents it completes. */
    method Push(leafData: Bytes) returns (leafPos0: nat)
      requires Valid()
      modifies Stores()
      ensures Valid() && leafPos0 == |old(View()).hashes|
      ensures View() == PmmrState.Push(H, old(View()), leafData)
    {
      leafPos0 := hashes.Size();
      var leafNumber := data.AppendData(leafData);
      var currentHash := H(leafPos0, leafData);
      hashes.Append(currentHash);
      MergeParents(currentHash);
    }

    /** The merge loop of push: `lastHash` is the hash just appended. */
    method MergeParents(lastHash: Digest)
      requires hashes.Valid() && hashes.Contents() != []
      requires lastHash == hashes.Contents()[|hashes.Contents()| - 1]
      modifies hashes
      ensures hashes.Valid() && hashes.Contents() == MergeUp(H, old(hashes.Contents()))
    {
      var currentHash := lastHash;
      var currentPos: nat := hashes.Size() - 1;
      var merging := true;
      ghost var stored := hashes.Contents();
      ghost var merged := MergeUp(H, stored);
      while merging
        invariant hashes.Valid() && hashes.Contents() == stored
        invariant currentPos + 1 == |stored| && currentHash == stored[currentPos]
        invariant merged == if merging then MergeUp(H, stored) else stored
        decreases merging, MergesAhead(|stored|)
      {
        merging, currentPos, currentHash := MergeOnce(currentPos, currentHash, stored);
        if merging {
          stored := stored + [currentHash];
        }
      }
    }

    /** One round: appends the parent of the last node if the next position is its parent's. */
    method MergeOnce(currentPos: nat, currentHash: Digest, ghost stored: seq<Digest>)
        returns (merging: bool, parentPos: nat, parentHash: Digest)
      requires hashes.Valid() && hashes.Contents() == stored
      requires currentPos + 1 == |stored| && currentHash == stored[currentPos]
      modifies hashes
      ensures hashes.Valid()
      ensures !merging ==> hashes.Contents() == stored == MergeUp(H, stored)
      ensures !merging ==> parentPos == currentPos && parentHash == currentHash
      ensures merging ==> hashes.Contents() == stored + [parentHash] && parentPos == |stored|
      ensures merging ==> MergeUp(H, stored + [parentHash]) == MergeUp(H, stored)
      ensures merging ==> MergesAhead(|stored + [parentHash]|) < MergesAhead(|stored|)
    {
      merging, parentPos, parentHash := false, currentPos, currentHash;
      var h := Height(currentPos);
      if Height(currentPos + 1) != h + 1 {
        return;
      }
      MergeAhead(currentPos);
      var leftPos := currentPos - Pow2(h + 1) + 1;
      var leftHash := hashes.Get(leftPos);
      if leftHash == None {
        return;
      }
      MergeUpOnto(H, stored, h, leftPos, leftHash.value, currentHash);
      var left: Bytes := leftHash.value;
      merging, parentPos := true, hashes.Size();
      parentHash := H(parentPos, left + currentHash);
      MergesNearer(stored, parentHash);
      hashes.Append(parentHash);
    }

    /** Bags the stored peaks from right to left. */
    method Root() returns (r: Digest)
      requires Valid()
      ensures r == BaggedRoot(H, View().hashes)
    {
      var mmrSize := Size();
      var peakPositions := ComputePeaks(mmrSize);
      if peakPositions == [] {
        return ZERO;
      }
      r := BagRight(peakPositions, 0);
      ghost var entries := PeakEntries(hashes.Contents());
      assert entries[0..] == entries;
    }

    /** Marks a leaf as pruned and overwrites the ancestors this leaves without an unpruned leaf. */
    method Prune(pos0: nat) returns (r: PruneResult)
      requires Valid()
      modifies Stores()
      ensures Valid()
      ensures r == if pruneBm == null then NotPrunable else if !IsLeaf(pos0) then NotALeaf else Pruned
      ensures View() == if r == Pruned then PmmrState.Prune(old(View()), pos0) else old(View())
    {
      if pruneBm == null {
        return NotPrunable;
      }
      if !IsLeaf(pos0) {
        return NotALeaf;
      }
      var leafIdx := PmmrLeafToInsertionIndex(pos0).value;
      r := Pruned;
      if pruneBm.IsPruned(leafIdx) {
        return;
      }
      pruneBm.MarkPruned(leafIdx);
      CompactAncestorsOf(pos0);
    }

    /** Prunes the leaves with the given numbers that are not pruned yet; their order does not matter. */
    method PruneMissing(numbers: set<nat>)
      requires Valid() && pruneBm != null
      modifies Stores()
      ensures Valid() && View().pruned == old(View()).pruned + numbers && View().data == old(View()).data
      ensures Overwritten(old(View()).hashes, View().hashes, old(View()).pruned, View().pruned)
      ensures numbers <= old(View()).pruned ==> View() == old(View())
    {
      ghost var before := View();
      var remaining := numbers;
      while remaining != {}
        invariant Valid() && remaining <= numbers
        invariant View().pruned == before.pruned + (numbers - remaining) && View().data == before.data
        invariant Overwritten(before.hashes, View().hashes, before.pruned, View().pruned)
        invariant numbers <= before.pruned ==> View() == before
        decreases |remaining|
      {
        var leafIdx :| leafIdx in remaining;
        if !pruneBm.IsPruned(leafIdx) {
          LeafPosMeaning(leafIdx);
          ghost var mid := View();
          var r := Prune(InsertionToPmmrIndex(leafIdx));
          PruneOverwrites(mid, InsertionToPmmrIndex(leafIdx));
          OverwrittenTwice(before.hashes, mid.hashes, View().hashes, before.pruned, mid.pruned, View().pruned);
        }
        remaining := remaining - {leafIdx};
      }
    }

    method CompactAncestorsOf(leafPos0: nat)
      requires Valid() && pruneBm != null
      modifies hashes
      ensures hashes.Valid()
      ensures hashes.Contents() == CompactAncestors(old(hashes.Contents()), pruneBm.bm, leafPos0)
    {
      var mmrSize: int := Size();
      var current := leafPos0;
      ghost var compacted := CompactAncestors(hashes.Contents(), pruneBm.bm, leafPos0);
      while true
        invariant hashes.Valid() && |hashes.Contents()| == mmrSize
        invariant CompactAncestors(hashes.Contents(), pruneBm.bm, current) == compacted
        decreases mmrSize - current
      {
        var (parent, sibling) := Family(current);
        if parent >= mmrSize {
          break;
        }
        if !SubtreePruned(pruneBm.bm, sibling) {
          break;
        }
        hashes.Set(parent, ZERO);
        current := parent;
      }
    }

    /** Recomputes every internal hash; positions with an overwritten child are skipped. */
    method Validate() returns (ok: bool)
      requires Valid()
      ensures ok == Validates(H, View().hashes)
    {
      var size := Size();
      var pos := 0;
      while pos < size
        invariant 0 <= pos <= size
        invariant forall p :: 0 <= p < pos ==> NodeChecks(H, hashes.Contents(), p)
      {
        if Height(pos) > 0 {
          Children(pos);
          var lh := hashes.Get(pos - Pow2(Height(pos)));
          var rh := hashes.Get(pos - 1);
          var stored := hashes.Get(pos);
          if lh.value != ZERO && rh.value != ZERO {
            var left: Bytes := lh.value;
            var expected := H(pos, left + rh.value);
            if stored.value != expected {
              assert !NodeChecks(H, hashes.Contents(), pos);
              return false;
            }
          }
        }
        pos := pos + 1;
      }
      return true;
    }

    method Rewind(targetSize: nat)
      requires Valid()
      modifies Stores()
      ensures Valid()
      ensures View() == PmmrState.Rewind(old(View()), targetSize)
    {
      if targetSize >= Size() {
        return;
      }
      var targetLeaves := NLeaves(targetSize);
      hashes.Rewind(targetSize);
      data.Rewind(targetLeaves);
      if pruneBm != null {
        pruneBm.Rewind(targetLeaves);
      }
    }

    /** Everything is in the files. */
    ghost predicate Flushed()
      reads Stores()
    {
      hashes.writeBuf == [] && data.dataBuf == [] && (pruneBm != null ==> pruneBm.saved == pruneBm.bm)
    }

    method Flush()
      requires Valid()
      modifies Stores()
      ensures Valid() && View() == old(View()) && Flushed()
    {
      hashes.Flush();
      data.Flush();
      if pruneBm != null {
        pruneBm.Save();
      }
    }

    /** Closing flushes; a PMMR opened on the files afterwards is in the state this one was in. */
    method CloseAndReopen() returns (reopened: PMMR)
      requires Valid()
      modifies Stores()
      ensures reopened.Valid() && fresh(reopened.Stores()) && reopened.H == H
      ensures reopened.View() == old(View()) && (reopened.pruneBm != null) == (pruneBm != null)
    {
      Flush();
      var saved := if pruneBm == null then None else Some(pruneBm.saved);
      reopened := new PMMR.Open(H, hashes.file, data.dataFile, data.idxFile, saved);
    }

    /** Unpruned leaf positions, found by scanning all positions. */
    method LeafPosIter() returns (positions: seq<nat>)
      requires Valid()
      ensures positions == LeafPositions(PrunedSet(), 0, |View().hashes|)
    {
      var size := Size();
      positions := [];
      var pos := 0;
      while pos < size
        invariant 0 <= pos <= size
        invariant positions + LeafPositions(PrunedSet(), pos, size) == LeafPositions(PrunedSet(), 0, size)
      {
        if IsLeaf(pos) {
          var leafIdx := PmmrLeafToInsertionIndex(pos).value;
          if pruneBm == null || !pruneBm.IsPruned(leafIdx) {
            positions := positions + [pos];
          }
        }
        pos := pos + 1;
      }
    }

    /** (number, position) of the unpruned leaves from number `fromIdx` on. */
    method LeafIdxIter(fromIdx: nat) returns (pairs: seq<(nat, nat)>)
      requires Valid()
      ensures pairs == LeafNumbers(PrunedSet(), fromIdx, LeafCount(|View().hashes|))
    {
      var leafCount: int := NLeaves(Size());
      pairs := [];
      var leafIdx := fromIdx;
      ghost var pruned := PrunedSet();
      ghost var all := LeafNumbers(pruned, fromIdx, leafCount);
      while leafIdx < leafCount
        invariant pairs + LeafNumbers(pruned, leafIdx, leafCount) == all
        decreases leafCount - leafIdx
      {
        LeafNumbersStep(pruned, leafIdx, leafCount);
        if pruneBm == null || !pruneBm.IsPruned(leafIdx) {
          pairs := pairs + [(leafIdx, InsertionToPmmrIndex(leafIdx))];
        }
        leafIdx := leafIdx + 1;
      }
    }

    /**
      Leaves not yet pruned, from the counts alone: as many as either iterator lists, unless leaves out of range
      were pruned, which may even make it negative.
    */
    function NUnprunedLeaves(): (n: int)
      requires Valid()
      reads Stores()
      ensures |View().hashes| == MmrSize(LeafCount(|View().hashes|)) &&
              (forall i :: i in PrunedSet() ==> i < LeafCount(|View().hashes|)) ==>
                && n == |LeafPositions(PrunedSet(), 0, |View().hashes|)|
                && n == |LeafNumbers(PrunedSet(), 0, LeafCount(|View().hashes|))|
    {
      UnprunedTally(PrunedSet(), |View().hashes|);
      if pruneBm == null then NLeaves(Size()) else NLeaves(Size()) - pruneBm.Count()
    }

    /** Leaf data, or nothing for a non-leaf, a pruned leaf or a leaf out of range. */
    method GetData(pos0: nat) returns (r: Option<Bytes>)
      requires Valid()
      ensures r == if IsLeaf(pos0) && LeafCount(pos0) !in PrunedSet() && LeafCount(pos0) < |View().data|
                   then Some(View().data[LeafCount(pos0)]) else None
    {
      if !IsLeaf(pos0) {
        return None;
      }
      var leafIdx := PmmrLeafToInsertionIndex(pos0).value;
      if pruneBm != null && pruneBm.IsPruned(leafIdx) {
        return None;
      }
      r := data.GetData(leafIdx);
    }

    /** The inclusion proof for a leaf; nothing when the position is no leaf. */
    method MerkleProofOf(leafPos0: nat) returns (r: Option<MerkleProof>)
      requires Valid()
      ensures r == if IsLeaf(leafPos0) then Some(ProofFor(H, View().hashes, leafPos0)) else None
    {
      if !IsLeaf(leafPos0) {
        return None;
      }
      var mmrSize := Size();
      var branch := ComputeFamilyBranch(leafPos0, mmrSize);
      var path := BranchSiblings(branch, leafPos0);
      var peakPos := if branch == [] then leafPos0 else branch[|branch| - 1].0;
      var rest := PeakHalf(peakPos);
      return Some(MerkleProof(mmrSize, path + rest));
    }

    /** Hashes of the siblings named by a branch. */
    method BranchSiblings(branch: seq<(nat, nat)>, leafPos0: nat) returns (path: seq<Bytes>)
      requires Valid() && branch == FamilyBranch(leafPos0, |View().hashes|)
      ensures path == SiblingHashes(View().hashes, leafPos0)
    {
      path := [];
      var i := 0;
      ghost var current: nat := leafPos0;
      while i < |branch|
        invariant 0 <= i <= |branch|
        invariant branch[i..] == FamilyBranch(current, |hashes.Contents()|)
        invariant path + SiblingHashes(hashes.Contents(), current) == SiblingHashes(hashes.Contents(), leafPos0)
      {
        var (parent, sibling) := branch[i];
        FamilyMeaning(current);
        assert branch[i..][0] == Family(current) && branch[i..][1..] == branch[i + 1..];
        var h := hashes.Get(sibling);
        path := path + [h.value];
        current := parent;
        i := i + 1;
      }
    }

    /** The left peaks, then the bagged right peaks if there are any. */
    method PeakHalf(peakPos: nat) returns (path: seq<Bytes>)
      requires Valid()
      ensures path == PeakPath(H, View().hashes, peakPos)
    {
      var allPeaks := ComputePeaks(Size());
      var peakIdx := if peakPos in allPeaks then IndexOf(allPeaks, peakPos) else |allPeaks|;
      path := LeftPeaks(allPeaks, peakIdx);
      if peakIdx + 1 < |allPeaks| {
        var rhsAcc := BagRight(allPeaks, peakIdx + 1);
        path := path + [rhsAcc];
      }
    }

    method LeftPeaks(allPeaks: seq<nat>, peakIdx: nat) returns (path: seq<Bytes>)
      requires Valid() && allPeaks == Peaks(|View().hashes|) && peakIdx <= |allPeaks|
      ensures path == PeakEntries(View().hashes)[..peakIdx]
    {
      path := [];
      var i := 0;
      while i < peakIdx
        invariant 0 <= i <= peakIdx
        invariant path == PeakEntries(hashes.Contents())[..i]
      {
        var h := PeakHash(allPeaks, i);
        path := path + [h];
        i := i + 1;
      }
    }

    method PeakHash(allPeaks: seq<nat>, k: nat) returns (h: Digest)
      requires Valid() && allPeaks == Peaks(|View().hashes|) && k < |allPeaks|
      ensures h == PeakEntries(View().hashes)[k]
    {
      PeakEntryAt(hashes.Contents(), k);
      var stored := hashes.Get(allPeaks[k]);
      h := stored.value;
    }

    /** Bags the peaks from number `from` on into one hash. */
    method BagRight(allPeaks: seq<nat>, from: nat) returns (rhsAcc: Digest)
      requires Valid() && allPeaks == Peaks(|View().hashes|) && from < |allPeaks|
      ensures rhsAcc == Bag(H, |View().hashes|, PeakEntries(View().hashes)[from..])
    {
      var mmrSize := Size();
      ghost var entries := PeakEntries(hashes.Contents());
      var k := |allPeaks| - 1;
      rhsAcc := PeakHash(allPeaks, k);
      BagStep(H, mmrSize, entries, k);
      while k > from
        invariant from <= k < |allPeaks|
        invariant rhsAcc == Bag(H, mmrSize, entries[k..])
      {
        k := k - 1;
        var left: Bytes := PeakHash(allPeaks, k);
        BagOnto(H, mmrSize, entries, k, left, rhsAcc);
        rhsAcc := H(mmrSize, left + rhsAcc);
      }
    }
  }
}
