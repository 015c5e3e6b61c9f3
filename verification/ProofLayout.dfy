/** What a generated Merkle proof holds, entry by entry. */
module ProofLayouts {
  import opened MmrIndex
  import opened MmrPeaks
  import opened Hashing
  import opened MerkleProofs
  import opened RootMeanings

  /** Where a climb along `branch` stands after `i` steps. */
  function After(pos: nat, branch: seq<(nat, nat)>, i: nat): nat
    requires i <= |branch|
  {
    if i == 0 then pos else branch[i - 1].0
  }

  /** The branch climbs from parent to parent while there is one below `size`, with the sibling on each level. */
  ghost predicate ClimbsUp(pos: nat, size: nat, branch: seq<(nat, nat)>) {
    && (forall i :: 0 <= i < |branch| ==> StepUp(pos, size, branch, i))
    && Family(After(pos, branch, |branch|)).0 >= size
  }

  ghost predicate StepUp(pos: nat, size: nat, branch: seq<(nat, nat)>, i: nat)
    requires i < |branch|
  {
    branch[i] == Family(After(pos, branch, i)) && branch[i].0 < size
  }

  /** The branch is the one such climb. */
  lemma {:induction false} BranchExact(pos: nat, size: nat, branch: seq<(nat, nat)>)
    ensures branch == FamilyBranch(pos, size) <==> ClimbsUp(pos, size, branch)
    decreases |branch|
  {
    var parent := Family(pos).0;
    if branch == [] {
      assert After(pos, branch, 0) == pos;
    } else {
      ClimbTail(pos, size, branch);
      BranchExact(branch[0].0, size, branch[1..]);
      assert branch == [branch[0]] + branch[1..];
    }
  }

  lemma ClimbTail(pos: nat, size: nat, branch: seq<(nat, nat)>)
    requires branch != []
    ensures ClimbsUp(pos, size, branch) <==>
            branch[0] == Family(pos) && branch[0].0 < size && ClimbsUp(branch[0].0, size, branch[1..])
  {
    var tail := branch[1..];
    forall i: nat | i < |tail| ensures StepUp(branch[0].0, size, tail, i) <==> StepUp(pos, size, branch, i + 1) {
      assert After(branch[0].0, tail, i) == After(pos, branch, i + 1);
    }
    assert After(branch[0].0, tail, |tail|) == After(pos, branch, |branch|);
    if branch[0] == Family(pos) && branch[0].0 < size && ClimbsUp(branch[0].0, size, tail) {
      forall i | 0 <= i < |branch| ensures StepUp(pos, size, branch, i) {
        if i > 0 { assert StepUp(branch[0].0, size, tail, i - 1); }
      }
    }
    if ClimbsUp(pos, size, branch) {
      assert StepUp(pos, size, branch, 0);
      forall i | 0 <= i < |tail| ensures StepUp(branch[0].0, size, tail, i) {
        assert StepUp(pos, size, branch, i + 1);
      }
    }
  }

  lemma {:induction false} SiblingEntry(hashes: seq<Digest>, pos: nat, i: nat)
    requires i < |FamilyBranch(pos, |hashes|)|
    ensures var b := FamilyBranch(pos, |hashes|);
            b[i].1 < |hashes| && SiblingHashes(hashes, pos)[i] == hashes[b[i].1]
    decreases |hashes| - pos
  {
    var (parent, sibling) := Family(pos);
    SiblingStep(hashes, pos, parent, sibling);
    if i > 0 { SiblingEntry(hashes, parent, i - 1); }
  }

  lemma EndOfBranch(pos: nat, size: nat)
    ensures BranchEnd(pos, size) == After(pos, FamilyBranch(pos, size), |FamilyBranch(pos, size)|)
  {
  }

  /** After the siblings: the left peaks, then the bagged right ones. */
  lemma PeakLayout(H: HashFn, hashes: seq<Digest>, j: nat, bagged: seq<Digest>)
    requires var peaks := Peaks(|hashes|);
             && j < |peaks| == |bagged| && (forall k :: 0 <= k < |peaks| ==> peaks[k] < |hashes|)
             && j == IndexOf(peaks, peaks[j]) && forall k :: 0 <= k < |peaks| ==> BagEquation(H, hashes, peaks, bagged, k)
    ensures var peaks := Peaks(|hashes|);
            var path := PeakPath(H, hashes, peaks[j]);
            && |path| == j + (if j + 1 < |peaks| then 1 else 0)
            && (forall k :: 0 <= k < j ==> path[k] == hashes[peaks[k]])
            && (j + 1 < |peaks| ==> path[j] == bagged[j + 1])
  {
    if j + 1 < |bagged| { BaggedIs(H, hashes, Peaks(|hashes|), PeakEntries(hashes), bagged, j + 1); }
  }

  /**
    The proof for a position of a PMMR claims its size and holds the stored hashes of the siblings from the position
    up to its peak, then those of the peaks to the left in order, then what is bagged of the peaks to the right if
    there are any, and nothing else.
  */
  lemma ProofLayout(H: HashFn, hashes: seq<Digest>, pos: nat, n: nat, branch: seq<(nat, nat)>,
                    peaks: seq<nat>, bagged: seq<Digest>) returns (j: nat)
    requires |hashes| == MmrSize(n) && pos < |hashes|
    requires ClimbsUp(pos, |hashes|, branch) && CutGreedily(|hashes|, peaks) && |bagged| == |peaks|
    requires forall k :: 0 <= k < |peaks| ==> peaks[k] < |hashes|
    requires forall k :: 0 <= k < |peaks| ==> BagEquation(H, hashes, peaks, bagged, k)
    ensures j < |peaks| && peaks[j] == After(pos, branch, |branch|)
    ensures ProofFor(H, hashes, pos).mmrSize == |hashes|
    ensures |ProofFor(H, hashes, pos).path| == |branch| + j + (if j + 1 < |peaks| then 1 else 0)
    ensures var path := ProofFor(H, hashes, pos).path;
            && (forall i :: 0 <= i < |branch| ==> branch[i].1 < |hashes| && path[i] == hashes[branch[i].1])
            && (forall k :: 0 <= k < j ==> path[|branch| + k] == hashes[peaks[k]])
            && (j + 1 < |peaks| ==> path[|branch| + j] == bagged[j + 1])
  {
    BranchExact(pos, |hashes|, branch);
    PeaksExact(|hashes|, peaks);
    BranchEndsAtPeak(n, pos);
    EndOfBranch(pos, |hashes|);
    j := IndexOf(peaks, BranchEnd(pos, |hashes|));
    PeakLayout(H, hashes, j, bagged);
    forall i | 0 <= i < |branch|
      ensures branch[i].1 < |hashes| && SiblingHashes(hashes, pos)[i] == hashes[branch[i].1]
    {
      SiblingEntry(hashes, pos, i);
    }
  }
}
