/** MerkleProof.verify of mimblewimble/mmr/proof.py and the proof PMMR.merkle_proof builds for it. */
module MerkleProofs {
  import opened Bits
  import opened PostOrder
  import opened MmrIndex
  import opened MmrPeaks
  import opened Hashing

  datatype MerkleProof = MerkleProof(mmrSize: nat, path: seq<Bytes>)

  // ---------------------------------------------------------------- the verifier

  /** What is hashed when `hash` at `pos` meets its sibling's hash. */
  function Combined(pos: nat, hash: Bytes, sibling: Bytes): Bytes {
    if IsLeftSibling(pos) then hash + sibling else sibling + hash
  }

  /** The hash reached by climbing `branch` from `hash` at `pos`. */
  function Climb(H: HashFn, pos: nat, hash: Bytes, branch: seq<(nat, nat)>, path: seq<Bytes>): Bytes
    requires |path| >= |branch|
    decreases |branch|
  {
    if branch == [] then hash else
      var parent := branch[0].0;
      Climb(H, parent, H(parent, Combined(pos, hash, path[0])), branch[1..], path[1..])
  }

  /** Bags `left` onto what is accumulated to their right. */
  function BagLeft(H: HashFn, size: nat, left: seq<Bytes>, acc: Bytes): Bytes {
    if left == [] then acc else H(size, left[0] + BagLeft(H, size, left[1..], acc))
  }

  function IndexOf(s: seq<nat>, x: nat): (i: nat)
    requires x in s
    ensures i < |s| && s[i] == x && x !in s[..i]
  {
    if s[0] == x then 0 else 1 + IndexOf(s[1..], x)
  }

  /** The peak-bagging half: `rest` is what the path holds after the siblings. */
  function BagsTo(H: HashFn, size: nat, peak: nat, hash: Bytes, rest: seq<Bytes>): Option<Bytes> {
    var allPeaks := Peaks(size);
    if peak !in allPeaks then None else
      var idx := IndexOf(allPeaks, peak);
      if |rest| < idx then None
      else if idx < |allPeaks| - 1 then
        if |rest| - idx != 1 then None
        else Some(BagLeft(H, size, rest[..idx], H(size, hash + rest[idx])))
      else
        if |rest| - idx != 0 then None
        else Some(BagLeft(H, size, rest[..idx], hash))
  }

  /** What verify answers. */
  function Accepts(H: HashFn, proof: MerkleProof, leafHash: Bytes, pos: nat, root: Bytes): bool {
    var size := proof.mmrSize;
    var branch := FamilyBranch(pos, size);
    if proof.path == [] && Peaks(size) == [] then leafHash == root
    else if |proof.path| < |branch| then false
    else
      var top := Climb(H, pos, leafHash, branch, proof.path[..|branch|]);
      if Peaks(size) == [] then top == root
      else BagsTo(H, size, BranchEnd(pos, size), top, proof.path[|branch|..]) == Some(root)
  }

  /** First half of verify: re-hashes up to the local peak. */
  method ReHash(H: HashFn, leafHash: Bytes, leafPos0: nat, branch: seq<(nat, nat)>, siblings: seq<Bytes>)
      returns (currentHash: Bytes, currentPos: nat)
    requires |siblings| == |branch|
    ensures currentHash == Climb(H, leafPos0, leafHash, branch, siblings)
    ensures currentPos == if branch == [] then leafPos0 else branch[|branch| - 1].0
  {
    currentHash, currentPos := leafHash, leafPos0;
    var i := 0;
    while i < |branch|
      invariant 0 <= i <= |branch|
      invariant currentPos == if i == 0 then leafPos0 else branch[i - 1].0
      invariant Climb(H, currentPos, currentHash, branch[i..], siblings[i..]) ==
                Climb(H, leafPos0, leafHash, branch, siblings)
    {
      var (parentPos, siblingPos) := branch[i];
      assert branch[i..][1..] == branch[i + 1..] && siblings[i..][1..] == siblings[i + 1..];
      var combined := Combined(currentPos, currentHash, siblings[i]);
      currentHash := H(parentPos, combined);
      currentPos := parentPos;
      i := i + 1;
    }
  }

  /** The loop that bags the left peaks, from the right one to the left one. */
  method BagLeftPeaks(H: HashFn, size: nat, left: seq<Bytes>, start: Bytes) returns (acc: Bytes)
    ensures acc == BagLeft(H, size, left, start)
  {
    acc := start;
    var k := |left|;
    while k > 0
      invariant 0 <= k <= |left|
      invariant acc == BagLeft(H, size, left[k..], start)
    {
      k := k - 1;
      assert left[k..][1..] == left[k + 1..];
      acc := H(size, left[k] + acc);
    }
    assert left[0..] == left;
  }

  /** Second half of verify: bags all peaks; nothing when the path does not fit the peaks. */
  method BagAllPeaks(H: HashFn, size: nat, allPeaks: seq<nat>, peakPos: nat, currentHash: Bytes, remainder: seq<Bytes>)
      returns (r: Option<Bytes>)
    requires allPeaks == Peaks(size)
    ensures r == BagsTo(H, size, peakPos, currentHash, remainder)
  {
    if peakPos !in allPeaks {
      return None;
    }
    var peakIdx := IndexOf(allPeaks, peakPos);
    if |remainder| < peakIdx {
      return None;
    }
    var leftPeakHashes, afterLeft := remainder[..peakIdx], remainder[peakIdx..];
    var acc: Bytes;
    if peakIdx < |allPeaks| - 1 {
      if |afterLeft| != 1 {
        return None;
      }
      acc := H(size, currentHash + afterLeft[0]);
    } else {
      if |afterLeft| != 0 {
        return None;
      }
      acc := currentHash;
    }
    acc := BagLeftPeaks(H, size, leftPeakHashes, acc);
    return Some(acc);
  }

  method Verify(H: HashFn, proof: MerkleProof, leafHash: Bytes, leafPos0: nat, root: Bytes) returns (ok: bool)
    ensures ok == Accepts(H, proof, leafHash, leafPos0, root)
  {
    var allPeaks := ComputePeaks(proof.mmrSize);
    if proof.path == [] && allPeaks == [] {
      return leafHash == root;
    }
    var branch := ComputeFamilyBranch(leafPos0, proof.mmrSize);
    if |proof.path| < |branch| {
      return false;
    }
    var currentHash, currentPos := ReHash(H, leafHash, leafPos0, branch, proof.path[..|branch|]);
    if allPeaks == [] {
      return currentHash == root;
    }
    var acc := BagAllPeaks(H, proof.mmrSize, allPeaks, currentPos, currentHash, proof.path[|branch|..]);
    ok := acc == Some(root);
  }

  // ---------------------------------------------------------------- the prover

  lemma BranchInRange(pos: nat, size: nat, i: nat)
    requires i < |FamilyBranch(pos, size)|
    ensures FamilyBranch(pos, size)[i].0 < size && FamilyBranch(pos, size)[i].1 < size
    decreases size - pos
  {
    FamilyMeaning(pos);
    if i > 0 { BranchInRange(Family(pos).0, size, i - 1); }
  }

  /** Stored hashes of the siblings along the branch of `pos`. */
  function SiblingHashes(hashes: seq<Digest>, pos: nat): (r: seq<Bytes>)
    ensures |r| == |FamilyBranch(pos, |hashes|)|
    decreases |hashes| - pos
  {
    var (parent, sibling) := Family(pos);
    FamilyMeaning(pos);
    if parent >= |hashes| then [] else [hashes[sibling]] + SiblingHashes(hashes, parent)
  }

  lemma SiblingStep(hashes: seq<Digest>, pos: nat, parent: nat, sibling: nat)
    requires (parent, sibling) == Family(pos)
    ensures parent >= |hashes| ==> SiblingHashes(hashes, pos) == []
    ensures parent < |hashes| ==>
              sibling < |hashes| && SiblingHashes(hashes, pos) == [hashes[sibling]] + SiblingHashes(hashes, parent)
  {
    FamilyMeaning(pos);
  }

  /** Stored hashes of the peaks. */
  function PeakEntries(hashes: seq<Digest>): (r: seq<Digest>)
    ensures |r| == |Peaks(|hashes|)|
  {
    PeaksInRange(|hashes|);
    Entries(hashes, Peaks(|hashes|))
  }

  lemma PeakEntryAt(hashes: seq<Digest>, k: nat)
    requires k < |Peaks(|hashes|)|
    ensures Peaks(|hashes|)[k] < |hashes| && PeakEntries(hashes)[k] == hashes[Peaks(|hashes|)[k]]
  {
    PeaksInRange(|hashes|);
  }

  function Entries(hashes: seq<Digest>, ps: seq<nat>): (r: seq<Digest>)
    requires forall i :: 0 <= i < |ps| ==> ps[i] < |hashes|
    ensures |r| == |ps| && forall i :: 0 <= i < |ps| ==> r[i] == hashes[ps[i]]
  {
    if ps == [] then [] else [hashes[ps[0]]] + Entries(hashes, ps[1..])
  }

  /** What comes after the siblings: the left peaks, then the bagged right peaks if there are any. */
  function PeakPath(H: HashFn, hashes: seq<Digest>, peak: nat): seq<Bytes> {
    var all := PeakEntries(hashes);
    var ps := Peaks(|hashes|);
    if peak !in ps then all else
      var idx := IndexOf(ps, peak);
      all[..idx] + (if idx + 1 < |all| then [Bag(H, |hashes|, all[idx + 1..])] else [])
  }

  /** The proof built from the stored hashes for position `pos`. */
  function ProofFor(H: HashFn, hashes: seq<Digest>, pos: nat): MerkleProof {
    MerkleProof(|hashes|, SiblingHashes(hashes, pos) + PeakPath(H, hashes, BranchEnd(pos, |hashes|)))
  }

  /** The root as computed from the stored hashes. */
  function BaggedRoot(H: HashFn, hashes: seq<Digest>): Digest {
    if Peaks(|hashes|) == [] then ZERO else Bag(H, |hashes|, PeakEntries(hashes))
  }

  lemma RootIsBagged(H: HashFn, leaves: seq<Bytes>)
    ensures PeakEntries(NodeHashes(H, leaves)) == PeakHashes(H, leaves)
    ensures BaggedRoot(H, NodeHashes(H, leaves)) == Root(H, leaves)
  {
    PeaksInRange(MmrSize(|leaves|));
    assert PeakEntries(NodeHashes(H, leaves)) == PeakHashes(H, leaves);
    if leaves != [] { SomePeak(|leaves|); }
  }

  // ---------------------------------------------------------------- completeness

  /** Every parent along the branch of `pos` stores the hash of its two stored children. */
  ghost predicate BranchIntact(H: HashFn, hashes: seq<Digest>, pos: nat)
    requires pos < |hashes|
    decreases |hashes| - pos
  {
    var (parent, sibling) := Family(pos);
    FamilyMeaning(pos);
    parent < |hashes| ==>
      && hashes[parent] == H(parent, Combined(pos, hashes[pos], hashes[sibling]))
      && BranchIntact(H, hashes, parent)
  }

  lemma {:induction false} ClimbReachesPeak(H: HashFn, hashes: seq<Digest>, pos: nat)
    requires pos < |hashes| && BranchIntact(H, hashes, pos)
    ensures Climb(H, pos, hashes[pos], FamilyBranch(pos, |hashes|), SiblingHashes(hashes, pos)) ==
            hashes[BranchEnd(pos, |hashes|)]
    decreases |hashes| - pos
  {
    var (parent, sibling) := Family(pos);
    FamilyMeaning(pos);
    if parent >= |hashes| {
    } else {
      ClimbReachesPeak(H, hashes, parent);
    }
  }

  lemma {:induction false} BagLeftSplits(H: HashFn, size: nat, hs: seq<Digest>, k: nat)
    requires k < |hs|
    ensures BagLeft(H, size, hs[..k], Bag(H, size, hs[k..])) == Bag(H, size, hs)
    decreases k
  {
    if k == 0 {
      assert hs[0..] == hs;
    } else {
      BagLeftSplits(H, size, hs[1..], k - 1);
      assert hs[..k][1..] == hs[1..][..k - 1] && hs[1..][k - 1..] == hs[k..];
    }
  }

  lemma PeakPathBags(H: HashFn, hashes: seq<Digest>, peak: nat)
    requires peak in Peaks(|hashes|)
    ensures peak < |hashes|
    ensures BagsTo(H, |hashes|, peak, hashes[peak], PeakPath(H, hashes, peak)) == Some(BaggedRoot(H, hashes))
  {
    var all, size := PeakEntries(hashes), |hashes|;
    var idx := IndexOf(Peaks(size), peak);
    PeaksInRange(size);
    BagLeftSplits(H, size, all, idx);
    var rest := PeakPath(H, hashes, peak);
    assert rest[..idx] == all[..idx];
    if idx + 1 < |all| {
      assert all[idx..][1..] == all[idx + 1..];
    } else {
      assert all[idx..] == [hashes[peak]];
    }
  }

  /**
    Completeness: for any stored hashes, pruned or not, whose branch above `pos` is intact and
    ends at a peak, the proof built from them is accepted against the root bagged from them.
  */
  lemma ProofAccepted(H: HashFn, hashes: seq<Digest>, pos: nat)
    requires pos < |hashes| && BranchIntact(H, hashes, pos) && BranchEnd(pos, |hashes|) in Peaks(|hashes|)
    ensures Accepts(H, ProofFor(H, hashes, pos), hashes[pos], pos, BaggedRoot(H, hashes))
  {
    var size := |hashes|;
    var siblings, rest := SiblingHashes(hashes, pos), PeakPath(H, hashes, BranchEnd(pos, size));
    var path := siblings + rest;
    assert path[..|siblings|] == siblings && path[|siblings|..] == rest;
    ClimbReachesPeak(H, hashes, pos);
    PeakPathBags(H, hashes, BranchEnd(pos, size));
  }

  /** The hash of an internal node is that of its two children. */
  lemma InternalInput(H: HashFn, leaves: seq<Bytes>, p: nat, l: nat)
    requires p < MmrSize(|leaves|) && Height(p) > 0 && l == p - Pow2(Height(p)) && p > 0
    ensures l < MmrSize(|leaves|)
    ensures NodeInput(H, leaves, p) == (p, NodeHash(H, leaves, l) + NodeHash(H, leaves, p - 1))
  {
  }

  lemma CombinedSides(pos: nat, hash: Bytes, sibling: Bytes)
    ensures IsLeftSibling(pos) ==> Combined(pos, hash, sibling) == hash + sibling
    ensures !IsLeftSibling(pos) ==> Combined(pos, hash, sibling) == sibling + hash
  {
  }

  /** The genuine hash of a parent is that of its two children, in the order Combined puts them. */
  lemma ParentInput(H: HashFn, leaves: seq<Bytes>, pos: nat, parent: nat, sibling: nat)
    requires (parent, sibling) == Family(pos) && parent < MmrSize(|leaves|)
    ensures sibling < MmrSize(|leaves|)
    ensures NodeInput(H, leaves, parent) ==
            (parent, Combined(pos, NodeHash(H, leaves, pos), NodeHash(H, leaves, sibling)))
  {
    FamilyOrder(pos, parent, sibling);
    if IsLeftSibling(pos) {
      InternalChildren(H, leaves, parent, pos, sibling);
      CombinedSides(pos, NodeHash(H, leaves, pos), NodeHash(H, leaves, sibling));
    } else {
      InternalChildren(H, leaves, parent, sibling, pos);
      CombinedSides(pos, NodeHash(H, leaves, pos), NodeHash(H, leaves, sibling));
    }
  }

  lemma InternalChildren(H: HashFn, leaves: seq<Bytes>, p: nat, l: nat, r: nat)
    requires p < MmrSize(|leaves|) && Height(p) > 0 && p == l + Pow2(Height(p)) && p == r + 1
    ensures l < MmrSize(|leaves|) && r < MmrSize(|leaves|)
    ensures NodeInput(H, leaves, p) == (p, NodeHash(H, leaves, l) + NodeHash(H, leaves, r))
  {
    InternalInput(H, leaves, p, l);
  }

  lemma {:induction false} UnprunedIntact(H: HashFn, leaves: seq<Bytes>, pos: nat)
    requires pos < MmrSize(|leaves|)
    ensures BranchIntact(H, NodeHashes(H, leaves), pos)
    decreases MmrSize(|leaves|) - pos
  {
    var (parent, sibling) := Family(pos);
    FamilyMeaning(pos);
    if parent >= MmrSize(|leaves|) {
    } else {
      ParentInput(H, leaves, pos, parent, sibling);
      UnprunedIntact(H, leaves, parent);
    }
  }

  /** For every leaf sequence and every position, the generated proof convinces the verifier of the genuine root. */
  lemma Completeness(H: HashFn, leaves: seq<Bytes>, pos: nat)
    requires pos < MmrSize(|leaves|)
    ensures Accepts(H, ProofFor(H, NodeHashes(H, leaves), pos), NodeHash(H, leaves, pos), pos, Root(H, leaves))
  {
    UnprunedIntact(H, leaves, pos);
    BranchEndsAtPeak(|leaves|, pos);
    ProofAccepted(H, NodeHashes(H, leaves), pos);
    RootIsBagged(H, leaves);
  }

  // ---------------------------------------------------------------- soundness

  ghost function ClimbInputs(H: HashFn, pos: nat, hash: Bytes, branch: seq<(nat, nat)>, path: seq<Bytes>): set<Input>
    requires |path| >= |branch|
    decreases |branch|
  {
    if branch == [] then {} else
      var parent := branch[0].0;
      var c := Combined(pos, hash, path[0]);
      {(parent, c)} + ClimbInputs(H, parent, H(parent, c), branch[1..], path[1..])
  }

  ghost function BagLeftInputs(H: HashFn, size: nat, left: seq<Bytes>, acc: Bytes): set<Input> {
    if left == [] then {} else
      {(size, left[0] + BagLeft(H, size, left[1..], acc))} + BagLeftInputs(H, size, left[1..], acc)
  }

  /** Inputs hashed while bagging the part of the path after the siblings. */
  ghost function BagsToInputs(H: HashFn, size: nat, peak: nat, hash: Bytes, rest: seq<Bytes>): set<Input> {
    var all := Peaks(size);
    if peak !in all || |rest| < IndexOf(all, peak) then {} else
      var idx := IndexOf(all, peak);
      if |rest| == idx then BagLeftInputs(H, size, rest, hash)
      else {(size, hash + rest[idx])} + BagLeftInputs(H, size, rest[..idx], H(size, hash + rest[idx]))
  }

  /** Every input verify hashes. */
  ghost function VerifyInputs(H: HashFn, proof: MerkleProof, leafHash: Bytes, pos: nat): set<Input> {
    var size := proof.mmrSize;
    var branch := FamilyBranch(pos, size);
    if |proof.path| < |branch| then {} else
      var siblings := proof.path[..|branch|];
      var top := Climb(H, pos, leafHash, branch, siblings);
      ClimbInputs(H, pos, leafHash, branch, siblings) +
      BagsToInputs(H, size, BranchEnd(pos, size), top, proof.path[|branch|..])
  }

  /** All entries are whole hashes, as the wire format of a proof has them. */
  predicate AllDigests(path: seq<Bytes>) {
    forall i :: 0 <= i < |path| ==> |path[i]| == HASH_SIZE
  }

  lemma SplitFront(a: Bytes, b: Bytes, c: Bytes, d: Bytes)
    requires a + b == c + d && (|a| == |c| || |b| == |d|)
    ensures a == c && b == d
  {
    assert |a| == |c|;
    assert a == (a + b)[..|a|] && c == (c + d)[..|a|];
    assert b == (a + b)[|a|..] && d == (c + d)[|a|..];
  }

  /** One step of ClimbSound: the parent's hash being genuine pins the node's own and its sibling's. */
  lemma StepSound(H: HashFn, leaves: seq<Bytes>, pos: nat, hash: Bytes, sibling: Bytes, X: set<Input>)
    requires var parent := Family(pos).0;
             var c := Combined(pos, hash, sibling);
             && parent < MmrSize(|leaves|) && |sibling| == HASH_SIZE
             && (parent, c) in X && H(parent, c) == NodeHash(H, leaves, parent)
    requires !Collide(H, X, NodeInputs(H, leaves))
    ensures Family(pos).1 < MmrSize(|leaves|)
    ensures hash == NodeHash(H, leaves, pos) && sibling == NodeHash(H, leaves, Family(pos).1)
  {
    var (parent, s) := Family(pos);
    ParentInput(H, leaves, pos, parent, s);
    SameInput(H, X, NodeInputs(H, leaves), (parent, Combined(pos, hash, sibling)), NodeInput(H, leaves, parent));
    SiblingPinned(pos, hash, sibling, NodeHash(H, leaves, pos), NodeHash(H, leaves, s));
  }

  /** The first step of a climb. */
  lemma ClimbStep(H: HashFn, size: nat, pos: nat, hash: Bytes, path: seq<Bytes>)
    requires var parent := Family(pos).0; parent < size && |path| == |FamilyBranch(pos, size)|
    ensures var parent := Family(pos).0;
            var branch := FamilyBranch(parent, size);
            && path != [] && |path[1..]| == |branch| && BranchEnd(pos, size) == BranchEnd(parent, size)
            && var c := Combined(pos, hash, path[0]);
            && Climb(H, pos, hash, FamilyBranch(pos, size), path) == Climb(H, parent, H(parent, c), branch, path[1..])
            && ClimbInputs(H, pos, hash, FamilyBranch(pos, size), path) ==
               {(parent, c)} + ClimbInputs(H, parent, H(parent, c), branch, path[1..])
  {
    assert FamilyBranch(pos, size)[1..] == FamilyBranch(Family(pos).0, size);
  }

  /** A climb that reaches the genuine peak hash started from the genuine hash and used the genuine siblings. */
  lemma {:induction false} ClimbSound(H: HashFn, leaves: seq<Bytes>, pos: nat, hash: Bytes, path: seq<Bytes>)
    requires var size := MmrSize(|leaves|);
             var branch := FamilyBranch(pos, size);
             && pos < size && |path| == |branch| && AllDigests(path)
             && Climb(H, pos, hash, branch, path) == NodeHash(H, leaves, BranchEnd(pos, size))
             && !Collide(H, ClimbInputs(H, pos, hash, branch, path), NodeInputs(H, leaves))
    ensures hash == NodeHash(H, leaves, pos)
    ensures path == SiblingHashes(NodeHashes(H, leaves), pos)
    decreases MmrSize(|leaves|) - pos
  {
    var size := MmrSize(|leaves|);
    var parent := Family(pos).0;
    if parent >= size {
    } else {
      var X, Y := ClimbInputs(H, pos, hash, FamilyBranch(pos, size), path), NodeInputs(H, leaves);
      var c := Combined(pos, hash, path[0]);
      ClimbStep(H, size, pos, hash, path);
      var tail, above := path[1..], FamilyBranch(parent, size);
      CollideGrows(H, ClimbInputs(H, parent, H(parent, c), above, tail), Y, X, Y);
      ClimbSound(H, leaves, parent, H(parent, c), tail);
      StepSound(H, leaves, pos, hash, path[0], X);
      GenuinePath(H, leaves, pos, parent, Family(pos).1, path, tail);
    }
  }

  lemma GenuinePath(H: HashFn, leaves: seq<Bytes>, pos: nat, parent: nat, sibling: nat, path: seq<Bytes>, tail: seq<Bytes>)
    requires (parent, sibling) == Family(pos) && parent < MmrSize(|leaves|) && sibling < MmrSize(|leaves|)
    requires path != [] && path[0] == NodeHash(H, leaves, sibling) && tail == path[1..]
    requires tail == SiblingHashes(NodeHashes(H, leaves), parent)
    ensures path == SiblingHashes(NodeHashes(H, leaves), pos)
  {
    SiblingStep(NodeHashes(H, leaves), pos, parent, sibling);
    assert path == [path[0]] + tail;
  }

  lemma SiblingPinned(pos: nat, hash: Bytes, sibling: Bytes, hash': Bytes, sibling': Bytes)
    requires Combined(pos, hash, sibling) == Combined(pos, hash', sibling') && |sibling| == |sibling'|
    ensures hash == hash' && sibling == sibling'
  {
    if IsLeftSibling(pos) { SplitFront(hash, sibling, hash', sibling'); } else { SplitFront(sibling, hash, sibling', hash'); }
  }

  /** Bagging that reaches the genuine bag used the genuine left peaks and the genuine right part. */
  lemma {:induction false} BagLeftSound(H: HashFn, size: nat, hs: seq<Digest>, left: seq<Bytes>, acc: Bytes)
    requires |left| < |hs| && AllDigests(left)
    requires BagLeft(H, size, left, acc) == Bag(H, size, hs)
    requires !Collide(H, BagLeftInputs(H, size, left, acc), BagInputs(H, size, hs))
    ensures left == hs[..|left|] && acc == Bag(H, size, hs[|left|..])
    decreases |left|
  {
    if left == [] {
      assert hs[0..] == hs;
    } else {
      var X, Y := BagLeftInputs(H, size, left, acc), BagInputs(H, size, hs);
      var l: Bytes, b: Bytes := BagLeft(H, size, left[1..], acc), Bag(H, size, hs[1..]);
      SameInput(H, X, Y, (size, left[0] + l), (size, hs[0] + b));
      SplitFront(left[0], l, hs[0], b);
      CollideGrows(H, BagLeftInputs(H, size, left[1..], acc), BagInputs(H, size, hs[1..]), X, Y);
      BagLeftSound(H, size, hs[1..], left[1..], acc);
      assert hs[1..][|left| - 1..] == hs[|left|..];
      assert left == [left[0]] + left[1..] && hs[..|left|] == [hs[0]] + hs[1..][..|left| - 1];
    }
  }

  lemma {:induction false} BagInputsOfSuffix(H: HashFn, size: nat, hs: seq<Digest>, k: nat)
    requires k <= |hs|
    ensures BagInputs(H, size, hs[k..]) <= BagInputs(H, size, hs)
    decreases k
  {
    if k == 0 {
      assert hs[0..] == hs;
    } else {
      assert hs[1..][k - 1..] == hs[k..];
      BagInputsOfSuffix(H, size, hs[1..], k - 1);
      BagInputsOfTail(H, size, hs);
    }
  }

  lemma BagInputsOfTail(H: HashFn, size: nat, hs: seq<Digest>)
    requires hs != []
    ensures BagInputs(H, size, hs[1..]) <= BagInputs(H, size, hs)
  {
  }

  lemma BagsToSoundRight(H: HashFn, size: nat, all: seq<Digest>, idx: nat, hash: Bytes, rest: seq<Bytes>, X: set<Input>)
    requires idx + 1 < |all| && |rest| == idx + 1 && AllDigests(rest)
    requires BagLeft(H, size, rest[..idx], H(size, hash + rest[idx])) == Bag(H, size, all)
    requires X == {(size, hash + rest[idx])} + BagLeftInputs(H, size, rest[..idx], H(size, hash + rest[idx]))
    requires !Collide(H, X, BagInputs(H, size, all))
    ensures hash == all[idx] && rest == all[..idx] + [Bag(H, size, all[idx + 1..])]
  {
    var Y := BagInputs(H, size, all);
    var c := hash + rest[idx];
    var b: Bytes := Bag(H, size, all[idx + 1..]);
    CollideGrows(H, BagLeftInputs(H, size, rest[..idx], H(size, c)), Y, X, Y);
    BagLeftSound(H, size, all, rest[..idx], H(size, c));
    BagInputsOfSuffix(H, size, all, idx);
    assert all[idx..][1..] == all[idx + 1..];
    SameInput(H, X, Y, (size, c), (size, all[idx] + b));
    SplitFront(hash, rest[idx], all[idx], b);
    assert rest == rest[..idx] + [rest[idx]];
  }

  /** The bagging half is sound for any list of peak hashes. */
  lemma BagsToSound(H: HashFn, hashes: seq<Digest>, peak: nat, hash: Bytes, rest: seq<Bytes>)
    requires var size := |hashes|;
             && peak in Peaks(size) && AllDigests(rest)
             && BagsTo(H, size, peak, hash, rest) == Some(BaggedRoot(H, hashes))
             && !Collide(H, BagsToInputs(H, size, peak, hash, rest), BagInputs(H, size, PeakEntries(hashes)))
    ensures peak < |hashes| && hash == hashes[peak] && rest == PeakPath(H, hashes, peak)
  {
    var size := |hashes|;
    var all := PeakEntries(hashes);
    var idx := IndexOf(Peaks(size), peak);
    PeaksInRange(size);
    var X, Y := BagsToInputs(H, size, peak, hash, rest), BagInputs(H, size, all);
    if idx + 1 < |all| {
      BagsToSoundRight(H, size, all, idx, hash, rest, X);
    } else {
      assert rest[..idx] == rest;
      BagLeftSound(H, size, all, rest, hash);
      assert all[idx..] == [all[idx]];
    }
  }

  /** What acceptance comes down to when there are peaks. */
  lemma AcceptedParts(H: HashFn, size: nat, path: seq<Bytes>, hash: Bytes, pos: nat, root: Bytes)
      returns (siblings: seq<Bytes>, rest: seq<Bytes>, climbed: set<Input>, bagged: set<Input>)
    requires Peaks(size) != [] && Accepts(H, MerkleProof(size, path), hash, pos, root)
    ensures path == siblings + rest && |siblings| == |FamilyBranch(pos, size)|
    ensures var top := Climb(H, pos, hash, FamilyBranch(pos, size), siblings);
            && BagsTo(H, size, BranchEnd(pos, size), top, rest) == Some(root)
            && bagged == BagsToInputs(H, size, BranchEnd(pos, size), top, rest)
    ensures climbed == ClimbInputs(H, pos, hash, FamilyBranch(pos, size), siblings)
    ensures climbed + bagged == VerifyInputs(H, MerkleProof(size, path), hash, pos)
  {
    var branch := FamilyBranch(pos, size);
    siblings, rest := path[..|branch|], path[|branch|..];
    climbed := ClimbInputs(H, pos, hash, branch, siblings);
    bagged := BagsToInputs(H, size, BranchEnd(pos, size), Climb(H, pos, hash, branch, siblings), rest);
  }

  lemma SoundParts(H: HashFn, leaves: seq<Bytes>, siblings: seq<Bytes>, rest: seq<Bytes>, hash: Bytes, pos: nat)
    requires leaves != [] && AllDigests(siblings) && AllDigests(rest)
    requires |siblings| == |FamilyBranch(pos, MmrSize(|leaves|))|
    requires var size := MmrSize(|leaves|);
             var branch, peak := FamilyBranch(pos, size), BranchEnd(pos, size);
             var top := Climb(H, pos, hash, branch, siblings);
             && BagsTo(H, size, peak, top, rest) == Some(Root(H, leaves))
             && !Collide(H, ClimbInputs(H, pos, hash, branch, siblings), NodeInputs(H, leaves))
             && !Collide(H, BagsToInputs(H, size, peak, top, rest), BagInputs(H, size, PeakHashes(H, leaves)))
    ensures pos < MmrSize(|leaves|) && hash == NodeHash(H, leaves, pos)
    ensures siblings + rest == ProofFor(H, NodeHashes(H, leaves), pos).path
  {
    var size := MmrSize(|leaves|);
    var peak := BranchEnd(pos, size);
    PeaksInRange(size);
    RootIsBagged(H, leaves);
    BagsToSound(H, NodeHashes(H, leaves), peak, Climb(H, pos, hash, FamilyBranch(pos, size), siblings), rest);
    ClimbSound(H, leaves, pos, hash, siblings);
  }

  /**
    Soundness of a proof that claims the PMMR's own size: against the genuine root of a nonempty range, the
    verifier accepts only a position in range with the hash stored there and, entry for entry, the proof the
    prover would build, unless two of the inputs hashed on the two sides collide. ProofSizes has the other sizes.
  */
  lemma Soundness(H: HashFn, leaves: seq<Bytes>, path: seq<Bytes>, hash: Bytes, pos: nat)
    requires leaves != [] && AllDigests(path)
    requires Accepts(H, MerkleProof(MmrSize(|leaves|), path), hash, pos, Root(H, leaves))
    ensures || Collide(H, VerifyInputs(H, MerkleProof(MmrSize(|leaves|), path), hash, pos), RootInputs(H, leaves))
            || (&& pos < MmrSize(|leaves|)
                && hash == NodeHash(H, leaves, pos)
                && MerkleProof(MmrSize(|leaves|), path) == ProofFor(H, NodeHashes(H, leaves), pos))
  {
    var size := MmrSize(|leaves|);
    var X, Y := VerifyInputs(H, MerkleProof(size, path), hash, pos), RootInputs(H, leaves);
    if !Collide(H, X, Y) {
      SomePeak(|leaves|);
      var siblings, rest, climbed, bagged := AcceptedParts(H, size, path, hash, pos, Root(H, leaves));
      CollideGrows(H, bagged, BagInputs(H, size, PeakHashes(H, leaves)), X, Y);
      CollideGrows(H, climbed, NodeInputs(H, leaves), X, Y);
      SoundParts(H, leaves, siblings, rest, hash, pos);
    }
  }

  /** The one range Soundness leaves out: with no leaf at all, 32 zero bytes pass at every position, whatever the path. */
  lemma EmptyRangeAccepts(H: HashFn, path: seq<Bytes>, hash: Bytes, pos: nat)
    ensures Accepts(H, MerkleProof(MmrSize(0), path), hash, pos, Root(H, [])) <==> hash == ZERO
  {
    assert FamilyBranch(pos, 0) == [];
  }
}
