/** Runs in which pruning does lose the root, validate and a Merkle proof. */
module PruneLosses {
  import opened Bits
  import opened PostOrder
  import opened MmrIndex
  import opened MmrPeaks
  import opened Hashing
  import opened MerkleProofs
  import opened ProofSizes
  import opened PmmrState
  import opened Forests
  import opened Runs
  import opened PrunedRoot
  import opened Pushes

  // ---------------------------------------------------------------- push everything, then prune

  function PushOps(leaves: seq<Bytes>): seq<Op> {
    seq(|leaves|, i requires 0 <= i < |leaves| => OpPush(leaves[i]))
  }

  function PruneOps(numbers: seq<nat>): seq<Op> {
    seq(|numbers|, i requires 0 <= i < |numbers| => OpPrune(InsertionToPmmrIndex(numbers[i])))
  }

  lemma {:induction false} RunOn(H: HashFn, s: State, first: seq<Op>, then': seq<Op>)
    requires CanRun(H, s, first) && CanRun(H, Run(H, s, first), then')
    ensures CanRun(H, s, first + then') && Run(H, s, first + then') == Run(H, Run(H, s, first), then')
    decreases |first|
  {
    if first == [] {
      assert first + then' == then';
    } else {
      RunOn(H, Apply(H, s, first[0]), first[1..], then');
      assert (first + then')[1..] == first[1..] + then';
    }
  }

  lemma OneOp(H: HashFn, s: State, op: Op)
    requires Applicable(s, op)
    ensures CanRun(H, s, [op]) && Run(H, s, [op]) == Apply(H, s, op)
  {
    var none: seq<Op> := [op][1..];
    assert none == [];
    assert CanRun(H, Apply(H, s, op), none) && Run(H, Apply(H, s, op), none) == Apply(H, s, op);
  }

  lemma {:induction false} PushedRun(H: HashFn, leaves: seq<Bytes>)
    ensures CanRun(H, EMPTY, PushOps(leaves))
    ensures Run(H, EMPTY, PushOps(leaves)) == Abs(H, Unpruned(leaves))
  {
    if leaves == [] {
      StartsEmpty(H);
      assert PushOps(leaves) == [];
    } else {
      var k := |leaves| - 1;
      var front, last := leaves[..k], leaves[k];
      PushedRun(H, front);
      UnprunedState(H, front);
      PushRefines(H, Unpruned(front), last);
      PushStaysSighted(Unpruned(front), last);
      assert front + [last] == leaves;
      OneOp(H, Abs(H, Unpruned(front)), OpPush(last));
      RunOn(H, EMPTY, PushOps(front), [OpPush(last)]);
      assert PushOps(front) + [OpPush(last)] == PushOps(leaves);
    }
  }

  function Numbers(numbers: seq<nat>): set<nat> {
    set i | i in numbers
  }

  /** Every set of leaves can be pruned behind the pushes of all leaves; the run forms no blind parent. */
  lemma {:induction false} PrunedRun(H: HashFn, leaves: seq<Bytes>, numbers: seq<nat>)
    requires forall k :: 0 <= k < |numbers| ==> numbers[k] < |leaves|
    ensures var f := Forest(leaves, Numbers(numbers), {});
            && WellFormed(f) && CanRun(H, EMPTY, PushOps(leaves) + PruneOps(numbers))
            && Run(H, EMPTY, PushOps(leaves) + PruneOps(numbers)) == Abs(H, f)
  {
    if numbers == [] {
      PushedRun(H, leaves);
      assert PushOps(leaves) + PruneOps(numbers) == PushOps(leaves);
      assert Numbers(numbers) == {};
    } else {
      var k := |numbers| - 1;
      var front, last := numbers[..k], numbers[k];
      var pos0 := InsertionToPmmrIndex(last);
      var f := Forest(leaves, Numbers(front), {});
      PrunedRun(H, leaves, front);
      LeafPosMeaning(last);
      LeafPosGrows(last, |leaves|);
      PruneRefines(H, f, pos0);
      OneOp(H, Abs(H, f), OpPrune(pos0));
      var before := PushOps(leaves) + PruneOps(front);
      RunOn(H, EMPTY, before, [OpPrune(pos0)]);
      assert before + [OpPrune(pos0)] == PushOps(leaves) + PruneOps(numbers);
      assert Numbers(numbers) == Numbers(front) + {last};
    }
  }

  // ---------------------------------------------------------------- the first seven positions

  lemma SmallTree()
    ensures Height(0) == 0 && Height(1) == 0 && Height(2) == 1
    ensures Height(3) == 0 && Height(4) == 0 && Height(5) == 1 && Height(6) == 2
    ensures LeafCount(0) == 0 && LeafCount(1) == 1 && LeafCount(3) == 2 && LeafCount(4) == 3
  {
    assert Pow2(0) == 1 && Pow2(1) == 2 && Pow2(2) == 4;
    HeightFits(2, 0);
    HeightFits(2, 1);
    HeightFits(2, 2);
    HeightFits(2, 3);
    HeightFits(2, 4);
    HeightFits(2, 5);
    HeightFits(2, 6);
    assert LeafCount(2) == 2;
  }

  lemma SmallSizes()
    ensures MmrSize(2) == 3 && MmrSize(4) == 7
    ensures Peaks(3) == [2] && Peaks(7) == [6]
  {
    assert Pow2(0) == 1 && Pow2(1) == 2 && Pow2(2) == 4;
    TreeIsValidSize(1);
    TreeIsValidSize(2);
    TreePeaks(1, 2);
    TreePeaks(2, 6);
  }

  /** The internal node over the leaves `i` and `i + 1` is fully pruned once both are. */
  lemma PairPruned(pruned: set<nat>, p: nat)
    requires Height(p) == 1 && p >= 2 && Height(p - 2) == 0 && Height(p - 1) == 0
    requires LeafCount(p - 2) in pruned && LeafCount(p - 1) in pruned
    ensures FullyPruned(pruned, p)
  {
    assert Pow2(1) == 2;
    SubtreePrunedMeaning(pruned, p - 2);
    SubtreePrunedMeaning(pruned, p - 1);
    PrunedChildren(pruned, p, p - 2);
  }

  // ---------------------------------------------------------------- root and validate

  /** Both of two leaves pruned: root is 32 zero bytes, and validate fails unless one of the three nodes hashes to zeros. */
  lemma TwoPruned(H: HashFn, a: Bytes, b: Bytes)
    ensures var ops := PushOps([a, b]) + PruneOps([0, 1]);
            CanRun(H, EMPTY, ops)
            && var s := Run(H, EMPTY, ops);
               var l: Bytes := H(0, a);
               && s.data == [a, b] && BaggedRoot(H, s.hashes) == ZERO && Root(H, [a, b]) == H(2, l + H(1, b))
               && (Validates(H, s.hashes) ==> H(0, a) == ZERO || H(1, b) == ZERO || H(2, l + H(1, b)) == ZERO)
  {
    var f := Forest([a, b], {0, 1}, {});
    PrunedRun(H, [a, b], [0, 1]);
    assert Numbers([0, 1]) == {0, 1};
    SmallTree();
    SmallSizes();
    PairPruned({0, 1}, 2);
    TwoStored(H, a, b);
    var hashes := Abs(H, f).hashes;
    assert hashes[2] == ZERO;
    PeakEntryAt(hashes, 0);
    assert PeakEntries(hashes) == [ZERO];
    if Validates(H, hashes) { assert NodeChecks(H, hashes, 2); }
  }

  lemma TwoStored(H: HashFn, a: Bytes, b: Bytes)
    ensures MmrSize(2) == 3
    ensures var hashes := Abs(H, Forest([a, b], {0, 1}, {})).hashes; |hashes| == 3 && hashes[0] == H(0, a) && hashes[1] == H(1, b)
    ensures var l: Bytes := H(0, a); Root(H, [a, b]) == H(2, l + H(1, b))
  {
    SmallTree();
    SmallSizes();
    var f := Forest([a, b], {0, 1}, {});
    LeafStored(H, f, 0);
    LeafStored(H, f, 1);
    InternalInput(H, [a, b], 2, 0);
    assert PeakHashes(H, [a, b]) == [NodeHash(H, [a, b], 2)];
  }

  // ---------------------------------------------------------------- a Merkle proof

  /** The genuine hashes over four leaves. */
  lemma FourGenuine(H: HashFn, a: Bytes, b: Bytes, c: Bytes, d: Bytes)
    ensures MmrSize(4) == 7
    ensures var leaves := [a, b, c, d];
            var l: Bytes, r: Bytes := H(0, a), H(3, c);
            var x: Bytes := H(2, l + H(1, b));
            && NodeHash(H, leaves, 0) == H(0, a) && NodeHash(H, leaves, 1) == H(1, b)
            && NodeHash(H, leaves, 2) == x && NodeHash(H, leaves, 6) == H(6, x + H(5, r + H(4, d)))
  {
    SmallTree();
    SmallSizes();
    assert Pow2(1) == 2 && Pow2(2) == 4;
    InternalInput(H, [a, b, c, d], 2, 0);
    InternalInput(H, [a, b, c, d], 5, 3);
    InternalInput(H, [a, b, c, d], 6, 2);
  }

  /** The state of four leaves with the last two pruned: only the parent of these two is overwritten. */
  lemma FourStored(H: HashFn, a: Bytes, b: Bytes, c: Bytes, d: Bytes)
    ensures MmrSize(4) == 7
    ensures var leaves := [a, b, c, d];
            var hashes := Abs(H, Forest(leaves, {2, 3}, {})).hashes;
            && |hashes| == 7 && hashes[5] == ZERO
            && hashes[0] == NodeHash(H, leaves, 0) && hashes[1] == NodeHash(H, leaves, 1)
            && hashes[2] == NodeHash(H, leaves, 2) && hashes[6] == NodeHash(H, leaves, 6)
  {
    SmallTree();
    SmallSizes();
    var f, leaves := Forest([a, b, c, d], {2, 3}, {}), [a, b, c, d];
    LeafStored(H, f, 0);
    LeafStored(H, f, 1);
    PairPruned({2, 3}, 5);
    LeafAlive(f, 0, 2, 6);
    SightedIsGenuine(H, leaves, 2);
    SightedIsGenuine(H, leaves, 6);
  }

  /** Nodes over the first leaf are not fully pruned while it is not. */
  lemma LeafAlive(f: Forest, i: nat, p: nat, q: nat)
    requires i == 0 && 0 !in f.pruned && p == 2 && q == 6
    ensures !FullyPruned(f.pruned, p) && !FullyPruned(f.pruned, q)
  {
    SmallTree();
    assert Pow2(1) == 2 && Pow2(2) == 4;
    SubtreePrunedMeaning(f.pruned, 0);
    PrunedChildren(f.pruned, 2, 0);
    PrunedChildren(f.pruned, 6, 2);
  }

  lemma FourBranch()
    ensures FamilyBranch(0, 7) == [(2, 1), (6, 5)] && BranchEnd(0, 7) == 6
    ensures IsLeftSibling(0) && IsLeftSibling(2)
    ensures Family(0) == (2, 1) && Family(2) == (6, 5) && Family(6).0 >= 7
  {
    SmallTree();
    assert Pow2(1) == 2 && Pow2(2) == 4 && Pow2(3) == 8;
    LeftFamily(0, 0);
    LeftFamily(2, 1);
    assert Family(6).0 >= 7;
    assert FamilyBranch(6, 7) == [] && FamilyBranch(2, 7) == [(6, 5)];
  }

  /**
    Four leaves with the last two pruned: the proof the PMMR gives for its first, unpruned leaf is accepted
    only if the parent of the two pruned leaves hashes with zeros in their place as it did without.
  */
  lemma FourPruned(H: HashFn, a: Bytes, b: Bytes, c: Bytes, d: Bytes)
    ensures var ops := PushOps([a, b, c, d]) + PruneOps([2, 3]);
            CanRun(H, EMPTY, ops)
            && var s := Run(H, EMPTY, ops);
               var l: Bytes, r: Bytes := H(0, a), H(3, c);
               var x: Bytes := H(2, l + H(1, b));
               && s.data == [a, b, c, d] && s.pruned == {2, 3} && |s.hashes| == 7
               && (Accepts(H, ProofFor(H, s.hashes, 0), s.hashes[0], 0, BaggedRoot(H, s.hashes)) <==>
                   H(6, x + ZERO) == H(6, x + H(5, r + H(4, d))))
  {
    PrunedRun(H, [a, b, c, d], [2, 3]);
    assert Numbers([2, 3]) == {2, 3};
    FourGenuine(H, a, b, c, d);
    FourStored(H, a, b, c, d);
    FourVerdict(H, Abs(H, Forest([a, b, c, d], {2, 3}, {})).hashes);
  }

  /** The prover's path for the first of four leaves is its two stored siblings. */
  lemma FourPath(H: HashFn, hashes: seq<Digest>)
    requires |hashes| == 7
    ensures ProofFor(H, hashes, 0) == MerkleProof(7, [hashes[1], hashes[5]]) && BaggedRoot(H, hashes) == hashes[6]
  {
    SmallSizes();
    FourBranch();
    SolePeakPath(H, hashes, 6);
    SiblingStep(hashes, 0, 2, 1);
    SiblingStep(hashes, 2, 6, 5);
    SiblingStep(hashes, 6, Family(6).0, Family(6).1);
  }

  lemma SolePeakPath(H: HashFn, hashes: seq<Digest>, top: nat)
    requires Peaks(|hashes|) == [top]
    ensures top < |hashes| && BaggedRoot(H, hashes) == hashes[top] && PeakPath(H, hashes, top) == []
  {
    PeakEntryAt(hashes, 0);
    assert PeakEntries(hashes) == [hashes[top]];
  }

  lemma FourClimb(H: HashFn, h0: Bytes, h1: Bytes, h5: Bytes, path: seq<Bytes>)
    requires path == [h1, h5]
    ensures FamilyBranch(0, 7) == [(2, 1), (6, 5)]
    ensures var x: Bytes := H(2, h0 + h1); Climb(H, 0, h0, FamilyBranch(0, 7), path) == H(6, x + h5)
  {
    FourBranch();
    var branch, tail := [(6, 5)], path[1..];
    assert [(2, 1), (6, 5)][1..] == branch && tail == [h5];
    var x: Bytes := H(2, h0 + h1);
    assert Climb(H, 2, x, branch, tail) == H(6, x + h5);
  }

  lemma FourVerdict(H: HashFn, hashes: seq<Digest>)
    requires |hashes| == 7
    ensures var l: Bytes := hashes[0];
            var x: Bytes := H(2, l + hashes[1]);
            Accepts(H, ProofFor(H, hashes, 0), hashes[0], 0, BaggedRoot(H, hashes)) <==> H(6, x + hashes[5]) == hashes[6]
  {
    var path: seq<Bytes> := [hashes[1], hashes[5]];
    FourPath(H, hashes);
    FourClimb(H, hashes[0], hashes[1], hashes[5], path);
    SmallSizes();
    FourBranch();
    TreeBags(H, 6, path, hashes[0], 0, hashes[6]);
  }

  // ---------------------------------------------------------------- a hash for which all three are lost

  /** A first byte of one, then the byte that starts the second of two hashed halves. */
  function Marked(p: nat, data: Bytes): Digest {
    [1, if |data| > HASH_SIZE then data[HASH_SIZE] else 0, 0, 0, 0, 0, 0, 0, 0, 0, 0, 0, 0, 0, 0, 0,
     0, 0, 0, 0, 0, 0, 0, 0, 0, 0, 0, 0, 0, 0, 0, 0]
  }

  /** Pruning both of two leaves changes the root and makes validate fail. */
  lemma RootLost(a: Bytes, b: Bytes)
    ensures var ops := PushOps([a, b]) + PruneOps([0, 1]);
            CanRun(Marked, EMPTY, ops)
            && var s := Run(Marked, EMPTY, ops);
               BaggedRoot(Marked, s.hashes) != Root(Marked, s.data) && !Validates(Marked, s.hashes)
  {
    TwoPruned(Marked, a, b);
    MarkedNotZero(0, a);
    MarkedNotZero(1, b);
    var l: Bytes := Marked(0, a);
    MarkedNotZero(2, l + Marked(1, b));
  }

  /** Pruning the last two of four leaves spoils the proof of the first one. */
  lemma ProofLost(a: Bytes, b: Bytes, c: Bytes, d: Bytes)
    ensures var ops := PushOps([a, b, c, d]) + PruneOps([2, 3]);
            CanRun(Marked, EMPTY, ops)
            && var s := Run(Marked, EMPTY, ops);
               && |s.hashes| == 7 && s.pruned == {2, 3}
               && !Accepts(Marked, ProofFor(Marked, s.hashes, 0), s.hashes[0], 0, BaggedRoot(Marked, s.hashes))
  {
    FourPruned(Marked, a, b, c, d);
    var l: Bytes, r: Bytes := Marked(0, a), Marked(3, c);
    MarkedDiffers(6, Marked(2, l + Marked(1, b)), ZERO, Marked(5, r + Marked(4, d)));
  }

  lemma MarkedNotZero(p: nat, data: Bytes)
    ensures Marked(p, data) != ZERO && Marked(p, data)[0] == 1
  {
    assert Marked(p, data)[0] != ZERO[0];
  }

  lemma MarkedDiffers(p: nat, x: Bytes, y: Bytes, z: Bytes)
    requires |x| == |y| == |z| == HASH_SIZE && y[0] != z[0]
    ensures Marked(p, x + y) != Marked(p, x + z)
  {
    assert Marked(p, x + y)[1] == y[0] && Marked(p, x + z)[1] == z[0];
  }
}
