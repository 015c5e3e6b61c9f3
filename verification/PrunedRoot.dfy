/** When pruning leaves the root, the Merkle proofs and validate as they were. */
module PrunedRoot {
  import opened Bits
  import opened PostOrder
  import opened MmrIndex
  import opened MmrPeaks
  import opened Hashing
  import opened MerkleProofs
  import opened PmmrState
  import opened Forests
  import opened Runs

  // ---------------------------------------------------------------- root

  /** Every peak above the leaves keeps an unpruned leaf. */
  ghost predicate PeaksAlive(f: Forest) {
    forall q :: q in Peaks(MmrSize(|f.leaves|)) && Height(q) > 0 ==> !FullyPruned(f.pruned, q)
  }

  lemma {:induction false} SightedIsGenuine(H: HashFn, leaves: seq<Bytes>, p: nat)
    requires p < MmrSize(|leaves|)
    ensures Born(H, leaves, {}, p) == NodeHash(H, leaves, p)
    decreases p
  {
    if Height(p) == 0 {
    } else {
      Children(p);
      SightedIsGenuine(H, leaves, p - Pow2(Height(p)));
      SightedIsGenuine(H, leaves, p - 1);
    }
  }

  /** If no parent was formed blindly and no peak is overwritten, the stored root is the genuine one. */
  lemma RootPreserved(H: HashFn, f: Forest)
    requires WellFormed(f) && f.blind == {} && PeaksAlive(f)
    ensures BaggedRoot(H, Abs(H, f).hashes) == Root(H, f.leaves)
  {
    var size := MmrSize(|f.leaves|);
    PeaksInRange(size);
    var stored, genuine := PeakEntries(Abs(H, f).hashes), PeakEntries(NodeHashes(H, f.leaves));
    forall i | 0 <= i < |Peaks(size)| ensures stored[i] == genuine[i] {
      SightedIsGenuine(H, f.leaves, Peaks(size)[i]);
    }
    assert stored == genuine;
    RootIsBagged(H, f.leaves);
  }

  ghost function BornInputs(H: HashFn, f: Forest): set<Input> {
    set p: nat | p < MmrSize(|f.leaves|) :: BornInput(H, f.leaves, f.blind, p)
  }

  /** Everything hashed while building and bagging the stored state. */
  ghost function StoredInputs(H: HashFn, f: Forest): set<Input> {
    BornInputs(H, f) + BagInputs(H, MmrSize(|f.leaves|), PeakEntries(Abs(H, f).hashes))
  }

  lemma BlindIsInternal(f: Forest, q: nat)
    requires WellFormed(f)
    ensures q in f.blind ==> ZeroedLeft(f.pruned, q)
  {
  }

  lemma NeverZero(H: HashFn, leaves: seq<Bytes>, p: nat)
    requires p < MmrSize(|leaves|) && !HitsZero(H, NodeInputs(H, leaves))
    ensures NodeHash(H, leaves, p) != ZERO
  {
    var x := NodeInput(H, leaves, p);
    assert x in NodeInputs(H, leaves);
  }

  /** A node whose hash is genuine has no blind parent in its subtree. */
  lemma {:induction false} GenuineIsSighted(H: HashFn, f: Forest, p: nat, q: nat)
    requires WellFormed(f) && p < MmrSize(|f.leaves|)
    requires Born(H, f.leaves, f.blind, p) == NodeHash(H, f.leaves, p)
    requires !Collide(H, BornInputs(H, f), NodeInputs(H, f.leaves)) && !HitsZero(H, NodeInputs(H, f.leaves))
    requires BintreeRange(p).0 <= q <= p
    ensures q !in f.blind
    decreases p
  {
    SameInput(H, BornInputs(H, f), NodeInputs(H, f.leaves), BornInput(H, f.leaves, f.blind, p), NodeInput(H, f.leaves, p));
    if Height(p) == 0 {
      BlindIsInternal(f, q);
    } else {
      Children(p);
      var l := p - Pow2(Height(p));
      ChildrenGenuine(H, f, p, l);
      ChildRanges(p, l);
      if q <= l {
        GenuineIsSighted(H, f, l, q);
      } else if q < p {
        GenuineIsSighted(H, f, p - 1, q);
      }
    }
  }

  lemma ChildRanges(p: nat, l: nat)
    requires Height(p) > 0 && p > 0 && p == l + Pow2(Height(p))
    ensures BintreeRange(l).0 == BintreeRange(p).0 && BintreeRange(p - 1).0 == l + 1
  {
    Children(p);
  }

  lemma ChildrenGenuine(H: HashFn, f: Forest, p: nat, l: nat)
    requires p < MmrSize(|f.leaves|) && Height(p) > 0 && p > 0 && p == l + Pow2(Height(p))
    requires BornInput(H, f.leaves, f.blind, p) == NodeInput(H, f.leaves, p)
    requires !HitsZero(H, NodeInputs(H, f.leaves))
    ensures p !in f.blind
    ensures Born(H, f.leaves, f.blind, l) == NodeHash(H, f.leaves, l)
    ensures Born(H, f.leaves, f.blind, p - 1) == NodeHash(H, f.leaves, p - 1)
  {
    var left := if p in f.blind then ZERO else Born(H, f.leaves, f.blind, l);
    SplitPair(left, Born(H, f.leaves, f.blind, p - 1), NodeHash(H, f.leaves, l), NodeHash(H, f.leaves, p - 1));
    NeverZero(H, f.leaves, l);
  }

  /** A peak that stores its genuine hash is alive and stands on no blind parent. */
  lemma PeakGenuine(H: HashFn, f: Forest, p: nat, q: nat)
    requires WellFormed(f) && p < MmrSize(|f.leaves|)
    requires Stored(H, f, p) == NodeHash(H, f.leaves, p)
    requires !Collide(H, BornInputs(H, f), NodeInputs(H, f.leaves)) && !HitsZero(H, NodeInputs(H, f.leaves))
    requires BintreeRange(p).0 <= q <= p
    ensures Height(p) > 0 ==> !FullyPruned(f.pruned, p)
    ensures q !in f.blind
  {
    NeverZero(H, f.leaves, p);
    GenuineIsSighted(H, f, p, q);
  }

  lemma PeaksGenuine(H: HashFn, f: Forest, i: nat)
    requires f.leaves != [] && BaggedRoot(H, Abs(H, f).hashes) == Root(H, f.leaves)
    requires !Collide(H, StoredInputs(H, f), RootInputs(H, f.leaves))
    requires i < |Peaks(MmrSize(|f.leaves|))|
    ensures var p := Peaks(MmrSize(|f.leaves|))[i];
            p < MmrSize(|f.leaves|) && Stored(H, f, p) == NodeHash(H, f.leaves, p)
  {
    var size := MmrSize(|f.leaves|);
    var stored, genuine := PeakEntries(Abs(H, f).hashes), PeakHashes(H, f.leaves);
    PeaksInRange(size);
    SomePeak(|f.leaves|);
    CollideGrows(H, BagInputs(H, size, stored), BagInputs(H, size, genuine), StoredInputs(H, f), RootInputs(H, f.leaves));
    BagBinding(H, size, stored, genuine);
    assert stored[i] == genuine[i];
  }

  /** What PeakGenuine concludes, for the peak over `q`. */
  lemma PeakOverGenuine(H: HashFn, f: Forest, i: nat, q: nat)
    requires WellFormed(f) && f.leaves != [] && BaggedRoot(H, Abs(H, f).hashes) == Root(H, f.leaves)
    requires !Collide(H, StoredInputs(H, f), RootInputs(H, f.leaves)) && !HitsZero(H, RootInputs(H, f.leaves))
    requires i < |Peaks(MmrSize(|f.leaves|))|
    requires BintreeRange(Peaks(MmrSize(|f.leaves|))[i]).0 <= q <= Peaks(MmrSize(|f.leaves|))[i]
    ensures var p := Peaks(MmrSize(|f.leaves|))[i]; Height(p) > 0 ==> !FullyPruned(f.pruned, p)
    ensures q !in f.blind
  {
    PeaksGenuine(H, f, i);
    CollideGrows(H, BornInputs(H, f), NodeInputs(H, f.leaves), StoredInputs(H, f), RootInputs(H, f.leaves));
    assert !HitsZero(H, NodeInputs(H, f.leaves));
    PeakGenuine(H, f, Peaks(MmrSize(|f.leaves|))[i], q);
  }

  lemma RootGenuineOnlyIf(H: HashFn, f: Forest)
    requires WellFormed(f) && BaggedRoot(H, Abs(H, f).hashes) == Root(H, f.leaves)
    requires !Collide(H, StoredInputs(H, f), RootInputs(H, f.leaves)) && !HitsZero(H, RootInputs(H, f.leaves))
    ensures f.blind == {} && PeaksAlive(f)
  {
    var size := MmrSize(|f.leaves|);
    if f.leaves != [] {
      forall p | p in Peaks(size) && Height(p) > 0 ensures !FullyPruned(f.pruned, p) {
        var i :| 0 <= i < |Peaks(size)| && Peaks(size)[i] == p;
        PeakOverGenuine(H, f, i, p);
      }
      forall q | q < size ensures q !in f.blind {
        BranchEndsAtPeak(|f.leaves|, q);
        var i :| 0 <= i < |Peaks(size)| && Peaks(size)[i] == BranchEnd(q, size);
        PeakOverGenuine(H, f, i, q);
      }
    }
    assert f.blind == {};
  }

  /**
    The stored root is the root of the same leaves never pruned exactly when no push merged an
    overwritten peak and no peak is overwritten now, unless inputs hashed on the two sides collide
    or one of them hashes to 32 zero bytes.
  */
  lemma RootExact(H: HashFn, f: Forest)
    requires WellFormed(f)
    ensures || (BaggedRoot(H, Abs(H, f).hashes) == Root(H, f.leaves) <==> f.blind == {} && PeaksAlive(f))
            || Collide(H, StoredInputs(H, f), RootInputs(H, f.leaves))
            || HitsZero(H, RootInputs(H, f.leaves))
  {
    if f.blind == {} && PeaksAlive(f) {
      RootPreserved(H, f);
    } else if !Collide(H, StoredInputs(H, f), RootInputs(H, f.leaves)) && !HitsZero(H, RootInputs(H, f.leaves)) {
      if BaggedRoot(H, Abs(H, f).hashes) == Root(H, f.leaves) { RootGenuineOnlyIf(H, f); }
    }
  }

  /** While every peak is alive, push forms no blind parent. */
  lemma PushStaysSighted(f: Forest, leaf: Bytes)
    requires WellFormed(f) && PeaksAlive(f)
    ensures PushForest(f, leaf).blind == f.blind
  {
    var n := |f.leaves|;
    LeafPosGrows(n, n + 1);
    forall q | MmrSize(n) < q < MmrSize(n + 1) ensures !ZeroedLeft(f.pruned, q) {
      if Height(q) > 1 {
        LeftOfNewParent(n, q);
      }
    }
    assert PushForest(f, leaf).blind == f.blind;
  }

  /** The left child of a parent formed by push is an old peak. */
  lemma LeftOfNewParent(n: nat, q: nat)
    requires MmrSize(n) < q < MmrSize(n + 1) && Height(q) > 0
    ensures Pow2(Height(q)) <= q
    ensures Height(q - Pow2(Height(q))) == Height(q) - 1 && q - Pow2(Height(q)) in Peaks(MmrSize(n))
  {
    Children(q);
    var l := q - Pow2(Height(q));
    ParentOfChildren(q, l);
    RightStartsAtLeaf(n, q, l);
    ParentlessIsPeak(n, l);
    PeaksAreMountains(n);
  }

  lemma RightStartsAtLeaf(n: nat, q: nat, l: nat)
    requires MmrSize(n) < q < MmrSize(n + 1) && Height(q) > 0 && q == l + Pow2(Height(q))
    ensures l < MmrSize(n)
  {
    Children(q);
    FirstIsLeaf(q - 1, Height(q) - 1);
    if l >= MmrSize(n) { GroupOfLeaf(n, l + 1); }
  }

  /** Before every step of the run, and at its end, every peak above the leaves keeps an unpruned leaf. */
  ghost predicate AliveThroughout(f: Forest, ops: seq<Op>)
    decreases |ops|
  {
    PeaksAlive(f) && (ops != [] ==> AliveThroughout(ApplyForest(f, ops[0]), ops[1..]))
  }

  lemma {:induction false} RunStaysSighted(H: HashFn, f: Forest, ops: seq<Op>)
    requires WellFormed(f) && f.blind == {} && CanRun(H, Abs(H, f), ops) && AliveThroughout(f, ops)
    ensures RunForest(f, ops).blind == {} && PeaksAlive(RunForest(f, ops))
    decreases |ops|
  {
    if ops == [] {
    } else {
      StepRefines(H, f, ops[0]);
      match ops[0] {
        case OpPush(leaf) => PushStaysSighted(f, leaf);
        case OpPrune(_) =>
        case OpRewind(_) =>
      }
      RunStaysSighted(H, ApplyForest(f, ops[0]), ops[1..]);
    }
  }

  /**
    Over every run from the empty PMMR in which each peak above the leaves keeps an unpruned leaf,
    root is the root of the same leaves never pruned.
  */
  lemma RunKeepsRoot(H: HashFn, ops: seq<Op>)
    requires CanRun(H, EMPTY, ops) && AliveThroughout(NO_FOREST, ops)
    ensures BaggedRoot(H, Run(H, EMPTY, ops).hashes) == Root(H, Run(H, EMPTY, ops).data)
  {
    StartsEmpty(H);
    RunRefines(H, NO_FOREST, ops);
    RunStaysSighted(H, NO_FOREST, ops);
    RootPreserved(H, RunForest(NO_FOREST, ops));
  }

  // ---------------------------------------------------------------- validate

  /** No two sibling leaves are both pruned. */
  ghost predicate NoPrunedTwins(f: Forest) {
    forall p :: 0 <= p < MmrSize(|f.leaves|) && Height(p) == 1 ==> !FullyPruned(f.pruned, p)
  }

  /** Any overwritten node stands over a pair of pruned sibling leaves. */
  lemma {:induction false} OverwrittenHasTwins(f: Forest, p: nat)
    requires p < MmrSize(|f.leaves|) && Height(p) > 0 && NoPrunedTwins(f)
    ensures !FullyPruned(f.pruned, p)
    decreases p
  {
    if Height(p) == 1 {
    } else {
      Children(p);
      OverwrittenHasTwins(f, p - 1);
      PrunedChildren(f.pruned, p, p - Pow2(Height(p)));
    }
  }

  lemma NoTwinsSighted(f: Forest)
    requires WellFormed(f) && NoPrunedTwins(f)
    ensures f.blind == {}
  {
    forall q | q in f.blind ensures false {
      assert ZeroedLeft(f.pruned, q);
      Children(q);
      OverwrittenHasTwins(f, q - Pow2(Height(q)));
    }
  }

  lemma NoTwinsGenuine(H: HashFn, f: Forest, p: nat)
    requires WellFormed(f) && NoPrunedTwins(f) && p < MmrSize(|f.leaves|)
    ensures Stored(H, f, p) == NodeHash(H, f.leaves, p)
  {
    NoTwinsSighted(f);
    SightedIsGenuine(H, f.leaves, p);
    if Height(p) > 0 { OverwrittenHasTwins(f, p); }
  }

  lemma NoTwinsValidates(H: HashFn, f: Forest)
    requires WellFormed(f) && NoPrunedTwins(f)
    ensures Validates(H, Abs(H, f).hashes)
  {
    var hashes := Abs(H, f).hashes;
    forall p | 0 <= p < |hashes| ensures NodeChecks(H, hashes, p) {
      NoTwinsGenuine(H, f, p);
      if Height(p) > 0 {
        Children(p);
        NoTwinsGenuine(H, f, p - 1);
        NoTwinsGenuine(H, f, p - Pow2(Height(p)));
        InternalInput(H, f.leaves, p, p - Pow2(Height(p)));
      }
    }
  }

  lemma TwinsFail(H: HashFn, f: Forest, p: nat)
    requires WellFormed(f) && p < MmrSize(|f.leaves|) && Height(p) == 1 && FullyPruned(f.pruned, p)
    requires !HitsZero(H, NodeInputs(H, f.leaves))
    ensures !NodeChecks(H, Abs(H, f).hashes, p)
  {
    Children(p);
    var l := p - Pow2(Height(p));
    LeafStored(H, f, l);
    LeafStored(H, f, p - 1);
    NeverZero(H, f.leaves, l);
    NeverZero(H, f.leaves, p - 1);
    NeverZero(H, f.leaves, p);
    InternalInput(H, f.leaves, p, l);
    assert Abs(H, f).hashes[p] == ZERO;
  }

  lemma LeafStored(H: HashFn, f: Forest, p: nat)
    requires p < MmrSize(|f.leaves|) && Height(p) == 0
    ensures Stored(H, f, p) == NodeHash(H, f.leaves, p)
  {
    assert BornInput(H, f.leaves, f.blind, p) == NodeInput(H, f.leaves, p);
  }

  /** validate passes exactly when no two sibling leaves are both pruned, unless some node hashes to zeros. */
  lemma ValidateExact(H: HashFn, f: Forest)
    requires WellFormed(f)
    ensures (Validates(H, Abs(H, f).hashes) <==> NoPrunedTwins(f)) || HitsZero(H, NodeInputs(H, f.leaves))
  {
    if NoPrunedTwins(f) {
      NoTwinsValidates(H, f);
    } else if !HitsZero(H, NodeInputs(H, f.leaves)) {
      var p :| 0 <= p < MmrSize(|f.leaves|) && Height(p) == 1 && FullyPruned(f.pruned, p);
      TwinsFail(H, f, p);
    }
  }

  // ---------------------------------------------------------------- proofs from a pruned PMMR

  /** The hash of `s` is still what its parent was formed from. */
  ghost predicate Usable(f: Forest, parent: nat, s: nat) {
    Height(s) == 0 || !FullyPruned(f.pruned, s) || parent in f.blind
  }

  /** Every sibling along the branch of `pos` is usable. */
  ghost predicate SiblingsUsable(f: Forest, pos: nat)
    decreases MmrSize(|f.leaves|) - pos
  {
    var (parent, sibling) := Family(pos);
    parent < MmrSize(|f.leaves|) ==> Usable(f, parent, sibling) && SiblingsUsable(f, parent)
  }

  /** What an internal node was hashed from, its left child named. */
  lemma BornInternal(H: HashFn, f: Forest, p: nat, l: nat)
    requires p < MmrSize(|f.leaves|) && Height(p) > 0 && p > 0 && p == l + Pow2(Height(p))
    ensures var left: Bytes := if p in f.blind then ZERO else Born(H, f.leaves, f.blind, l);
            BornInput(H, f.leaves, f.blind, p) == (p, left + Born(H, f.leaves, f.blind, p - 1))
  {
  }

  /** Above a live node every node is live, and zeros can only have been read from a left sibling. */
  lemma LiveAbove(f: Forest, pos: nat, parent: nat, sibling: nat)
    requires WellFormed(f) && (parent, sibling) == Family(pos) && !FullyPruned(f.pruned, pos)
    ensures !FullyPruned(f.pruned, parent)
    ensures parent in f.blind ==> !IsLeftSibling(pos) && Height(sibling) > 0 && FullyPruned(f.pruned, sibling)
  {
    FamilyOrder(pos, parent, sibling);
    ParentPruned(f.pruned, pos);
    BlindIsInternal(f, parent);
  }

  lemma BornCombined(H: HashFn, f: Forest, pos: nat, parent: nat, sibling: nat)
    requires (parent, sibling) == Family(pos) && parent < MmrSize(|f.leaves|)
    requires parent in f.blind ==> !IsLeftSibling(pos)
    ensures sibling < MmrSize(|f.leaves|)
    ensures BornInput(H, f.leaves, f.blind, parent) ==
            (parent, Combined(pos, Born(H, f.leaves, f.blind, pos),
                              if parent in f.blind then ZERO else Born(H, f.leaves, f.blind, sibling)))
  {
    FamilyOrder(pos, parent, sibling);
    if IsLeftSibling(pos) {
      BornInternal(H, f, parent, pos);
    } else {
      BornInternal(H, f, parent, sibling);
    }
  }

  /** A live node's parent was hashed from the node's own hash and from its sibling's, or zeros in place of the latter. */
  lemma LiveParent(H: HashFn, f: Forest, pos: nat, parent: nat, sibling: nat)
    requires WellFormed(f) && (parent, sibling) == Family(pos) && parent < MmrSize(|f.leaves|)
    requires !FullyPruned(f.pruned, pos)
    ensures sibling < MmrSize(|f.leaves|) && !FullyPruned(f.pruned, parent)
    ensures Stored(H, f, pos) == Born(H, f.leaves, f.blind, pos)
    ensures parent in f.blind ==> Height(sibling) > 0 && FullyPruned(f.pruned, sibling)
    ensures BornInput(H, f.leaves, f.blind, parent) ==
            (parent, Combined(pos, Stored(H, f, pos), if parent in f.blind then ZERO else Born(H, f.leaves, f.blind, sibling)))
  {
    LiveAbove(f, pos, parent, sibling);
    BornCombined(H, f, pos, parent, sibling);
    assert Stored(H, f, pos) == Born(H, f.leaves, f.blind, pos);
  }

  lemma {:induction false} UsableIntact(H: HashFn, f: Forest, pos: nat)
    requires WellFormed(f) && pos < MmrSize(|f.leaves|) && !FullyPruned(f.pruned, pos) && SiblingsUsable(f, pos)
    ensures BranchIntact(H, Abs(H, f).hashes, pos)
    decreases MmrSize(|f.leaves|) - pos
  {
    var (parent, sibling) := Family(pos);
    if parent >= MmrSize(|f.leaves|) {
    } else {
      LiveParent(H, f, pos, parent, sibling);
      UsableIntact(H, f, parent);
    }
  }

  /** A climb along the stored siblings that reaches the stored peak met only usable siblings. */
  lemma {:induction false} ClimbOnlyUsable(H: HashFn, f: Forest, pos: nat, hash: Bytes)
    requires WellFormed(f) && pos < MmrSize(|f.leaves|) && !FullyPruned(f.pruned, pos)
    requires var hashes := Abs(H, f).hashes;
             var branch, path := FamilyBranch(pos, |hashes|), SiblingHashes(hashes, pos);
             && Climb(H, pos, hash, branch, path) == hashes[BranchEnd(pos, |hashes|)]
             && !Collide(H, ClimbInputs(H, pos, hash, branch, path), BornInputs(H, f))
    requires !HitsZero(H, BornInputs(H, f))
    ensures SiblingsUsable(f, pos)
    ensures hash == Stored(H, f, pos)
    decreases MmrSize(|f.leaves|) - pos
  {
    var hashes := Abs(H, f).hashes;
    var size := |hashes|;
    var (parent, sibling) := Family(pos);
    if parent >= size {
    } else {
      LiveParent(H, f, pos, parent, sibling);
      var branch, path := FamilyBranch(pos, size), SiblingHashes(hashes, pos);
      var X, Y := ClimbInputs(H, pos, hash, branch, path), BornInputs(H, f);
      var c := Combined(pos, hash, path[0]);
      assert branch[1..] == FamilyBranch(parent, size) && path[1..] == SiblingHashes(hashes, parent);
      CollideGrows(H, ClimbInputs(H, parent, H(parent, c), branch[1..], path[1..]), Y, X, Y);
      ClimbOnlyUsable(H, f, parent, H(parent, c));
      SameInput(H, X, Y, (parent, c), BornInput(H, f.leaves, f.blind, parent));
      var sibling' := if parent in f.blind then ZERO else Born(H, f.leaves, f.blind, sibling);
      SiblingPinned(pos, hash, path[0], Stored(H, f, pos), sibling');
      BornNotZero(H, f, sibling);
    }
  }

  lemma BornNotZero(H: HashFn, f: Forest, p: nat)
    requires p < MmrSize(|f.leaves|) && !HitsZero(H, BornInputs(H, f))
    ensures Born(H, f.leaves, f.blind, p) != ZERO
  {
    var x := BornInput(H, f.leaves, f.blind, p);
    assert x in BornInputs(H, f);
  }

  lemma AcceptedMeansUsable(H: HashFn, f: Forest, pos: nat)
    requires WellFormed(f) && pos < MmrSize(|f.leaves|) && !FullyPruned(f.pruned, pos)
    ensures var hashes := Abs(H, f).hashes;
            Accepts(H, ProofFor(H, hashes, pos), hashes[pos], pos, BaggedRoot(H, hashes)) ==>
              || SiblingsUsable(f, pos)
              || Collide(H, VerifyInputs(H, ProofFor(H, hashes, pos), hashes[pos], pos), StoredInputs(H, f))
              || HitsZero(H, BornInputs(H, f))
  {
    var hashes := Abs(H, f).hashes;
    var size := |hashes|;
    var proof := ProofFor(H, hashes, pos);
    var X, Y := VerifyInputs(H, proof, hashes[pos], pos), StoredInputs(H, f);
    if !Accepts(H, proof, hashes[pos], pos, BaggedRoot(H, hashes)) || Collide(H, X, Y) || HitsZero(H, BornInputs(H, f)) {
      return;
    }
    var siblings, peak := SiblingHashes(hashes, pos), BranchEnd(pos, size);
    var rest := PeakPath(H, hashes, peak);
    var branch := FamilyBranch(pos, size);
    assert proof.path[..|branch|] == siblings && proof.path[|branch|..] == rest;
    var top := Climb(H, pos, hashes[pos], branch, siblings);
    BranchEndsAtPeak(|f.leaves|, pos);
    PathWhole(H, hashes, peak);
    CollideGrows(H, BagsToInputs(H, size, peak, top, rest), BagInputs(H, size, PeakEntries(hashes)), X, Y);
    BagsToSound(H, hashes, peak, top, rest);
    CollideGrows(H, ClimbInputs(H, pos, hashes[pos], branch, siblings), BornInputs(H, f), X, Y);
    ClimbOnlyUsable(H, f, pos, hashes[pos]);
  }

  lemma PathWhole(H: HashFn, hashes: seq<Digest>, peak: nat)
    ensures AllDigests(PeakPath(H, hashes, peak))
  {
  }

  /**
    The proof generated for an unpruned leaf of a pruned PMMR is accepted against the current root exactly
    when no sibling on its branch was overwritten after its parent was formed, unless hashed inputs
    collide or some node hashes to 32 zero bytes.
  */
  lemma PrunedProofExact(H: HashFn, f: Forest, pos: nat)
    requires WellFormed(f) && IsLeaf(pos) && pos < MmrSize(|f.leaves|) && LeafCount(pos) !in f.pruned
    ensures var hashes := Abs(H, f).hashes;
            var proof := ProofFor(H, hashes, pos);
            || (Accepts(H, proof, hashes[pos], pos, BaggedRoot(H, hashes)) <==> SiblingsUsable(f, pos))
            || Collide(H, VerifyInputs(H, proof, hashes[pos], pos), StoredInputs(H, f))
            || HitsZero(H, BornInputs(H, f))
  {
    var hashes := Abs(H, f).hashes;
    var proof := ProofFor(H, hashes, pos);
    LeafCovers(pos, LeafCount(pos));
    assert !FullyPruned(f.pruned, pos);
    if SiblingsUsable(f, pos) {
      UsableIntact(H, f, pos);
      BranchEndsAtPeak(|f.leaves|, pos);
      ProofAccepted(H, hashes, pos);
    } else {
      AcceptedMeansUsable(H, f, pos);
    }
  }

  /** No internal sibling on the branch of `pos` is fully pruned: what a caller can check with _subtree_pruned. */
  predicate SiblingsAlive(pruned: set<nat>, pos: nat, size: nat)
    decreases size - pos
  {
    var (parent, sibling) := Family(pos);
    parent < size ==> (IsLeaf(sibling) || !SubtreePruned(pruned, sibling)) && SiblingsAlive(pruned, parent, size)
  }

  lemma {:induction false} AliveIsUsable(f: Forest, pos: nat)
    requires SiblingsAlive(f.pruned, pos, MmrSize(|f.leaves|))
    ensures SiblingsUsable(f, pos)
    decreases MmrSize(|f.leaves|) - pos
  {
    var (parent, sibling) := Family(pos);
    if parent >= MmrSize(|f.leaves|) {
    } else {
      SubtreePrunedMeaning(f.pruned, sibling);
      AliveIsUsable(f, parent);
    }
  }

  /** In terms of the state alone: after every run, the proof of an unpruned leaf whose internal siblings are alive is accepted. */
  lemma AliveProofAccepted(H: HashFn, ops: seq<Op>, pos: nat)
    requires CanRun(H, EMPTY, ops)
    requires var s := Run(H, EMPTY, ops);
             && IsLeaf(pos) && pos < |s.hashes| && LeafCount(pos) !in s.pruned
             && SiblingsAlive(s.pruned, pos, |s.hashes|)
    ensures var hashes := Run(H, EMPTY, ops).hashes;
            Accepts(H, ProofFor(H, hashes, pos), hashes[pos], pos, BaggedRoot(H, hashes))
  {
    StartsEmpty(H);
    RunRefines(H, NO_FOREST, ops);
    var f := RunForest(NO_FOREST, ops);
    LeafCovers(pos, LeafCount(pos));
    AliveIsUsable(f, pos);
    UsableIntact(H, f, pos);
    BranchEndsAtPeak(|f.leaves|, pos);
    ProofAccepted(H, Abs(H, f).hashes, pos);
  }
}
