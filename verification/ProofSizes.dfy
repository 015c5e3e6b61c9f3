/** Merkle proofs whose claimed size is not that of the PMMR: verify takes the size from the proof itself. */
module ProofSizes {
  import opened Bits
  import opened PostOrder
  import opened MmrIndex
  import opened MmrPeaks
  import opened Hashing
  import opened Binding
  import opened MerkleProofs

  // ---------------------------------------------------------------- one position more

  /** A branch grows by one pair when the size grows past the parent of its end. */
  lemma {:induction false} BranchOneMore(pos: nat, size: nat)
    ensures var last := Family(BranchEnd(pos, size));
            FamilyBranch(pos, size + 1) == FamilyBranch(pos, size) + (if last.0 == size then [last] else [])
    ensures var last := Family(BranchEnd(pos, size));
            BranchEnd(pos, size + 1) == if last.0 == size then size else BranchEnd(pos, size)
    decreases size - pos
  {
    var parent := Family(pos).0;
    if parent < size {
      BranchOneMore(parent, size);
      assert FamilyBranch(pos, size) == [Family(pos)] + FamilyBranch(parent, size);
    } else if parent == size {
      assert FamilyBranch(size, size + 1) == [];
    } else {
    }
  }

  /** The position a climb along `branch` from `pos` ends at. */
  function EndOf(pos: nat, branch: seq<(nat, nat)>): nat {
    if branch == [] then pos else branch[|branch| - 1].0
  }

  /** One step more at the end of a climb. */
  lemma {:induction false} ClimbOneMore(H: HashFn, pos: nat, hash: Bytes, branch: seq<(nat, nat)>, path: seq<Bytes>, last: (nat, nat), e: Bytes)
    requires |path| == |branch|
    ensures var c := Combined(EndOf(pos, branch), Climb(H, pos, hash, branch, path), e);
            && Climb(H, pos, hash, branch + [last], path + [e]) == H(last.0, c)
            && ClimbInputs(H, pos, hash, branch + [last], path + [e]) ==
               ClimbInputs(H, pos, hash, branch, path) + {(last.0, c)}
    decreases |branch|
  {
    if branch == [] {
      assert (branch + [last])[1..] == [] && (path + [e])[1..] == [];
    } else {
      var parent := branch[0].0;
      ClimbOneMore(H, parent, H(parent, Combined(pos, hash, path[0])), branch[1..], path[1..], last, e);
      assert (branch + [last])[1..] == branch[1..] + [last] && (path + [e])[1..] == path[1..] + [e];
    }
  }

  // ---------------------------------------------------------------- a tree without its root

  /** Without its root, a tree of height `h` is two trees, whose tops the root is the parent of. */
  lemma RootlessTree(h: nat, size: nat)
    requires h > 0 && size == TreeSize(h) - 1
    ensures var l, r := TreeSize(h - 1) - 1, size - 1;
            && Peaks(size) == [l, r] && l < r
            && Family(l) == (size, r) && IsLeftSibling(l)
            && Family(r) == (size, l) && !IsLeftSibling(r)
    ensures Peaks(size + 1) == [size]
  {
    var l, r := TreeSize(h - 1) - 1, size - 1;
    HeightOfRoot(h);
    HeightOfRoot(h - 1);
    Children(size);
    FirstIsLeaf(r, h - 1);
    SiblingPair(l, r, h - 1);
    TreePeaks(h, size);
  }

  lemma TreePeaks(h: nat, size: nat)
    requires h > 0 && size == TreeSize(h) - 1
    ensures Peaks(size) == [TreeSize(h - 1) - 1, size - 1]
    ensures Peaks(size + 1) == [size]
  {
    var t := TreeSize(h - 1);
    Pow2Grows(0, h - 1);
    LargestFits(h, size);
    LargestFits(h, t);
    LargestFits(h + 1, size + 1);
    TwoPeaks(size, t, 0);
    OnePeak(0, size + 1);
  }

  lemma LargestFits(k: nat, s: nat)
    requires k > 0 && Pow2(k) - 1 <= s < Pow2(k + 1) - 1
    ensures s > 0 && LargestTree(s) == Pow2(k) - 1
  {
    if s == Pow2(k) - 1 {
      BitLengthUnique(s, k - 1);
    } else {
      BitLengthUnique(s, k);
    }
  }

  lemma OnePeak(base: nat, s: nat)
    requires s > 0 && LargestTree(s) == s
    ensures PeaksFrom(base, s) == [base + s - 1]
  {
    PeaksFromStep(base, s, s, 0);
  }

  lemma TwoPeaks(s: nat, t: nat, base: nat)
    requires t > 0 && s == t + t && LargestTree(s) == t && LargestTree(t) == t
    ensures PeaksFrom(base, s) == [base + t - 1, base + s - 1]
  {
    OnePeak(base + t, t);
    var tail := PeaksFrom(base + t, t);
    PeaksFromStep(base, s, t, t);
    assert PeaksFrom(base, s) == [base + t - 1] + tail;
  }

  /** Bagging the two trees is the hash of the missing root. */
  lemma RootlessBags(H: HashFn, h: nat, size: nat, e: nat, top: Bytes, rest: seq<Bytes>)
    requires h > 0 && size == TreeSize(h) - 1 && Family(e).0 == size
    ensures e in Peaks(size)
    ensures |rest| != 1 ==> BagsTo(H, size, e, top, rest) == None
    ensures |rest| == 1 ==>
              && BagsTo(H, size, e, top, rest) == Some(H(size, Combined(e, top, rest[0])))
              && BagsToInputs(H, size, e, top, rest) == {(size, Combined(e, top, rest[0]))}
  {
    var l, r := TreeSize(h - 1) - 1, size - 1;
    RootlessSides(h, size, l, r, e);
    TwoPeakBags(H, size, l, r, e, top, rest);
    if |rest| == 1 { CombinedSides(e, top, rest[0]); }
  }

  lemma RootlessSides(h: nat, size: nat, l: nat, r: nat, e: nat)
    requires h > 0 && size == TreeSize(h) - 1 && l == TreeSize(h - 1) - 1 && r == size - 1 && Family(e).0 == size
    ensures Peaks(size) == [l, r] && l != r && (e == l || e == r)
    ensures IsLeftSibling(e) <==> e == l
  {
    RootlessTree(h, size);
    TopsOnly(h, size, l, r, e);
  }

  lemma TopsOnly(h: nat, size: nat, l: nat, r: nat, e: nat)
    requires h > 0 && size == TreeSize(h) - 1 && l == TreeSize(h - 1) - 1 && r == size - 1 && Family(e).0 == size
    ensures e == l || e == r
  {
    FamilyMeaning(e);
    HeightOfRoot(h);
  }

  /** Bagging over two peaks. */
  lemma TwoPeakBags(H: HashFn, size: nat, l: nat, r: nat, e: nat, top: Bytes, rest: seq<Bytes>)
    requires Peaks(size) == [l, r] && l != r && (e == l || e == r)
    ensures |rest| != 1 ==> BagsTo(H, size, e, top, rest) == None
    ensures |rest| == 1 ==>
              var c := if e == l then top + rest[0] else rest[0] + top;
              BagsTo(H, size, e, top, rest) == Some(H(size, c)) && BagsToInputs(H, size, e, top, rest) == {(size, c)}
  {
    if |rest| == 1 && e == r {
      assert rest[..1] == rest;
      BagOne(H, size, rest, top);
    } else if |rest| == 1 {
      assert rest[..0] == [];
    }
  }

  lemma BagOne(H: HashFn, size: nat, left: seq<Bytes>, acc: Bytes)
    requires |left| == 1
    ensures BagLeft(H, size, left, acc) == H(size, left[0] + acc)
    ensures BagLeftInputs(H, size, left, acc) == {(size, left[0] + acc)}
  {
    assert left[1..] == [];
  }

  /** Bagging over a single peak leaves the hash as it is. */
  lemma SolePeakBags(H: HashFn, size: nat, peak: nat, e: nat, top: Bytes, rest: seq<Bytes>)
    requires Peaks(size) == [peak]
    ensures BagsTo(H, size, e, top, rest) == if e == peak && rest == [] then Some(top) else None
    ensures e == peak && rest == [] ==> BagsToInputs(H, size, e, top, rest) == {}
  {
    if e == peak { assert IndexOf(Peaks(size), peak) == 0; }
  }

  lemma TreeIsValidSize(h: nat)
    ensures InsertionToPmmrIndex(Pow2(h)) == TreeSize(h)
  {
    LeafPosSplit(h, 0);
  }

  lemma TopReached(h: nat, size: nat, pos: nat)
    requires h > 0 && size == TreeSize(h) - 1 && pos < size
    ensures BranchEnd(pos, size + 1) == size
  {
    TreeIsValidSize(h);
    TreePeaks(h, size);
    BranchEndsAtPeak(Pow2(h), pos);
  }

  lemma EndsAtTop(h: nat, size: nat, pos: nat)
    requires h > 0 && size == TreeSize(h) - 1 && pos < size
    ensures Family(BranchEnd(pos, size)).0 == size
  {
    TopReached(h, size, pos);
    BranchOneMore(pos, size);
  }

  lemma RootlessStep(H: HashFn, h: nat, size: nat, path: seq<Bytes>, hash: Bytes, pos: nat,
                     branch: seq<(nat, nat)>, e: nat, siblings: seq<Bytes>, rest: seq<Bytes>)
    requires h > 0 && size == TreeSize(h) - 1 && pos < size
    requires branch == FamilyBranch(pos, size) && e == BranchEnd(pos, size) && Family(e).0 == size
    requires path == siblings + rest && |siblings| == |branch|
    ensures var top := Climb(H, pos, hash, branch, siblings);
            var all := FamilyBranch(pos, size + 1);
            && |all| == |branch| + 1 && BranchEnd(pos, size + 1) == size
            && (|rest| == 1 ==>
                  && Climb(H, pos, hash, all, path) == H(size, Combined(e, top, rest[0]))
                  && ClimbInputs(H, pos, hash, all, path) ==
                     ClimbInputs(H, pos, hash, branch, siblings) + {(size, Combined(e, top, rest[0]))})
  {
    BranchOneMore(pos, size);
    if |rest| == 1 {
      assert path == siblings + [rest[0]];
      ClimbOneMore(H, pos, hash, branch, siblings, Family(e), rest[0]);
    }
  }

  /** What acceptance comes down to when there are peaks and the path is long enough. */
  lemma AcceptsWhen(H: HashFn, size: nat, hash: Bytes, pos: nat, siblings: seq<Bytes>, rest: seq<Bytes>, root: Bytes)
    requires Peaks(size) != [] && |siblings| == |FamilyBranch(pos, size)|
    ensures var e, top := BranchEnd(pos, size), Climb(H, pos, hash, FamilyBranch(pos, size), siblings);
            && (Accepts(H, MerkleProof(size, siblings + rest), hash, pos, root) <==> BagsTo(H, size, e, top, rest) == Some(root))
            && VerifyInputs(H, MerkleProof(size, siblings + rest), hash, pos) ==
               ClimbInputs(H, pos, hash, FamilyBranch(pos, size), siblings) + BagsToInputs(H, size, e, top, rest)
  {
    assert (siblings + rest)[..|siblings|] == siblings && (siblings + rest)[|siblings|..] == rest;
  }

  lemma AcceptsLong(H: HashFn, size: nat, path: seq<Bytes>, hash: Bytes, pos: nat, root: Bytes)
    requires Peaks(size) != [] && Accepts(H, MerkleProof(size, path), hash, pos, root)
    ensures |path| >= |FamilyBranch(pos, size)| && BranchEnd(pos, size) in Peaks(size)
  {
  }

  /** The whole tree's proof has one sibling per level and nothing after. */
  lemma TreeAcceptsLength(H: HashFn, size: nat, path: seq<Bytes>, hash: Bytes, pos: nat, root: Bytes)
    requires Peaks(size + 1) == [size] && Accepts(H, MerkleProof(size + 1, path), hash, pos, root)
    ensures |path| == |FamilyBranch(pos, size + 1)|
  {
    var siblings, rest, climbed, bagged := AcceptedParts(H, size + 1, path, hash, pos, root);
    SolePeakBags(H, size + 1, size, BranchEnd(pos, size + 1), Climb(H, pos, hash, FamilyBranch(pos, size + 1), siblings), rest);
  }

  lemma RootlessAcceptsLength(H: HashFn, h: nat, size: nat, path: seq<Bytes>, hash: Bytes, pos: nat, root: Bytes)
    requires h > 0 && size == TreeSize(h) - 1 && pos < size && Accepts(H, MerkleProof(size, path), hash, pos, root)
    ensures |path| == |FamilyBranch(pos, size)| + 1
  {
    RootlessTree(h, size);
    EndsAtTop(h, size, pos);
    var siblings, rest, climbed, bagged := AcceptedParts(H, size, path, hash, pos, root);
    RootlessBags(H, h, size, BranchEnd(pos, size), Climb(H, pos, hash, FamilyBranch(pos, size), siblings), rest);
  }

  /** What the two trees' verifier makes of a path of the right length: the hash of the missing root. */
  lemma RootlessVerdict(H: HashFn, h: nat, size: nat, siblings: seq<Bytes>, e: Bytes, hash: Bytes, pos: nat, root: Bytes, c: Bytes)
    requires h > 0 && size == TreeSize(h) - 1 && pos < size && |siblings| == |FamilyBranch(pos, size)|
    requires c == Combined(BranchEnd(pos, size), Climb(H, pos, hash, FamilyBranch(pos, size), siblings), e)
    ensures Accepts(H, MerkleProof(size, siblings + [e]), hash, pos, root) <==> H(size, c) == root
    ensures VerifyInputs(H, MerkleProof(size, siblings + [e]), hash, pos) ==
            ClimbInputs(H, pos, hash, FamilyBranch(pos, size), siblings) + {(size, c)}
  {
    RootlessTree(h, size);
    EndsAtTop(h, size, pos);
    RootlessBags(H, h, size, BranchEnd(pos, size), Climb(H, pos, hash, FamilyBranch(pos, size), siblings), [e]);
    AcceptsWhen(H, size, hash, pos, siblings, [e], root);
  }

  /** The whole tree's verifier makes the same of it. */
  lemma TreeVerdict(H: HashFn, h: nat, size: nat, siblings: seq<Bytes>, e: Bytes, hash: Bytes, pos: nat, root: Bytes, c: Bytes)
    requires h > 0 && size == TreeSize(h) - 1 && pos < size && |siblings| == |FamilyBranch(pos, size)|
    requires c == Combined(BranchEnd(pos, size), Climb(H, pos, hash, FamilyBranch(pos, size), siblings), e)
    ensures Accepts(H, MerkleProof(size + 1, siblings + [e]), hash, pos, root) <==> H(size, c) == root
    ensures VerifyInputs(H, MerkleProof(size + 1, siblings + [e]), hash, pos) ==
            ClimbInputs(H, pos, hash, FamilyBranch(pos, size), siblings) + {(size, c)}
  {
    var path := siblings + [e];
    TreePeaks(h, size);
    EndsAtTop(h, size, pos);
    RootlessStep(H, h, size, path, hash, pos, FamilyBranch(pos, size), BranchEnd(pos, size), siblings, [e]);
    TreeBags(H, size, path, hash, pos, root);
  }

  lemma TreeBags(H: HashFn, size: nat, path: seq<Bytes>, hash: Bytes, pos: nat, root: Bytes)
    requires Peaks(size + 1) == [size] && BranchEnd(pos, size + 1) == size && |path| == |FamilyBranch(pos, size + 1)|
    ensures Accepts(H, MerkleProof(size + 1, path), hash, pos, root) <==>
            Climb(H, pos, hash, FamilyBranch(pos, size + 1), path) == root
    ensures VerifyInputs(H, MerkleProof(size + 1, path), hash, pos) ==
            ClimbInputs(H, pos, hash, FamilyBranch(pos, size + 1), path)
  {
    assert path + [] == path;
    AcceptsWhen(H, size + 1, hash, pos, path, [], root);
    SolePeakBags(H, size + 1, size, size, Climb(H, pos, hash, FamilyBranch(pos, size + 1), path), []);
  }

  /**
    A proof for the two trees is a proof for the whole tree: the hash of the last sibling on the branch
    stands where the other peak's hash is expected.
  */
  lemma RootlessAccepts(H: HashFn, h: nat, size: nat, path: seq<Bytes>, hash: Bytes, pos: nat, root: Bytes)
    requires h > 0 && size == TreeSize(h) - 1
    ensures Accepts(H, MerkleProof(size, path), hash, pos, root) <==>
            pos < size && Accepts(H, MerkleProof(size + 1, path), hash, pos, root)
    ensures Accepts(H, MerkleProof(size, path), hash, pos, root) ==>
              VerifyInputs(H, MerkleProof(size, path), hash, pos) == VerifyInputs(H, MerkleProof(size + 1, path), hash, pos)
  {
    RootlessTree(h, size);
    if pos >= size {
      PeaksInRange(size);
      if Accepts(H, MerkleProof(size, path), hash, pos, root) { AcceptsLong(H, size, path, hash, pos, root); }
    } else {
      var n := |FamilyBranch(pos, size)|;
      BranchOneMore(pos, size);
      EndsAtTop(h, size, pos);
      if |path| == n + 1 {
        var siblings := path[..n];
        var c := Combined(BranchEnd(pos, size), Climb(H, pos, hash, FamilyBranch(pos, size), siblings), path[n]);
        assert path == siblings + [path[n]];
        RootlessVerdict(H, h, size, siblings, path[n], hash, pos, root, c);
        TreeVerdict(H, h, size, siblings, path[n], hash, pos, root, c);
      } else {
        if Accepts(H, MerkleProof(size, path), hash, pos, root) { RootlessAcceptsLength(H, h, size, path, hash, pos, root); }
        if Accepts(H, MerkleProof(size + 1, path), hash, pos, root) { TreeAcceptsLength(H, size, path, hash, pos, root); }
      }
    }
  }

  // ---------------------------------------------------------------- the last input hashed

  lemma {:induction false} LastOfClimb(H: HashFn, pos: nat, hash: Bytes, branch: seq<(nat, nat)>, path: seq<Bytes>) returns (x: Input)
    requires |path| == |branch| > 0
    ensures x in ClimbInputs(H, pos, hash, branch, path)
    ensures x.0 == branch[|branch| - 1].0 && H(x.0, x.1) == Climb(H, pos, hash, branch, path)
    decreases |branch|
  {
    var parent, c := branch[0].0, Combined(pos, hash, path[0]);
    if |branch| == 1 {
      assert branch[1..] == [] && path[1..] == [];
      x := (parent, c);
    } else {
      x := LastOfClimb(H, parent, H(parent, c), branch[1..], path[1..]);
    }
  }

  lemma LastOfBagging(H: HashFn, size: nat, e: nat, top: Bytes, rest: seq<Bytes>, root: Bytes) returns (x: Input)
    requires |Peaks(size)| > 1 && BagsTo(H, size, e, top, rest) == Some(root)
    ensures x in BagsToInputs(H, size, e, top, rest)
    ensures x.0 == size && H(x.0, x.1) == root
  {
    var all := Peaks(size);
    var idx := IndexOf(all, e);
    var left := rest[..idx];
    var acc := if idx < |all| - 1 then H(size, top + rest[idx]) else top;
    if idx == 0 {
      x := (size, top + rest[idx]);
    } else {
      assert |rest| == idx ==> left == rest;
      x := (size, left[0] + BagLeft(H, size, left[1..], acc));
    }
  }

  /** An accepted proof hashed last a bagging step or the sole peak, or hashed nothing at all. */
  lemma LastOfVerify(H: HashFn, size: nat, path: seq<Bytes>, hash: Bytes, pos: nat, root: Bytes) returns (x: Input)
    requires Peaks(size) != [] && Accepts(H, MerkleProof(size, path), hash, pos, root)
    ensures || (path == [] && Peaks(size) == [pos] && hash == root)
            || (&& x in VerifyInputs(H, MerkleProof(size, path), hash, pos) && H(x.0, x.1) == root
                && x.0 == if |Peaks(size)| > 1 then size else Peaks(size)[0])
  {
    var siblings, rest, climbed, bagged := AcceptedParts(H, size, path, hash, pos, root);
    var branch, e := FamilyBranch(pos, size), BranchEnd(pos, size);
    var top := Climb(H, pos, hash, branch, siblings);
    if |Peaks(size)| > 1 {
      x := LastOfBagging(H, size, e, top, rest, root);
    } else {
      SolePeakBags(H, size, Peaks(size)[0], e, top, rest);
      if branch == [] {
        x := (0, []);
      } else {
        x := LastOfClimb(H, pos, hash, branch, siblings);
      }
    }
  }

  // ---------------------------------------------------------------- every claimed size

  /** A single peak closes a full tree, mid-merge sizes included. */
  lemma SolePeak(size: nat) returns (k: nat)
    requires |Peaks(size)| == 1
    ensures size == Pow2(k) - 1 && k > 0 && Peaks(size) == [size - 1]
  {
    var t := LargestTree(size);
    PeaksFromStep(0, size, t, size - t);
    BitLengthBounds(size);
    assert size == t;
    k := BitLength(size);
  }

  /**
    Sizes a proof can claim and still be checked as the genuine one: the PMMR's own, and for a single tree of
    two leaves or more also the size one short of it, where the root's two children stand as peaks.
  */
  predicate Imitates(size: nat, n: nat) {
    size == MmrSize(n) || (size > 0 && size + 1 == MmrSize(n) && |Peaks(MmrSize(n))| == 1)
  }

  /** What the proof states is so: the hash is the one stored at a position in range, the path the prover's. */
  ghost predicate Genuine(H: HashFn, leaves: seq<Bytes>, size: nat, path: seq<Bytes>, hash: Bytes, pos: nat) {
    && Imitates(size, |leaves|) && pos < size && pos < MmrSize(|leaves|) && hash == NodeHash(H, leaves, pos)
    && path == ProofFor(H, NodeHashes(H, leaves), pos).path
  }

  /** Nothing is hashed: the root itself is offered, for size 0 or as the sole peak of a full tree. */
  predicate Bare(size: nat, path: seq<Bytes>, hash: Bytes, pos: nat, root: Bytes) {
    hash == root && (size == 0 || (path == [] && Peaks(size) == [pos]))
  }

  /** Only those sizes let a proof hash last what the genuine root hashes last. */
  lemma SameLastIndex(size: nat, n: nat, i: nat)
    requires n > 0 && Peaks(size) != []
    requires i == if |Peaks(size)| > 1 then size else Peaks(size)[0]
    requires i == MmrSize(n) || (i == MmrSize(n) - 1 && |Peaks(MmrSize(n))| == 1)
    ensures Imitates(size, n)
  {
    if |Peaks(size)| == 1 {
      var k := SolePeak(size);
      NoSizeBeforePeak(n, k);
      LeafPosGrows(0, n);
      assert Pow2(1) == 2;
    }
  }

  lemma ImitatedTree(size: nat, n: nat) returns (h: nat)
    requires Imitates(size, n) && size != MmrSize(n)
    ensures h > 0 && size == TreeSize(h) - 1
  {
    var k := SolePeak(size + 1);
    h := k - 1;
    assert Pow2(1) == 2;
  }

  lemma GenuineAccepted(H: HashFn, leaves: seq<Bytes>, size: nat, path: seq<Bytes>, hash: Bytes, pos: nat)
    requires Genuine(H, leaves, size, path, hash, pos)
    ensures Accepts(H, MerkleProof(size, path), hash, pos, Root(H, leaves))
  {
    Completeness(H, leaves, pos);
    if size != MmrSize(|leaves|) {
      var h := ImitatedTree(size, |leaves|);
      RootlessAccepts(H, h, size, path, hash, pos, Root(H, leaves));
    }
  }

  lemma BareAccepted(H: HashFn, size: nat, path: seq<Bytes>, hash: Bytes, pos: nat, root: Bytes)
    requires Bare(size, path, hash, pos, root)
    ensures Accepts(H, MerkleProof(size, path), hash, pos, root)
  {
    if size == 0 {
      assert FamilyBranch(pos, 0) == [];
    } else {
      var k := SolePeak(size);
      assert FamilyBranch(pos, size) == [];
      SolePeakBags(H, size, pos, pos, hash, []);
    }
  }

  /** Acceptance against the genuine root with one of the sizes that imitate it. */
  lemma ImitationSound(H: HashFn, leaves: seq<Bytes>, size: nat, path: seq<Bytes>, hash: Bytes, pos: nat)
    requires leaves != [] && AllDigests(path) && Imitates(size, |leaves|)
    requires Accepts(H, MerkleProof(size, path), hash, pos, Root(H, leaves))
    ensures || Collide(H, VerifyInputs(H, MerkleProof(size, path), hash, pos), RootInputs(H, leaves))
            || Genuine(H, leaves, size, path, hash, pos)
  {
    if size != MmrSize(|leaves|) {
      var h := ImitatedTree(size, |leaves|);
      RootlessAccepts(H, h, size, path, hash, pos, Root(H, leaves));
    }
    Soundness(H, leaves, path, hash, pos);
  }

  lemma AcceptedIsImitation(H: HashFn, leaves: seq<Bytes>, size: nat, path: seq<Bytes>, hash: Bytes, pos: nat)
    requires leaves != [] && Peaks(size) != []
    requires Accepts(H, MerkleProof(size, path), hash, pos, Root(H, leaves))
    ensures || Collide(H, VerifyInputs(H, MerkleProof(size, path), hash, pos), RootInputs(H, leaves))
            || Bare(size, path, hash, pos, Root(H, leaves))
            || Imitates(size, |leaves|)
  {
    var X, Y := VerifyInputs(H, MerkleProof(size, path), hash, pos), RootInputs(H, leaves);
    var x := LastOfVerify(H, size, path, hash, pos, Root(H, leaves));
    if !Collide(H, X, Y) && !Bare(size, path, hash, pos, Root(H, leaves)) {
      var y := LastInput(H, leaves);
      SameInput(H, X, Y, x, y);
      SameLastIndex(size, |leaves|, x.0);
    }
  }

  /**
    Soundness for every size a proof may claim. Against the genuine root of a nonempty range, a proof of whole
    hashes is accepted exactly when it is the prover's own, under the PMMR's size or the one size that imitates it,
    or when nothing is hashed and the root is offered as its own proof; unless two inputs hashed on the two sides collide.
  */
  lemma AcceptsExact(H: HashFn, leaves: seq<Bytes>, size: nat, path: seq<Bytes>, hash: Bytes, pos: nat)
    requires leaves != [] && AllDigests(path)
    ensures || Collide(H, VerifyInputs(H, MerkleProof(size, path), hash, pos), RootInputs(H, leaves))
            || (Accepts(H, MerkleProof(size, path), hash, pos, Root(H, leaves)) <==>
                Genuine(H, leaves, size, path, hash, pos) || Bare(size, path, hash, pos, Root(H, leaves)))
  {
    var root := Root(H, leaves);
    if Genuine(H, leaves, size, path, hash, pos) {
      GenuineAccepted(H, leaves, size, path, hash, pos);
    } else if Bare(size, path, hash, pos, root) {
      BareAccepted(H, size, path, hash, pos, root);
    } else if Accepts(H, MerkleProof(size, path), hash, pos, root) {
      if size > 0 {
        AcceptedIsImitation(H, leaves, size, path, hash, pos);
        if Imitates(size, |leaves|) { ImitationSound(H, leaves, size, path, hash, pos); }
      }
    }
  }
}
