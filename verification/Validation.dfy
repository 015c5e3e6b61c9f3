/** What validate of mimblewimble/mmr/pmmr.py finds out about a hash store, whatever it holds. */
module Validation {
  import opened Bits
  import opened PostOrder
  import opened MmrIndex
  import opened Hashing
  import opened MerkleProofs
  import opened PmmrState
  import opened Pushes

  /** An internal entry that is not the hash of its two children is found, unless one of these is zero. */
  lemma WrongNodeFound(H: HashFn, hashes: seq<Digest>, p: nat, l: nat, left: Bytes, right: Bytes)
    requires p < |hashes| && Height(p) > 0 && p > 0 && p == l + Pow2(Height(p))
    requires left == hashes[l] && right == hashes[p - 1] && left != ZERO && right != ZERO
    requires hashes[p] != H(p, left + right)
    ensures !Validates(H, hashes)
  {
    assert !NodeChecks(H, hashes, p);
  }

  /** Nothing else is: validate passes if every internal entry is the hash of its children or has a zero child. */
  lemma NothingElseFound(H: HashFn, hashes: seq<Digest>)
    requires forall p :: 0 <= p < |hashes| && Height(p) > 0 ==> Sound(H, hashes, p)
    ensures Validates(H, hashes)
  {
    forall p | 0 <= p < |hashes| ensures NodeChecks(H, hashes, p) {
      if Height(p) > 0 {
        Children(p);
        assert Sound(H, hashes, p);
      }
    }
  }

  /** The entry at `p` is the hash of those of its children, or one of these is zero. */
  ghost predicate Sound(H: HashFn, hashes: seq<Digest>, p: nat)
    requires p < |hashes| && Height(p) > 0
  {
    Children(p);
    var left: Bytes, right: Bytes := hashes[p - Pow2(Height(p))], hashes[p - 1];
    left == ZERO || right == ZERO || hashes[p] == H(p, left + right)
  }

  /** The entries at leaf positions are the hashes of the leaves. */
  ghost predicate LeafEntries(H: HashFn, hashes: seq<Digest>, leaves: seq<Bytes>)
    requires |hashes| == MmrSize(|leaves|)
  {
    forall p :: 0 <= p < |hashes| && Height(p) == 0 ==> LeafEntry(H, hashes, leaves, p)
  }

  ghost predicate LeafEntry(H: HashFn, hashes: seq<Digest>, leaves: seq<Bytes>, p: nat)
    requires p < |hashes|
  {
    LeafCount(p) < |leaves| && hashes[p] == H(p, leaves[LeafCount(p)])
  }

  lemma {:induction false} ValidIsGenuine(H: HashFn, hashes: seq<Digest>, leaves: seq<Bytes>, p: nat)
    requires |hashes| == MmrSize(|leaves|) && LeafEntries(H, hashes, leaves)
    requires ZERO !in hashes && Validates(H, hashes) && p < |hashes|
    ensures hashes[p] == NodeHash(H, leaves, p)
    decreases p
  {
    if Height(p) == 0 {
      assert LeafEntry(H, hashes, leaves, p);
    } else {
      Children(p);
      var l := p - Pow2(Height(p));
      ValidIsGenuine(H, hashes, leaves, l);
      ValidIsGenuine(H, hashes, leaves, p - 1);
      InternalInput(H, leaves, p, l);
      assert NodeChecks(H, hashes, p);
    }
  }

  /**
    On any store of valid size without zero entries whose leaf entries are right, validate passes if and only if
    every entry is the tree hash of the leaves.
  */
  lemma ValidateMeaning(H: HashFn, hashes: seq<Digest>, leaves: seq<Bytes>)
    requires |hashes| == MmrSize(|leaves|) && LeafEntries(H, hashes, leaves) && ZERO !in hashes
    ensures Validates(H, hashes) <==> hashes == NodeHashes(H, leaves)
  {
    if Validates(H, hashes) {
      forall p | 0 <= p < |hashes| ensures hashes[p] == NodeHashes(H, leaves)[p] {
        ValidIsGenuine(H, hashes, leaves, p);
      }
    }
    PushesValidate(H, leaves);
  }

  // ---------------------------------------------------------------- one damaged record

  /** A damaged internal record fails its own check, its children being genuine. */
  lemma DamagedNode(H: HashFn, leaves: seq<Bytes>, q: nat, bad: Digest)
    requires q < MmrSize(|leaves|) && Height(q) > 0 && bad != NodeHash(H, leaves, q)
    ensures !Validates(H, NodeHashes(H, leaves)[q := bad]) || HitsZero(H, NodeInputs(H, leaves))
  {
    if !HitsZero(H, NodeInputs(H, leaves)) {
      Children(q);
      var l := q - Pow2(Height(q));
      var hashes := NodeHashes(H, leaves)[q := bad];
      NodeNotZero(H, leaves, l);
      NodeNotZero(H, leaves, q - 1);
      InternalInput(H, leaves, q, l);
      WrongNodeFound(H, hashes, q, l, hashes[l], hashes[q - 1]);
    }
  }

  lemma NodeNotZero(H: HashFn, leaves: seq<Bytes>, p: nat)
    requires p < MmrSize(|leaves|) && !HitsZero(H, NodeInputs(H, leaves))
    ensures NodeHash(H, leaves, p) != ZERO
  {
    assert NodeInput(H, leaves, p) in NodeInputs(H, leaves);
  }

  /** A damaged leaf record fails its parent's check, unless it is zero or the parent's hash collides. */
  lemma DamagedLeaf(H: HashFn, leaves: seq<Bytes>, q: nat, bad: Digest, parent: nat, sibling: nat)
    requires q < MmrSize(|leaves|) && Height(q) == 0 && bad != NodeHash(H, leaves, q) && bad != ZERO
    requires (parent, sibling) == Family(q) && parent < MmrSize(|leaves|)
    ensures sibling < MmrSize(|leaves|)
    ensures || !Validates(H, NodeHashes(H, leaves)[q := bad])
            || HitsZero(H, NodeInputs(H, leaves))
            || (var damaged := (parent, Combined(q, bad, NodeHash(H, leaves, sibling)));
                damaged != NodeInput(H, leaves, parent) && H(damaged.0, damaged.1) == NodeHash(H, leaves, parent))
  {
    ParentInput(H, leaves, q, parent, sibling);
    FamilyOrder(q, parent, sibling);
    if !HitsZero(H, NodeInputs(H, leaves)) {
      var hashes := NodeHashes(H, leaves)[q := bad];
      var c := Combined(q, bad, NodeHash(H, leaves, sibling));
      NodeNotZero(H, leaves, sibling);
      CombinedSides(q, bad, NodeHash(H, leaves, sibling));
      if c == Combined(q, NodeHash(H, leaves, q), NodeHash(H, leaves, sibling)) {
        SiblingPinned(q, bad, NodeHash(H, leaves, sibling), NodeHash(H, leaves, q), NodeHash(H, leaves, sibling));
      } else if H(parent, c) != NodeHash(H, leaves, parent) {
        if IsLeftSibling(q) {
          WrongNodeFound(H, hashes, parent, q, hashes[q], hashes[sibling]);
        } else {
          WrongNodeFound(H, hashes, parent, sibling, hashes[sibling], hashes[q]);
        }
      }
    }
  }

  /** A leaf record no check reads with both children nonzero can hold anything: a leaf without a parent, or a zeroed one. */
  lemma UnreadLeaf(H: HashFn, leaves: seq<Bytes>, q: nat, bad: Digest)
    requires q < MmrSize(|leaves|) && Height(q) == 0
    requires bad == ZERO || Family(q).0 >= MmrSize(|leaves|)
    ensures Validates(H, NodeHashes(H, leaves)[q := bad])
  {
    var genuine, hashes := NodeHashes(H, leaves), NodeHashes(H, leaves)[q := bad];
    PushesValidate(H, leaves);
    forall p | 0 <= p < |hashes| && Height(p) > 0 ensures Sound(H, hashes, p) {
      Children(p);
      assert NodeChecks(H, genuine, p);
      if q == p - 1 || q == p - Pow2(Height(p)) { ParentOf(p, q); }
    }
    NothingElseFound(H, hashes);
  }

  lemma ParentOf(p: nat, q: nat)
    requires Height(p) > 0 && p > 0 && (q == p - 1 || q + Pow2(Height(p)) == p)
    ensures Family(q).0 == p
  {
    var h := Height(p);
    Children(p);
    FirstIsLeaf(p - 1, h - 1);
    SiblingPair(p - Pow2(h), p - 1, h - 1);
  }

  /**
    Which single damaged record of a PMMR that was only pushed to is found: every internal one, and every leaf one
    that is not zeroed and has a parent; unless some node hashes to zeros or the damaged parent's hash collides.
  */
  lemma DamageExact(H: HashFn, leaves: seq<Bytes>, q: nat, bad: Digest)
    requires q < MmrSize(|leaves|) && bad != NodeHash(H, leaves, q)
    ensures var (parent, sibling) := Family(q);
            || (Validates(H, NodeHashes(H, leaves)[q := bad]) <==>
                Height(q) == 0 && (bad == ZERO || parent >= MmrSize(|leaves|)))
            || HitsZero(H, NodeInputs(H, leaves))
            || (&& parent < MmrSize(|leaves|) && sibling < MmrSize(|leaves|)
                && var damaged := (parent, Combined(q, bad, NodeHash(H, leaves, sibling)));
                   damaged != NodeInput(H, leaves, parent) && H(damaged.0, damaged.1) == NodeHash(H, leaves, parent))
  {
    var (parent, sibling) := Family(q);
    if Height(q) > 0 {
      DamagedNode(H, leaves, q, bad);
    } else if bad == ZERO || parent >= MmrSize(|leaves|) {
      UnreadLeaf(H, leaves, q, bad);
    } else {
      DamagedLeaf(H, leaves, q, bad, parent, sibling);
    }
  }
}
