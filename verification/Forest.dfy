/**
  What a run of pushes, prunes and rewinds amounts to: the leaves, which of them are pruned, and
  which parents were formed over a left child that had already been overwritten with zeros.
  Every stored hash follows from these three.
*/
module Forests {
  import opened Bits
  import opened PostOrder
  import opened MmrIndex
  import opened Hashing
  import opened PmmrState

  datatype Forest = Forest(leaves: seq<Bytes>, pruned: set<nat>, blind: set<nat>)

  // ---------------------------------------------------------------- who covers what

  /** Every leaf under `p` is pruned. */
  ghost predicate FullyPruned(pruned: set<nat>, p: nat) {
    forall i :: Covers(p, i) ==> i in pruned
  }

  lemma {:induction false} SubtreePrunedMeaning(pruned: set<nat>, p: nat)
    ensures SubtreePruned(pruned, p) <==> FullyPruned(pruned, p)
    decreases p
  {
    if Height(p) == 0 {
      LeafCovers(p, LeafCount(p));
      forall i | Covers(p, i) ensures i == LeafCount(p) { LeafCovers(p, i); }
    } else {
      Children(p);
      var l := p - Pow2(Height(p));
      SubtreePrunedMeaning(pruned, l);
      SubtreePrunedMeaning(pruned, p - 1);
      PrunedChildren(pruned, p, l);
    }
  }

  lemma PrunedChildren(pruned: set<nat>, p: nat, l: nat)
    requires Height(p) > 0 && p > 0 && p == l + Pow2(Height(p))
    ensures FullyPruned(pruned, p) <==> FullyPruned(pruned, l) && FullyPruned(pruned, p - 1)
  {
    forall i: nat ensures Covers(p, i) <==> Covers(l, i) || Covers(p - 1, i) {
      CoversChild(p, Height(p), i);
    }
  }

  /** The leaves under a parent are those under a node and those under its sibling. */
  lemma ParentCovers(c: nat, i: nat)
    ensures var (parent, sibling) := Family(c); Covers(parent, i) <==> Covers(c, i) || Covers(sibling, i)
  {
    FamilyMeaning(c);
    CoversChild(Family(c).0, Height(Family(c).0), i);
  }

  /** Both children of a node name it as their parent. */
  lemma ParentOfChildren(p: nat, l: nat)
    requires Height(p) > 0 && p > 0 && p == l + Pow2(Height(p))
    ensures Family(p - 1) == (p, l) && Family(l) == (p, p - 1)
  {
    Children(p);
    RightFamily(p - 1, Height(p) - 1);
    FamilyMeaning(p - 1);
  }

  /** The child of `p` that covers leaf `i`. */
  lemma CoveringChild(p: nat, i: nat) returns (c: nat)
    requires Height(p) > 0 && Covers(p, i)
    ensures c < p && Covers(c, i) && Height(c) == Height(p) - 1 && Family(c).0 == p
  {
    var h := Height(p);
    Children(p);
    CoversChild(p, h, i);
    ParentOfChildren(p, p - Pow2(h));
    c := if Covers(p - 1, i) then p - 1 else p - Pow2(h);
  }

  lemma {:induction false} CoverUnique(p: nat, q: nat, i: nat)
    requires Covers(p, i) && Covers(q, i) && Height(p) == Height(q)
    ensures p == q
    decreases p
  {
    if Height(p) == 0 {
      LeafCovers(p, i);
      LeafCovers(q, i);
      LeafPosUnique(p);
      LeafPosUnique(q);
    } else {
      var c := CoveringChild(p, i);
      var d := CoveringChild(q, i);
      CoverUnique(c, d, i);
    }
  }

  /** Nodes over one leaf are nested: the higher one lies further right and covers all the lower one does. */
  lemma {:induction false} CoverNested(c: nat, p: nat, i: nat, j: nat)
    requires Covers(c, i) && Covers(p, i) && Height(c) <= Height(p)
    ensures c <= p && (c == p || Family(c).0 <= p)
    ensures Covers(c, j) ==> Covers(p, j)
    decreases p
  {
    if Height(c) == Height(p) {
      CoverUnique(c, p, i);
    } else {
      var d := CoveringChild(p, i);
      CoverNested(c, d, i, j);
      ParentCovers(d, j);
    }
  }

  /** Compaction overwrites exactly the ancestors whose leaves are all pruned. */
  lemma {:induction false} CompactMeaning(hashes: seq<Digest>, pruned: set<nat>, c: nat, i: nat, p: nat)
    requires Covers(c, i) && FullyPruned(pruned, c) && p < |hashes|
    ensures CompactAncestors(hashes, pruned, c)[p] ==
            if Covers(p, i) && Height(p) > Height(c) && FullyPruned(pruned, p) then ZERO else hashes[p]
    decreases |hashes| - c
  {
    var (parent, sibling) := Family(c);
    FamilyMeaning(c);
    SubtreePrunedMeaning(pruned, sibling);
    ParentCovers(c, i);
    if Covers(p, i) && Height(p) > Height(c) {
      CoverNested(parent, p, i, i);
    }
    if parent < |hashes| {
      if FullyPruned(pruned, sibling) {
        ParentPruned(pruned, c);
        CompactMeaning(hashes[parent := ZERO], pruned, parent, i, p);
        if Covers(p, i) && Height(p) == Height(parent) { CoverUnique(p, parent, i); }
      } else if Covers(p, i) && Height(p) > Height(c) {
        PrunedBelow(pruned, parent, p, i);
        ParentPruned(pruned, c);
      }
    }
  }

  /** An internal node that the change of the prune set leaves without an unpruned leaf. */
  ghost predicate NewlyGone(was: set<nat>, pruned: set<nat>, p: nat) {
    Height(p) > 0 && FullyPruned(pruned, p) && !FullyPruned(was, p)
  }

  /** Exactly those nodes are overwritten with zeros. */
  ghost predicate Overwritten(hashes: seq<Digest>, hashes': seq<Digest>, was: set<nat>, pruned: set<nat>) {
    |hashes'| == |hashes| && forall p :: 0 <= p < |hashes| ==> OverwrittenAt(hashes, hashes', was, pruned, p)
  }

  ghost predicate OverwrittenAt(hashes: seq<Digest>, hashes': seq<Digest>, was: set<nat>, pruned: set<nat>, p: nat)
    requires p < |hashes| == |hashes'|
  {
    hashes'[p] == if NewlyGone(was, pruned, p) then ZERO else hashes[p]
  }

  /** One prune, whatever the hash store holds. */
  lemma PruneOverwrites(s: State, pos0: nat)
    requires IsLeaf(pos0)
    ensures Overwritten(s.hashes, Prune(s, pos0).hashes, s.pruned, Prune(s, pos0).pruned)
  {
    var i, s' := LeafCount(pos0), Prune(s, pos0);
    if i !in s.pruned {
      LeafCovers(pos0, i);
      assert FullyPruned(s'.pruned, pos0) by {
        forall j | Covers(pos0, j) ensures j == i { LeafCovers(pos0, j); }
      }
      forall p | 0 <= p < |s.hashes| ensures OverwrittenAt(s.hashes, s'.hashes, s.pruned, s'.pruned, p) {
        CompactMeaning(s.hashes, s'.pruned, pos0, i, p);
        GoneCovers(s.pruned, i, p);
      }
    }
  }

  lemma GoneCovers(was: set<nat>, i: nat, p: nat)
    requires i !in was
    ensures NewlyGone(was, was + {i}, p) <==> Covers(p, i) && Height(p) > 0 && FullyPruned(was + {i}, p)
  {
  }

  /** Two changes one after the other. */
  lemma OverwrittenTwice(a: seq<Digest>, b: seq<Digest>, c: seq<Digest>, A: set<nat>, B: set<nat>, C: set<nat>)
    requires A <= B <= C && Overwritten(a, b, A, B) && Overwritten(b, c, B, C)
    ensures Overwritten(a, c, A, C)
  {
    forall p | 0 <= p < |a| ensures OverwrittenAt(a, c, A, C, p) {
      assert OverwrittenAt(a, b, A, B, p) && OverwrittenAt(b, c, B, C, p);
    }
  }

  lemma ParentPruned(pruned: set<nat>, c: nat)
    ensures var (parent, sibling) := Family(c);
            FullyPruned(pruned, parent) <==> FullyPruned(pruned, c) && FullyPruned(pruned, sibling)
  {
    var (parent, sibling) := Family(c);
    forall i: nat ensures Covers(parent, i) <==> Covers(c, i) || Covers(sibling, i) {
      ParentCovers(c, i);
    }
  }

  lemma PrunedBelow(pruned: set<nat>, c: nat, p: nat, i: nat)
    requires Covers(c, i) && Covers(p, i) && Height(c) <= Height(p)
    ensures FullyPruned(pruned, p) ==> FullyPruned(pruned, c)
  {
    forall j | Covers(c, j) ensures Covers(p, j) { CoverNested(c, p, i, j); }
  }

  // ---------------------------------------------------------------- stored hashes of a forest

  /** The input hashed when the node at `p` was appended; a blind parent saw zeros on its left. */
  function BornInput(H: HashFn, leaves: seq<Bytes>, blind: set<nat>, p: nat): Input
    requires p < MmrSize(|leaves|)
    decreases p, 0
  {
    if Height(p) == 0 then
      LeafInRange(|leaves|, p);
      (p, leaves[LeafCount(p)])
    else
      Children(p);
      var left: Bytes := if p in blind then ZERO else Born(H, leaves, blind, p - Pow2(Height(p)));
      (p, left + Born(H, leaves, blind, p - 1))
  }

  function Born(H: HashFn, leaves: seq<Bytes>, blind: set<nat>, p: nat): Digest
    requires p < MmrSize(|leaves|)
    decreases p, 1
  {
    var x := BornInput(H, leaves, blind, p);
    H(x.0, x.1)
  }

  /** The hash found at `p`: zeros exactly when `p` is internal and all its leaves are pruned. */
  ghost function Stored(H: HashFn, f: Forest, p: nat): Digest
    requires p < MmrSize(|f.leaves|)
  {
    if Height(p) > 0 && FullyPruned(f.pruned, p) then ZERO else Born(H, f.leaves, f.blind, p)
  }

  ghost function StoredUpTo(H: HashFn, f: Forest, q: nat): seq<Digest>
    requires q <= MmrSize(|f.leaves|)
  {
    seq(q, p requires 0 <= p < q => Stored(H, f, p))
  }

  /** The PMMR state a forest stands for. */
  ghost function Abs(H: HashFn, f: Forest): State {
    State(StoredUpTo(H, f, MmrSize(|f.leaves|)), f.leaves, f.pruned)
  }

  ghost predicate WellFormed(f: Forest) {
    && (forall i :: i in f.pruned ==> i < |f.leaves|)
    && (forall p :: p in f.blind ==> p < MmrSize(|f.leaves|) && ZeroedLeft(f.pruned, p))
  }

  /** The left child of `p` is an internal node that has been overwritten. */
  ghost predicate ZeroedLeft(pruned: set<nat>, p: nat) {
    Height(p) > 1 && Pow2(Height(p)) <= p && FullyPruned(pruned, p - Pow2(Height(p)))
  }

  // ---------------------------------------------------------------- push

  ghost function PushForest(f: Forest, leaf: Bytes): Forest {
    var n := |f.leaves|;
    Forest(f.leaves + [leaf], f.pruned,
           f.blind + set p | MmrSize(n) < p < MmrSize(n + 1) && ZeroedLeft(f.pruned, p))
  }

  /** Hashes of old nodes depend neither on later leaves nor on later blind parents. */
  lemma {:induction false} BornStable(H: HashFn, leaves: seq<Bytes>, blind: set<nat>, leaves': seq<Bytes>, blind': set<nat>, p: nat)
    requires p < MmrSize(|leaves|) && p < MmrSize(|leaves'|)
    requires forall i :: 0 <= i < |leaves| && i < |leaves'| ==> leaves[i] == leaves'[i]
    requires forall q :: q <= p ==> (q in blind <==> q in blind')
    ensures Born(H, leaves', blind', p) == Born(H, leaves, blind, p)
    decreases p
  {
    if Height(p) == 0 {
      LeafInRange(|leaves|, p);
      LeafInRange(|leaves'|, p);
    } else {
      Children(p);
      BornStable(H, leaves, blind, leaves', blind', p - Pow2(Height(p)));
      BornStable(H, leaves, blind, leaves', blind', p - 1);
    }
  }

  /** The last leaf numbered up to `q` is under `q`. */
  lemma CoversLast(q: nat)
    ensures LeafCount(q + 1) > 0 && Covers(q, LeafCount(q + 1) - 1)
  {
    LeavesBelow(q, Height(q));
  }

  /** A node whose last leaf is not pruned is not overwritten. */
  lemma NewNodeAlive(H: HashFn, f: Forest, q: nat)
    requires q < MmrSize(|f.leaves|) && LeafCount(q + 1) == |f.leaves|
    requires forall i :: i in f.pruned ==> i < |f.leaves| - 1
    ensures Stored(H, f, q) == Born(H, f.leaves, f.blind, q)
    ensures !FullyPruned(f.pruned, q)
  {
    CoversLast(q);
  }

  /** Between two leaf positions there are only parents, all closing over the first of the two leaves. */
  lemma GroupOfLeaf(n: nat, q: nat)
    requires MmrSize(n) <= q < MmrSize(n + 1)
    ensures LeafCount(q + 1) == n + 1
    ensures Height(q) == 0 <==> q == MmrSize(n)
  {
    LeafPosMeaning(n);
    LeafPosMeaning(n + 1);
    LeafCountSeparates(MmrSize(n), q + 1);
    LeafCountGrows(q + 1, MmrSize(n + 1));
    if Height(q) == 0 {
      LeafPosUnique(q);
      LeafCountStep(q);
    }
  }

  /** What a merge at `q` reads and writes. */
  lemma MergeHashes(H: HashFn, f: Forest, leaf: Bytes, q: nat, l: nat)
    requires WellFormed(f)
    requires MmrSize(|f.leaves|) < q < MmrSize(|f.leaves| + 1)
    requires Height(q) > 0 && q == l + Pow2(Height(q))
    ensures var g := PushForest(f, leaf);
            var left: Bytes := Stored(H, g, l);
            Stored(H, g, q) == H(q, left + Stored(H, g, q - 1))
  {
    var g := PushForest(f, leaf);
    var n := |f.leaves|;
    GroupOfLeaf(n, q);
    GroupOfLeaf(n, q - 1);
    NewNodeAlive(H, g, q);
    NewNodeAlive(H, g, q - 1);
    Children(q);
    LeftRead(H, f, leaf, q, l);
  }

  /** What a merge at `q` finds on its left: zeros if and only if it makes a blind parent. */
  lemma LeftRead(H: HashFn, f: Forest, leaf: Bytes, q: nat, l: nat)
    requires WellFormed(f) && MmrSize(|f.leaves|) < q < MmrSize(|f.leaves| + 1)
    requires Height(q) > 0 && q == l + Pow2(Height(q)) && Height(l) == Height(q) - 1
    ensures var g := PushForest(f, leaf);
            Stored(H, g, l) == if q in g.blind then ZERO else Born(H, g.leaves, g.blind, l)
  {
    assert q in PushForest(f, leaf).blind <==> Height(l) > 0 && FullyPruned(f.pruned, l);
  }

  lemma StoredExtend(H: HashFn, g: Forest, q: nat)
    requires q < MmrSize(|g.leaves|)
    ensures StoredUpTo(H, g, q + 1) == StoredUpTo(H, g, q) + [Stored(H, g, q)]
  {
  }

  lemma MergeShape(n: nat, q: nat) returns (h: nat, l: nat)
    requires MmrSize(n) < q < MmrSize(n + 1)
    ensures Height(q - 1) == h && Height(q) == h + 1 && q == l + Pow2(h + 1)
  {
    h := Height(q - 1);
    NextHeight(q - 1);
    GroupOfLeaf(n, q);
    Children(q);
    l := q - Pow2(h + 1);
  }

  lemma MergeExtends(H: HashFn, f: Forest, leaf: Bytes, q: nat, h: nat, l: nat)
    requires WellFormed(f)
    requires MmrSize(|f.leaves|) < q < MmrSize(|f.leaves| + 1)
    requires Height(q - 1) == h && Height(q) == h + 1 && q == l + Pow2(h + 1)
    ensures var g := PushForest(f, leaf);
            MergeUp(H, StoredUpTo(H, g, q)) == MergeUp(H, StoredUpTo(H, g, q + 1))
  {
    var g := PushForest(f, leaf);
    MergeHashes(H, f, leaf, q, l);
    StoredExtend(H, g, q);
    MergeUpStep(H, StoredUpTo(H, g, q), h, l);
  }

  /** Merging up from inside the last leaf's group of nodes completes the stored hashes. */
  lemma {:induction false} MergeCompletes(H: HashFn, f: Forest, leaf: Bytes, q: nat)
    requires WellFormed(f)
    requires MmrSize(|f.leaves|) < q <= MmrSize(|f.leaves| + 1)
    ensures var g := PushForest(f, leaf);
            MergeUp(H, StoredUpTo(H, g, q)) == StoredUpTo(H, g, MmrSize(|g.leaves|))
    decreases MmrSize(|f.leaves| + 1) - q
  {
    var g := PushForest(f, leaf);
    var n := |f.leaves|;
    if q == MmrSize(n + 1) {
      LeafPosMeaning(n + 1);
      MergeUpStops(H, StoredUpTo(H, g, q));
    } else {
      var h, l := MergeShape(n, q);
      MergeExtends(H, f, leaf, q, h, l);
      MergeCompletes(H, f, leaf, q + 1);
    }
  }

  /** Pushing leaves the stored hashes alone and adds the new leaf's. */
  lemma PushKeeps(H: HashFn, f: Forest, leaf: Bytes)
    requires WellFormed(f)
    ensures var n := |f.leaves|;
            && MmrSize(n) < MmrSize(n + 1)
            && StoredUpTo(H, PushForest(f, leaf), MmrSize(n) + 1) ==
               StoredUpTo(H, f, MmrSize(n)) + [H(MmrSize(n), leaf)]
  {
    var g := PushForest(f, leaf);
    var n := |f.leaves|;
    LeafPosGrows(n, n + 1);
    LeafPosMeaning(n);
    forall p | 0 <= p < MmrSize(n) ensures Stored(H, g, p) == Stored(H, f, p) {
      BornStable(H, f.leaves, f.blind, g.leaves, g.blind, p);
    }
    StoredExtend(H, g, MmrSize(n));
    assert g.leaves[n] == leaf;
    assert BornInput(H, g.leaves, g.blind, MmrSize(n)) == (MmrSize(n), leaf);
    assert Stored(H, g, MmrSize(n)) == H(MmrSize(n), leaf);
    assert StoredUpTo(H, g, MmrSize(n)) == StoredUpTo(H, f, MmrSize(n));
  }

  /** push turns the state of a forest into the state of the pushed forest. */
  lemma PushRefines(H: HashFn, f: Forest, leaf: Bytes)
    requires WellFormed(f)
    ensures WellFormed(PushForest(f, leaf))
    ensures Push(H, Abs(H, f), leaf) == Abs(H, PushForest(f, leaf))
  {
    PushKeeps(H, f, leaf);
    MergeCompletes(H, f, leaf, MmrSize(|f.leaves|) + 1);
  }
}
