/**
  The geometry a Merkle Mountain Range is meant to have: nodes are numbered in the order
  a perfect binary tree of any sufficient height lists them in postorder.
  Everything the index arithmetic promises is stated against these definitions.
*/
module PostOrder {
  import opened Bits

  /** Number of nodes of a perfect binary tree of height `k`. */
  function TreeSize(k: nat): nat {
    2 * Pow2(k) - 1
  }

  /** Height of the node numbered `p` in the postorder listing of the perfect tree of height `k`. */
  function HeightIn(k: nat, p: nat): (h: nat)
    requires p < TreeSize(k)
    ensures h <= k
  {
    if p == TreeSize(k) - 1 then k
    else if p < TreeSize(k - 1) then HeightIn(k - 1, p)
    else HeightIn(k - 1, p - TreeSize(k - 1))
  }

  /** Every tree of height at most `p` that is large enough for position `p` gives it the height `h`. */
  predicate HasHeight(p: nat, h: nat) {
    forall k {:trigger HeightIn(k, p)} :: 0 <= k <= p && p < TreeSize(k) ==> HeightIn(k, p) == h
  }

  /** Height of position `p`: the one height all large enough trees agree on. */
  function Height(p: nat): nat {
    HeightDefined(p);
    var h :| 0 <= h <= p && HasHeight(p, h);
    h
  }

  lemma {:induction false} HeightInStable(j: nat, k: nat, p: nat)
    requires p < TreeSize(j) && j <= k
    ensures p < TreeSize(k)
    ensures HeightIn(k, p) == HeightIn(j, p)
    decreases k
  {
    Pow2Grows(j, k);
    if j == k {
    } else {
      Pow2Grows(j, k - 1);
      HeightInStable(j, k - 1, p);
    }
  }

  lemma HeightDefined(p: nat)
    ensures p < TreeSize(p)
    ensures HasHeight(p, HeightIn(p, p))
    ensures forall h :: HasHeight(p, h) ==> h == HeightIn(p, p)
  {
    Pow2Exceeds(p);
    forall k | 0 <= k <= p && p < TreeSize(k) ensures HeightIn(k, p) == HeightIn(p, p) {
      HeightInStable(k, p, p);
    }
  }

  /** Trees taller than `p` agree as well. */
  lemma HeightFits(k: nat, p: nat)
    requires p < TreeSize(k)
    ensures Height(p) == HeightIn(k, p)
    ensures Height(p) <= k
  {
    HeightDefined(p);
    if p < k { HeightInStable(p, k, p); }
  }

  lemma HeightOfRoot(k: nat)
    ensures Height(TreeSize(k) - 1) == k
  {
    HeightFits(k, TreeSize(k) - 1);
  }

  /** The right half of a tree repeats the left half. */
  lemma HeightShift(k: nat, q: nat)
    requires q < TreeSize(k)
    ensures Height(TreeSize(k) + q) == Height(q)
  {
    HeightFits(k, q);
    HeightFits(k + 1, TreeSize(k) + q);
  }

  /** An internal node sits right after its right child; its left child is `2^h` positions back. */
  lemma {:induction false} ChildrenIn(k: nat, p: nat)
    requires p < TreeSize(k) && HeightIn(k, p) > 0
    ensures var h := HeightIn(k, p);
            && TreeSize(h) <= p + 1
            && HeightIn(k, p - 1) == h - 1
            && HeightIn(k, p - Pow2(h)) == h - 1
  {
    if p == TreeSize(k) - 1 {
      HeightInStable(k - 1, k, TreeSize(k - 1) - 1);
    } else if p < TreeSize(k - 1) {
      ChildrenIn(k - 1, p);
    } else {
      ChildrenIn(k - 1, p - TreeSize(k - 1));
    }
  }

  lemma Children(p: nat)
    requires Height(p) > 0
    ensures TreeSize(Height(p)) <= p + 1
    ensures Height(p - 1) == Height(p) - 1
    ensures Height(p - Pow2(Height(p))) == Height(p) - 1
  {
    var h := Height(p);
    Pow2Exceeds(p);
    HeightFits(p, p);
    ChildrenIn(p, p);
    HeightFits(p, p - 1);
    HeightFits(p, p - Pow2(h));
  }

  lemma SubtreeFits(p: nat)
    ensures TreeSize(Height(p)) <= p + 1
  {
    if Height(p) > 0 { Children(p); }
  }

  /** Where the parent and the sibling of `p` lie in the tree of height `k`. */
  ghost predicate FamilyShape(k: nat, p: nat)
    requires p + 1 < TreeSize(k)
  {
    var h := HeightIn(k, p);
    if HeightIn(k, p + 1) == h + 1 then
      TreeSize(h) <= p && HeightIn(k, p - TreeSize(h)) == h
    else
      && HeightIn(k, p + 1) == 0
      && p + TreeSize(h) + 1 < TreeSize(k)
      && HeightIn(k, p + TreeSize(h)) == h
      && HeightIn(k, p + TreeSize(h) + 1) == h + 1
  }

  /** A node that is not the root of the enclosing tree has its parent and sibling inside that tree. */
  lemma {:induction false} FamilyIn(k: nat, p: nat)
    requires p + 1 < TreeSize(k)
    ensures FamilyShape(k, p)
  {
    var t := TreeSize(k - 1);
    if p < t - 1 {
      FamilyIn(k - 1, p);
      FamilyLeft(k, p);
    } else if p == t - 1 {
      HeightInStable(0, k - 1, 0);
      assert HeightIn(k, p) == k - 1;
      assert HeightIn(k, t) == HeightIn(k - 1, 0) == 0;
      assert HeightIn(k, t + t - 1) == HeightIn(k - 1, t - 1) == k - 1;
    } else if p < 2 * t - 1 {
      FamilyIn(k - 1, p - t);
      FamilyRight(k, p);
    } else {
      assert HeightIn(k, p) == HeightIn(k - 1, t - 1) == k - 1;
    }
  }

  lemma FamilyLeft(k: nat, p: nat)
    requires k > 0 && p + 1 < TreeSize(k - 1)
    requires FamilyShape(k - 1, p)
    ensures FamilyShape(k, p)
  {
    var h := HeightIn(k - 1, p);
    assert HeightIn(k, p) == h;
    assert HeightIn(k, p + 1) == HeightIn(k - 1, p + 1);
  }

  lemma FamilyRight(k: nat, p: nat)
    requires k > 0 && TreeSize(k - 1) <= p && p + 1 < 2 * TreeSize(k - 1)
    requires FamilyShape(k - 1, p - TreeSize(k - 1))
    ensures FamilyShape(k, p)
  {
    var q := p - TreeSize(k - 1);
    var h := HeightIn(k - 1, q);
    assert HeightIn(k, p) == h;
    assert HeightIn(k, p + 1) == HeightIn(k - 1, q + 1);
  }

  /** The next position is either a leaf or the parent of this one. */
  lemma NextHeight(p: nat)
    ensures Height(p + 1) == 0 || Height(p + 1) == Height(p) + 1
  {
    Pow2Exceeds(p + 1);
    FamilyIn(p + 1, p);
    HeightFits(p + 1, p);
    HeightFits(p + 1, p + 1);
  }

  /** Number of leaves among the positions below `p`. */
  function LeafCount(p: nat): (c: nat)
    ensures c <= p
  {
    if p == 0 then 0 else LeafCount(p - 1) + (if Height(p - 1) == 0 then 1 else 0)
  }

  lemma LeafCountStep(p: nat)
    ensures LeafCount(p + 1) == LeafCount(p) + (if Height(p) == 0 then 1 else 0)
  {
  }

  lemma {:induction false} LeafCountGrows(p: nat, q: nat)
    requires p <= q
    ensures LeafCount(p) <= LeafCount(q)
    decreases q
  {
    if p == q {
    } else {
      LeafCountGrows(p, q - 1);
    }
  }

  lemma LeafShiftStep(t: nat, q: nat)
    requires Height(t + q) == Height(q)
    ensures LeafCount(t + q + 1) - LeafCount(t + q) == LeafCount(q + 1) - LeafCount(q)
  {
    LeafCountStep(t + q);
    LeafCountStep(q);
  }

  lemma {:induction false} LeafCountShift(k: nat, q: nat)
    requires q <= TreeSize(k)
    ensures LeafCount(TreeSize(k) + q) == LeafCount(TreeSize(k)) + LeafCount(q)
    decreases q
  {
    if q == 0 {
    } else {
      LeafCountShift(k, q - 1);
      HeightShift(k, q - 1);
      LeafShiftStep(TreeSize(k), q - 1);
    }
  }

  lemma {:induction false} LeafCountOfTree(k: nat)
    ensures LeafCount(TreeSize(k)) == Pow2(k)
  {
    if k == 0 {
    } else {
      LeafCountOfTree(k - 1);
      LeafCountShift(k - 1, TreeSize(k - 1));
      HeightOfRoot(k);
    }
  }

  /** Leaves below `p`, for a subtree known to have height `h`. */
  ghost predicate HoldsLeaves(p: nat, h: nat) {
    TreeSize(h) <= p + 1 && LeafCount(p + 1) == LeafCount(p + 1 - TreeSize(h)) + Pow2(h)
  }

  lemma LeavesOfChildren(p: nat, h: nat)
    requires h > 0 && TreeSize(h) <= p + 1 && LeafCount(p + 1) == LeafCount(p)
    requires HoldsLeaves(p - 1, h - 1) && HoldsLeaves(p - Pow2(h), h - 1)
    ensures HoldsLeaves(p, h)
  {
    var l := p - Pow2(h);
    assert p - TreeSize(h - 1) == l + 1;
    assert l + 1 - TreeSize(h - 1) == p + 1 - TreeSize(h);
  }

  /** The subtree below `p` holds exactly the last `2^h` leaves numbered up to `p`. */
  lemma {:induction false} LeavesBelow(p: nat, h: nat)
    requires h == Height(p)
    ensures HoldsLeaves(p, h)
    decreases h
  {
    LeafCountStep(p);
    if h == 0 {
    } else {
      Children(p);
      LeavesBelow(p - 1, h - 1);
      LeavesBelow(p - Pow2(h), h - 1);
      LeavesOfChildren(p, h);
    }
  }

  /** Leaf number `i` lies at a position from `lo` on and below `hi`. */
  predicate LeafWithin(lo: nat, hi: nat, i: nat) {
    LeafCount(lo) <= i < LeafCount(hi)
  }

  /** Leaf number `i` lies in the subtree of `p`. */
  predicate Covers(p: nat, i: nat) {
    TreeSize(Height(p)) <= p + 1 && LeafWithin(p + 1 - TreeSize(Height(p)), p + 1, i)
  }

  lemma LeafCovers(p: nat, i: nat)
    requires Height(p) == 0
    ensures Covers(p, i) <==> i == LeafCount(p)
  {
    LeafCountStep(p);
  }

  lemma WithinSplit(lo: nat, mid: nat, hi: nat, i: nat)
    requires lo <= mid <= hi
    ensures LeafWithin(lo, hi, i) <==> LeafWithin(lo, mid, i) || LeafWithin(mid, hi, i)
  {
    LeafCountGrows(lo, mid);
    LeafCountGrows(mid, hi);
  }

  lemma CoversIsWithin(p: nat, h: nat, lo: nat, i: nat)
    requires Height(p) == h && lo + TreeSize(h) == p + 1
    ensures Covers(p, i) <==> LeafWithin(lo, p + 1, i)
  {
  }

  lemma InternalWithin(lo: nat, p: nat, i: nat)
    requires Height(p) > 0
    ensures LeafWithin(lo, p + 1, i) <==> LeafWithin(lo, p, i)
  {
    LeafCountStep(p);
  }

  /** A leaf under an internal node is under exactly one of its children. */
  lemma CoversChild(p: nat, h: nat, i: nat)
    requires Height(p) == h && h > 0
    ensures Pow2(h) <= p
    ensures Covers(p, i) <==> Covers(p - Pow2(h), i) || Covers(p - 1, i)
    ensures !(Covers(p - Pow2(h), i) && Covers(p - 1, i))
  {
    Children(p);
    var l := p - Pow2(h);
    var lo := p + 1 - TreeSize(h);
    CoversIsWithin(p, h, lo, i);
    CoversIsWithin(l, h - 1, lo, i);
    CoversIsWithin(p - 1, h - 1, l + 1, i);
    InternalWithin(lo, p, i);
    WithinSplit(lo, l + 1, p, i);
    assert !(LeafWithin(lo, l + 1, i) && LeafWithin(l + 1, p, i));
  }

  /** The position of a leaf decides what covers it. */
  lemma CoversPosition(p: nat, q: nat)
    requires Height(q) == 0 && TreeSize(Height(p)) <= p + 1 && p + 1 - TreeSize(Height(p)) <= q <= p
    ensures Covers(p, LeafCount(q))
  {
    LeafCountGrows(p + 1 - TreeSize(Height(p)), q);
    LeafCountGrows(q + 1, p + 1);
    LeafCountStep(q);
  }
}
