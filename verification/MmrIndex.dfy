/** Position arithmetic of mimblewimble/mmr/index.py, proved against PostOrder. */
module MmrIndex {
  import opened Bits
  import opened PostOrder

  datatype Option<+T> = None | Some(value: T)

  /** Positions are 64-bit words: peak_map_height shifts a word of 64 ones and fails beyond it. */
  const WORD_BITS: nat := 64

  // ---------------------------------------------------------------- peak_map_height

  /** What the greedy loop makes of the remaining size `s` when `j` peak sizes are left to try. */
  function Greedy(j: nat, s: nat): (nat, nat) {
    if j == 0 then (0, s)
    else if s >= Pow2(j) - 1 then
      var (map', rest) := Greedy(j - 1, s - (Pow2(j) - 1));
      (Pow2(j - 1) + map', rest)
    else Greedy(j - 1, s)
  }

  function PeakMapHeight(size: nat): (nat, nat) {
    Greedy(BitLength(size), size)
  }

  /** The answer once `j` more peak sizes are tried on `s`, with `peakMap` found so far. */
  ghost function Finish(peakMap: nat, j: nat, s: nat): (nat, nat) {
    var (more, rest) := Greedy(j, s);
    (peakMap * Pow2(j) + more, rest)
  }

  lemma FinishStep(peakMap: nat, j: nat, s: nat)
    requires j > 0
    ensures Finish(peakMap, j, s) ==
            if s >= Pow2(j) - 1 then Finish(2 * peakMap + 1, j - 1, s - (Pow2(j) - 1))
            else Finish(2 * peakMap, j - 1, s)
  {
    GreedyStep(j, s);
    if s >= Pow2(j) - 1 {
      FinishSum(peakMap, Pow2(j - 1), Greedy(j - 1, s - (Pow2(j) - 1)).0);
    } else {
      FinishSum(peakMap, Pow2(j - 1), Greedy(j - 1, s).0);
    }
  }

  lemma GreedyStep(j: nat, s: nat)
    requires j > 0
    ensures Pow2(j) == 2 * Pow2(j - 1)
    ensures s >= Pow2(j) - 1 ==>
              var g := Greedy(j - 1, s - (Pow2(j) - 1)); Greedy(j, s) == (Pow2(j - 1) + g.0, g.1)
    ensures s < Pow2(j) - 1 ==> Greedy(j, s) == Greedy(j - 1, s)
  {
  }

  lemma FinishSum(m: nat, x: nat, more: nat)
    ensures m * (2 * x) + (x + more) == (2 * m + 1) * x + more
    ensures m * (2 * x) + more == (2 * m) * x + more
  {
    Doubled(m, x);
  }

  lemma Doubled(m: int, x: int)
    ensures m * (2 * x) == (2 * m) * x
    ensures (2 * m + 1) * x == (2 * m) * x + x
  {
  }

  /** Nothing for sizes of more than 64 bits, where the count of leading zeros is negative and the shift raises. */
  method ComputePeakMapHeight(size: nat) returns (r: Option<(nat, nat)>)
    ensures r == if size < Pow2(WORD_BITS) then Some(PeakMapHeight(size)) else None
  {
    if size == 0 {
      return Some((0, 0));
    }
    WordHolds(size);
    var leading: int := WORD_BITS - BitLength(size);
    if leading < 0 {
      return None;
    }
    OnesShifted(WORD_BITS, BitLength(size));
    var peakMap, height := TryPeaks(size, (Pow2(WORD_BITS) - 1) / Pow2(leading));
    return Some((peakMap, height));
  }

  /** The loop of peak_map_height, from the largest peak size down. */
  method TryPeaks(size: nat, largest: nat) returns (peakMap: nat, height: nat)
    requires largest == Pow2(BitLength(size)) - 1
    ensures (peakMap, height) == PeakMapHeight(size)
  {
    ghost var j := BitLength(size);
    ghost var answer := PeakMapHeight(size);
    var peakSize := largest;
    peakMap, height := 0, size;
    while peakSize != 0
      invariant peakSize == Pow2(j) - 1
      invariant Finish(peakMap, j, height) == answer
      decreases peakSize
    {
      FinishStep(peakMap, j, height);
      peakMap := peakMap * 2;
      if height >= peakSize {
        height := height - peakSize;
        peakMap := peakMap + 1;
      }
      peakSize := peakSize / 2;
      j := j - 1;
    }
  }

  lemma WordHolds(size: nat)
    ensures BitLength(size) <= WORD_BITS <==> size < Pow2(WORD_BITS)
  {
    BitLengthBounds(size);
    if BitLength(size) > WORD_BITS {
      Pow2Grows(WORD_BITS, BitLength(size) - 1);
    } else {
      Pow2Grows(BitLength(size), WORD_BITS);
    }
  }

  lemma {:induction false} GreedyPastRoot(j: nat, e: nat)
    ensures Greedy(j, TreeSize(j) - 1 + e) == (Pow2(j) - 1, j + e)
  {
    if j == 0 {
    } else {
      GreedyPastRoot(j - 1, e + 1);
      assert TreeSize(j) - 1 + e - (Pow2(j) - 1) == TreeSize(j - 1) - 1 + (e + 1);
    }
  }

  /** What n_leaves makes of a peak map and a height. */
  function LeavesOf(r: (nat, nat)): nat {
    r.0 + (if r.1 > 0 then 1 else 0)
  }

  lemma {:induction false} GreedyHeight(j: nat, s: nat)
    requires s < TreeSize(j)
    ensures Greedy(j, s).1 == HeightIn(j, s)
  {
    if s == TreeSize(j) - 1 {
      GreedyPastRoot(j, 0);
    } else if s < TreeSize(j - 1) {
      GreedyHeight(j - 1, s);
    } else {
      GreedyHeight(j - 1, s - TreeSize(j - 1));
    }
  }

  lemma {:induction false} GreedyLeaves(j: nat, s: nat)
    requires s < TreeSize(j)
    ensures LeavesOf(Greedy(j, s)) == LeafCount(s)
  {
    if s == TreeSize(j) - 1 {
      GreedyPastRoot(j, 0);
      LeafCountOfTree(j);
      HeightOfRoot(j);
      LeafCountStep(s);
    } else if s < TreeSize(j - 1) {
      GreedyLeaves(j - 1, s);
    } else {
      var q := s - TreeSize(j - 1);
      GreedyLeaves(j - 1, q);
      LeafCountShift(j - 1, q);
      LeafCountOfTree(j - 1);
    }
  }

  /** The greedy remainder is the true postorder height; the map counts the leaves below, mid-merge sizes included. */
  lemma PeakMapHeightMeaning(size: nat)
    ensures PeakMapHeight(size).1 == Height(size)
    ensures LeavesOf(PeakMapHeight(size)) == LeafCount(size)
  {
    BitLengthBounds(size);
    GreedyHeight(BitLength(size), size);
    GreedyLeaves(BitLength(size), size);
    HeightFits(BitLength(size), size);
  }

  // ---------------------------------------------------------------- leaves

  /** Same value as Height, which the functions below call in its place. */
  function BintreePostorderHeight(pos0: nat): (h: nat)
    ensures h == Height(pos0)
  {
    PeakMapHeightMeaning(pos0);
    PeakMapHeight(pos0).1
  }

  predicate IsLeaf(pos0: nat) {
    Height(pos0) == 0
  }

  /** Same value as LeafCount, which the functions below call in its place. */
  function NLeaves(mmrSize: nat): (n: nat)
    ensures n == LeafCount(mmrSize)
  {
    PeakMapHeightMeaning(mmrSize);
    if mmrSize == 0 then 0 else LeavesOf(PeakMapHeight(mmrSize))
  }

  function InsertionToPmmrIndex(leafIdx: nat): (pos0: nat)
    ensures pos0 <= 2 * leafIdx
  {
    PopcountBound(leafIdx);
    2 * leafIdx - Popcount(leafIdx)
  }

  /** The first `2^k + m` leaves fill a tree of height `k` and then lay out `m` more. */
  lemma LeafPosSplit(k: nat, m: nat)
    requires m < Pow2(k)
    ensures InsertionToPmmrIndex(Pow2(k) + m) == TreeSize(k) + InsertionToPmmrIndex(m)
    ensures InsertionToPmmrIndex(m) < TreeSize(k)
  {
    PopcountTopBit(k, m);
  }

  /** The tallest tree among `n` leaves has `2^TopBit(n)` of them. */
  function TopBit(n: nat): (k: nat)
    requires n > 0
    ensures Pow2(k) <= n < 2 * Pow2(k)
  {
    BitLengthBounds(n);
    BitLength(n) - 1
  }

  /** `2n - popcount(n)` is the position of leaf number `n`. */
  lemma {:induction false} LeafPosMeaning(n: nat)
    ensures Height(InsertionToPmmrIndex(n)) == 0
    ensures LeafCount(InsertionToPmmrIndex(n)) == n
  {
    if n == 0 {
    } else {
      var k := TopBit(n);
      var m := n - Pow2(k);
      LeafPosMeaning(m);
      LeafPosSplit(k, m);
      HeightShift(k, InsertionToPmmrIndex(m));
      LeafCountShift(k, InsertionToPmmrIndex(m));
      LeafCountOfTree(k);
    }
  }

  /** A position with as many leaves below it as a leaf position cannot lie beyond it. */
  lemma LeafCountSeparates(p: nat, q: nat)
    requires Height(p) == 0 && p < q
    ensures LeafCount(p) < LeafCount(q)
  {
    LeafCountStep(p);
    LeafCountGrows(p + 1, q);
  }

  lemma LeafPosUnique(p: nat)
    requires Height(p) == 0
    ensures p == InsertionToPmmrIndex(LeafCount(p))
  {
    var q := InsertionToPmmrIndex(LeafCount(p));
    LeafPosMeaning(LeafCount(p));
    if p < q { LeafCountSeparates(p, q); } else if q < p { LeafCountSeparates(q, p); }
  }

  lemma LeafPosGrows(m: nat, n: nat)
    requires m < n
    ensures InsertionToPmmrIndex(m) < InsertionToPmmrIndex(n)
  {
    LeafPosMeaning(m);
    LeafPosMeaning(n);
    if InsertionToPmmrIndex(n) < InsertionToPmmrIndex(m) {
      LeafCountSeparates(InsertionToPmmrIndex(n), InsertionToPmmrIndex(m));
    }
  }

  function PmmrLeafToInsertionIndex(pos0: nat): (r: Option<nat>)
    ensures r.Some? <==> Height(pos0) == 0
    ensures r.Some? ==> r.value == LeafCount(pos0)
  {
    LeafCountStep(pos0);
    if !IsLeaf(pos0) then None else Some(LeafCount(pos0 + 1) - 1)
  }

  /** The two leaf numberings are inverse to each other, and only leaf positions have a number. */
  lemma LeafIndexInverse(leafIdx: nat, pos0: nat)
    ensures PmmrLeafToInsertionIndex(pos0) == Some(leafIdx) <==> InsertionToPmmrIndex(leafIdx) == pos0
  {
    LeafPosMeaning(leafIdx);
    if Height(pos0) == 0 { LeafPosUnique(pos0); }
  }

  function RoundUpToLeafPos(pos0: nat): nat {
    if IsLeaf(pos0) then pos0 else InsertionToPmmrIndex(LeafCount(pos0 + 1))
  }

  /** RoundUpToLeafPos finds the least leaf position that is not below `pos0`. */
  lemma RoundUpMeaning(pos0: nat, q: nat)
    ensures pos0 <= RoundUpToLeafPos(pos0) && Height(RoundUpToLeafPos(pos0)) == 0
    ensures pos0 <= q && Height(q) == 0 ==> RoundUpToLeafPos(pos0) <= q
  {
    if !IsLeaf(pos0) {
      var r := RoundUpToLeafPos(pos0);
      LeafPosMeaning(LeafCount(pos0 + 1));
      LeafCountStep(pos0);
      if r < pos0 { LeafCountSeparates(r, pos0); }
      if pos0 <= q < r && Height(q) == 0 {
        LeafCountGrows(pos0, q);
        LeafCountSeparates(q, r);
      }
    }
  }

  // ---------------------------------------------------------------- families

  function SiblingOffset(h: nat): nat {
    Pow2(h + 1) - 1
  }

  lemma RightChildFacts(p: nat, h: nat)
    requires Height(p) == h && Height(p + 1) == h + 1
    ensures SiblingOffset(h) <= p && Height(p - SiblingOffset(h)) == h
    ensures Height(p - SiblingOffset(h) + 1) == 0
  {
    Children(p + 1);
    assert p + 1 - Pow2(h + 1) == p - SiblingOffset(h);
    FirstIsLeaf(p, h);
  }

  lemma LeftChildFacts(p: nat, h: nat)
    requires Height(p) == h && Height(p + 1) != h + 1
    ensures Height(p + 1) == 0
    ensures Height(p + SiblingOffset(h)) == h && Height(p + SiblingOffset(h) + 1) == h + 1
  {
    var k := p + 1;
    Pow2Exceeds(k);
    FamilyIn(k, p);
    HeightFits(k, p);
    HeightFits(k, p + 1);
    HeightFits(k, p + TreeSize(h));
    HeightFits(k, p + TreeSize(h) + 1);
  }

  lemma FamilyFacts(p: nat)
    ensures var h := Height(p); var o := SiblingOffset(h);
            if Height(p + 1) > h then
              && Height(p + 1) == h + 1 && o <= p && Height(p - o) == h && Height(p - o + 1) == 0
            else
              && Height(p + 1) == 0 && Height(p + o) == h && Height(p + o + 1) == h + 1
  {
    var h := Height(p);
    NextHeight(p);
    if Height(p + 1) == h + 1 {
      RightChildFacts(p, h);
    } else {
      LeftChildFacts(p, h);
    }
  }

  /** The first position of a subtree is a leaf. */
  lemma {:induction false} FirstIsLeaf(p: nat, h: nat)
    requires Height(p) == h
    ensures TreeSize(h) <= p + 1 && Height(p + 1 - TreeSize(h)) == 0
    decreases h
  {
    if h == 0 {
    } else {
      Children(p);
      FirstIsLeaf(p - Pow2(h), h - 1);
      assert p - Pow2(h) + 1 - TreeSize(h - 1) == p + 1 - TreeSize(h);
    }
  }

  /** (parent, sibling) of a position. */
  function Family(pos0: nat): (r: (nat, nat))
    ensures r.0 > pos0
  {
    FamilyFacts(pos0);
    var h := Height(pos0);
    var siblingOffset := Pow2(h + 1) - 1;
    if Height(pos0 + 1) > h then
      (pos0 + 1, pos0 - siblingOffset)
    else
      (pos0 + siblingOffset + 1, pos0 + siblingOffset)
  }

  predicate IsLeftSibling(pos0: nat) {
    Height(pos0 + 1) <= Height(pos0)
  }

  /** A right child: its family is read off the next position. */
  lemma RightFamily(p: nat, h: nat)
    requires Height(p) == h && Height(p + 1) > h
    ensures !IsLeftSibling(p)
    ensures SiblingOffset(h) <= p && Family(p) == (p + 1, p - SiblingOffset(h))
  {
    FamilyFacts(p);
  }

  lemma LeftFamily(p: nat, h: nat)
    requires Height(p) == h && Height(p + 1) <= h
    ensures IsLeftSibling(p)
    ensures Family(p) == (p + SiblingOffset(h) + 1, p + SiblingOffset(h))
  {
    FamilyFacts(p);
  }

  /** `s` is the right sibling of the left child `p`, and `p` is the left sibling of `s`. */
  lemma SiblingPair(p: nat, s: nat, h: nat)
    requires Height(p) == h && s == p + SiblingOffset(h) && Height(s) == h
    requires Height(p + 1) == 0 && Height(s + 1) == h + 1
    ensures Family(p) == (s + 1, s) && Family(s) == (s + 1, p)
    ensures IsLeftSibling(p) && !IsLeftSibling(s)
    ensures p == s + 1 - Pow2(h + 1)
  {
    RightFamily(s, h);
    LeftFamily(p, h);
  }

  /** Siblings name each other, share one parent of the next height, and are its two children in order. */
  lemma FamilyMeaning(p: nat)
    ensures var (parent, sibling) := Family(p);
            && Height(sibling) == Height(p)
            && Height(parent) == Height(p) + 1
            && Family(sibling) == (parent, p)
            && IsLeftSibling(sibling) == !IsLeftSibling(p)
            && (if IsLeftSibling(p) then p else sibling) == parent - Pow2(Height(parent))
            && (if IsLeftSibling(p) then sibling else p) == parent - 1
  {
    var h := Height(p);
    FamilyFacts(p);
    if Height(p + 1) > h {
      SiblingPair(p - SiblingOffset(h), p, h);
    } else {
      SiblingPair(p, p + SiblingOffset(h), h);
    }
  }

  /** A parent closes right after its right child, `2^h` positions after its left one. */
  lemma FamilyOrder(pos: nat, parent: nat, sibling: nat)
    requires (parent, sibling) == Family(pos)
    ensures Height(sibling) == Height(pos) && Height(parent) == Height(pos) + 1 && sibling < parent
    ensures IsLeftSibling(pos) ==> parent == pos + Pow2(Height(parent)) && parent == sibling + 1
    ensures !IsLeftSibling(pos) ==> parent == sibling + Pow2(Height(parent)) && parent == pos + 1
  {
    FamilyMeaning(pos);
  }

  /** Half-open range of the positions in the subtree of `pos0`. */
  function BintreeRange(pos0: nat): (nat, nat) {
    SubtreeFits(pos0);
    var subtreeSize := Pow2(Height(pos0) + 1) - 1;
    (pos0 + 1 - subtreeSize, pos0 + 1)
  }

  function BintreeLeftmost(pos0: nat): nat {
    SubtreeFits(pos0);
    pos0 - (Pow2(Height(pos0) + 1) - 2)
  }

  lemma {:induction false} RightSpine(p: nat, h: nat)
    requires Height(p) == h
    ensures h <= p && Height(p - h) == 0
    ensures LeafCount(p + 1) == LeafCount(p - h) + 1
    decreases h
  {
    LeafCountStep(p);
    if h == 0 {
    } else {
      Children(p);
      RightSpine(p - 1, h - 1);
    }
  }

  function BintreeRightmost(pos0: nat): nat {
    RightSpine(pos0, Height(pos0));
    pos0 - Height(pos0)
  }

  /** A parent's range is its left child's range, then its right child's, then the parent itself. */
  lemma RangeOfParent(p: nat)
    ensures var (parent, sibling) := Family(p);
            var left := if IsLeftSibling(p) then p else sibling;
            var right := if IsLeftSibling(p) then sibling else p;
            && BintreeRange(parent).0 == BintreeRange(left).0
            && BintreeRange(left).1 == BintreeRange(right).0
            && BintreeRange(right).1 == parent
            && BintreeRange(parent).1 == parent + 1
  {
    FamilyMeaning(p);
  }

  /** Leftmost and rightmost are the first and the last leaf of the range. */
  lemma OutermostLeaves(p: nat)
    ensures BintreeLeftmost(p) == BintreeRange(p).0 && Height(BintreeLeftmost(p)) == 0
    ensures Height(BintreeRightmost(p)) == 0
    ensures BintreeRange(p).0 <= BintreeRightmost(p) <= p
    ensures forall q :: BintreeRightmost(p) < q <= p ==> Height(q) != 0
  {
    var h := Height(p);
    FirstIsLeaf(p, h);
    RightSpine(p, h);
    LastLeafFrom(p - h, p + 1 - TreeSize(h), p);
    forall q | p - h < q <= p ensures Height(q) != 0 {
      LastLeaf(p - h, q, p);
    }
  }

  /** When `r` is a leaf and no leaf number is left for the positions `r + 1 .. p`, none of them is a leaf. */
  lemma LastLeaf(r: nat, q: nat, p: nat)
    requires r < q <= p && Height(r) == 0 && LeafCount(p + 1) == LeafCount(r) + 1
    ensures Height(q) != 0
  {
    if Height(q) == 0 {
      LeafCountSeparates(r, q);
      LeafCountSeparates(q, p + 1);
    }
  }

  lemma LastLeafFrom(r: nat, q: nat, p: nat)
    requires q <= p && Height(r) == 0 && Height(q) == 0 && LeafCount(p + 1) == LeafCount(r) + 1
    ensures q <= r
  {
    if r < q { LastLeaf(r, q, p); }
  }
}
