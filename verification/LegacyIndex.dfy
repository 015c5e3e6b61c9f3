/**
  The MMRIndex class of mimblewimble/mmr/index.py with fillOnesToRight of mimblewimble/helpers: a second
  implementation of the same geometry, proved against the same definitions.
*/
module LegacyIndex {
  import opened Bits
  import opened PostOrder
  import opened MmrIndex

  // ---------------------------------------------------------------- fillOnesToRight

  function OrShiftRight(x: nat, m: nat): nat {
    BitOr(x, ShiftRight(x, m))
  }

  function FillOnesToRight(input: nat): nat {
    var x := OrShiftRight(input, 1);
    var x := OrShiftRight(x, 2);
    var x := OrShiftRight(x, 4);
    var x := OrShiftRight(x, 8);
    var x := OrShiftRight(x, 16);
    OrShiftRight(x, 32)
  }

  /** Some bit of `n` from `lo` on, among the next `w`. */
  predicate AnyBit(n: nat, lo: nat, w: nat)
    decreases w
  {
    w > 0 && (Bit(n, lo) || AnyBit(n, lo + 1, w - 1))
  }

  lemma {:induction false} AnyBitSplit(n: nat, lo: nat, a: nat, b: nat)
    ensures AnyBit(n, lo, a + b) == (AnyBit(n, lo, a) || AnyBit(n, lo + a, b))
    decreases a
  {
    if a == 0 {
    } else {
      AnyBitSplit(n, lo + 1, a - 1, b);
    }
  }

  lemma {:induction false} AnyBitIn(n: nat, lo: nat, w: nat, k: nat)
    ensures lo <= k < lo + w && Bit(n, k) ==> AnyBit(n, lo, w)
    decreases w
  {
    if w == 0 {
    } else {
      AnyBitIn(n, lo + 1, w - 1, k);
    }
  }

  lemma {:induction false} NoBitFrom(n: nat, lo: nat, w: nat, m: nat)
    requires n < Pow2(m) && m <= lo
    ensures !AnyBit(n, lo, w)
    decreases w
  {
    if w == 0 {
    } else {
      ClearAbove(n, m, lo);
      NoBitFrom(n, lo + 1, w - 1, m);
    }
  }

  /** Every bit of `y` tells whether `n` has one among the `w` bits from there on. */
  ghost predicate Window(n: nat, y: nat, w: nat) {
    forall j: nat :: Bit(y, j) == AnyBit(n, j, w)
  }

  /** ORing with itself shifted by the window doubles the window. */
  lemma WindowDoubles(n: nat, y: nat, w: nat)
    requires Window(n, y, w)
    ensures Window(n, OrShiftRight(y, w), 2 * w)
  {
    forall j: nat ensures Bit(OrShiftRight(y, w), j) == AnyBit(n, j, 2 * w) {
      OrBit(y, ShiftRight(y, w), j);
      ShiftedBit(y, w, j);
      AnyBitSplit(n, j, w, w);
      assert Bit(y, w + j) == AnyBit(n, w + j, w);
    }
  }

  lemma FillWindow(n: nat)
    ensures Window(n, FillOnesToRight(n), 64)
  {
    forall j: nat ensures Bit(n, j) == AnyBit(n, j, 1) {
      assert AnyBit(n, j, 1) == (Bit(n, j) || AnyBit(n, j + 1, 0));
    }
    var x1 := OrShiftRight(n, 1);
    WindowDoubles(n, n, 1);
    var x2 := OrShiftRight(x1, 2);
    WindowDoubles(n, x1, 2);
    var x3 := OrShiftRight(x2, 4);
    WindowDoubles(n, x2, 4);
    var x4 := OrShiftRight(x3, 8);
    WindowDoubles(n, x3, 8);
    var x5 := OrShiftRight(x4, 16);
    WindowDoubles(n, x4, 16);
    WindowDoubles(n, x5, 32);
  }

  lemma {:induction false} OnesBit(m: nat, k: nat)
    ensures Bit(Pow2(m) - 1, k) == (k < m)
  {
    if m == 0 {
      ZeroBit(k);
    } else {
      Halve(Pow2(m) - 1, 1, Pow2(m - 1) - 1);
      if k > 0 {
        OnesBit(m - 1, k - 1);
        BitStep(Pow2(m) - 1, k - 1);
      }
    }
  }

  lemma {:induction false} TopBitSet(n: nat)
    requires n > 0
    ensures BitLength(n) > 0 && Bit(n, BitLength(n) - 1)
  {
    if n == 1 {
    } else {
      TopBitSet(n / 2);
      BitStep(n, BitLength(n / 2) - 1);
    }
  }

  /** A 64-wide window over a number of at most 64 bits has all bits up to the top one. */
  lemma FullWindow(n: nat, r: nat)
    requires Window(n, r, 64) && BitLength(n) <= 64
    ensures r == Pow2(BitLength(n)) - 1
  {
    var b := BitLength(n);
    BitLengthBounds(n);
    forall j: nat ensures Bit(r, j) == Bit(Pow2(b) - 1, j) {
      OnesBit(b, j);
      if j < b {
        TopBitSet(n);
        AnyBitIn(n, j, 64, b - 1);
      } else {
        NoBitFrom(n, j, 64, b);
      }
    }
    SameBits(r, Pow2(b) - 1);
  }

  /** On 64-bit numbers the shift-or chain yields as many ones as the number has bits. */
  lemma FillMeaning(n: nat)
    requires n < Pow2(WORD_BITS)
    ensures FillOnesToRight(n) == Pow2(BitLength(n)) - 1
  {
    FillWindow(n);
    WordHolds(n);
    FullWindow(n, FillOnesToRight(n));
  }

  // ---------------------------------------------------------------- the class

  /** The loop of calculateHeight: peak sizes are halved down to nothing and taken off where they fit. */
  function HeightLoop(peakSize: nat, height: nat): nat
    decreases peakSize
  {
    if peakSize == 0 then height
    else HeightLoop(peakSize / 2, if height >= peakSize then height - peakSize else height)
  }

  /** The loop of calculateLeafIndex: what the peaks still taken off add to the leaf number. */
  function LeafLoop(peakSize: nat, numLeft: nat): nat
    decreases peakSize
  {
    if peakSize == 0 then 0
    else if numLeft >= peakSize then (peakSize + 1) / 2 + LeafLoop(peakSize / 2, numLeft - peakSize)
    else LeafLoop(peakSize / 2, numLeft)
  }

  method CalculateHeight(position: nat) returns (height: nat)
    ensures height == HeightLoop(FillOnesToRight(position + 1), position)
  {
    height := HeightFrom(FillOnesToRight(position + 1), position);
  }

  method HeightFrom(largest: nat, position: nat) returns (height: nat)
    ensures height == HeightLoop(largest, position)
  {
    height := position;
    var peakSize := largest;
    ghost var answer := HeightLoop(peakSize, height);
    while peakSize != 0
      invariant HeightLoop(peakSize, height) == answer
      decreases peakSize
    {
      if height >= peakSize {
        height := height - peakSize;
      }
      peakSize := peakSize / 2;
    }
  }

  method CalculateLeafIndex(position: nat) returns (leafIndex: nat)
    ensures leafIndex == LeafLoop(FillOnesToRight(position), position)
  {
    leafIndex := LeafIndexFrom(FillOnesToRight(position), position);
  }

  lemma LeafLoopStep(peakSize: nat, numLeft: nat)
    requires peakSize != 0
    ensures numLeft >= peakSize ==> LeafLoop(peakSize, numLeft) == (peakSize + 1) / 2 + LeafLoop(peakSize / 2, numLeft - peakSize)
    ensures numLeft < peakSize ==> LeafLoop(peakSize, numLeft) == LeafLoop(peakSize / 2, numLeft)
  {
  }

  method LeafIndexFrom(largest: nat, position: nat) returns (leafIndex: nat)
    ensures leafIndex == LeafLoop(largest, position)
  {
    leafIndex := 0;
    var peakSize := largest;
    var numLeft := position;
    ghost var answer := LeafLoop(peakSize, numLeft);
    while peakSize != 0
      invariant leafIndex + LeafLoop(peakSize, numLeft) == answer
      decreases peakSize
    {
      LeafLoopStep(peakSize, numLeft);
      if numLeft >= peakSize {
        leafIndex := leafIndex + (peakSize + 1) / 2;
        numLeft := numLeft - peakSize;
      }
      peakSize := peakSize / 2;
    }
  }

  /** From an all-ones number on, both loops are the greedy one of peak_map_height. */
  lemma {:induction false} LoopsAreGreedy(j: nat, peakSize: nat, s: nat)
    requires peakSize == Pow2(j) - 1
    ensures (LeafLoop(peakSize, s), HeightLoop(peakSize, s)) == Greedy(j, s)
    decreases j
  {
    if j == 0 {
    } else {
      LoopsAreGreedy(j - 1, peakSize / 2, if s >= peakSize then s - peakSize else s);
    }
  }

  /** Two implementations, one height: on 64-bit positions the class agrees with bintree_postorder_height. */
  lemma LegacyHeightMeaning(position: nat)
    requires position + 1 < Pow2(WORD_BITS)
    ensures HeightLoop(FillOnesToRight(position + 1), position) == Height(position)
  {
    var b := BitLength(position + 1);
    FillMeaning(position + 1);
    BitLengthBounds(position + 1);
    LoopsAreGreedy(b, Pow2(b) - 1, position);
    GreedyHeight(b, position);
    HeightFits(b, position);
  }

  /** On 64-bit leaf positions the class agrees with pmmr_leaf_to_insertion_index. */
  lemma LegacyLeafMeaning(position: nat)
    requires position < Pow2(WORD_BITS) && Height(position) == 0
    ensures PmmrLeafToInsertionIndex(position) == Some(LeafLoop(FillOnesToRight(position), position))
  {
    var b := BitLength(position);
    FillMeaning(position);
    LoopsAreGreedy(b, Pow2(b) - 1, position);
    PeakMapHeightMeaning(position);
  }

  // ---------------------------------------------------------------- wider positions

  /** Bits of a number with `low` below its bits `2..k`. */
  lemma HoleBits(k: nat, low: nat, r: nat, j: nat)
    requires k >= 2 && low < 2 && r == low + 4 * (Pow2(k - 2) - 1)
    ensures Bit(r, j) == if j == 0 then low == 1 else 2 <= j < k
  {
    var x := 2 * (Pow2(k - 2) - 1);
    Halve(r, low, x);
    Halve(x, 0, Pow2(k - 2) - 1);
    if j >= 2 {
      BitStep(r, j - 1);
      BitStep(x, j - 2);
      OnesBit(k - 2, j - 2);
    } else {
      BitStep(r, 0);
      BitStep(x, 0);
    }
  }

  lemma SumBits(k: nat, low: nat, n: nat, j: nat)
    requires k > 0 && low < 2 && n == low + Pow2(k)
    ensures Bit(n, j) == (j == k || (j == 0 && low == 1))
  {
    Halve(n, low, Pow2(k - 1));
    if j == 0 {
      BitStep(n, 0);
    } else {
      BitStep(n, j - 1);
      PowerBit(k - 1, j - 1);
    }
  }

  /** A window over few bits sees them and nothing else. */
  lemma {:induction false} WindowOver(k: nat, low: nat, n: nat, lo: nat, w: nat)
    requires k > 0 && low < 2 && n == low + Pow2(k)
    ensures AnyBit(n, lo, w) == (lo <= k < lo + w || (lo == 0 < w && low == 1))
    decreases w
  {
    if w == 0 {
    } else {
      SumBits(k, low, n, lo);
      WindowOver(k, low, n, lo + 1, w - 1);
    }
  }

  /** Two bits further apart than the chain reaches leave a hole between them. */
  lemma FillLeavesHole(k: nat, low: nat, n: nat)
    requires k == 65 && low < 2 && n == low + Pow2(k)
    ensures FillOnesToRight(n) == low + 4 * (Pow2(k - 1) - 1)
  {
    var r := low + 4 * (Pow2(k - 1) - 1);
    FillWindow(n);
    Pow2Grows(0, k - 1);
    forall j: nat ensures Bit(FillOnesToRight(n), j) == Bit(r, j) {
      WindowOver(k, low, n, j, 64);
      HoleBits(k + 1, low, r, j);
    }
    SameBits(FillOnesToRight(n), r);
  }

  /** With two positions left, every smaller tree but the last is skipped. */
  lemma {:induction false} TwoLeft(j: nat)
    ensures j >= 1 ==> HeightLoop(Pow2(j) - 1, 2) == 1 && LeafLoop(Pow2(j) - 1, 2) == 1
    decreases j
  {
    if j <= 1 {
      assert Pow2(1) == 2;
    } else {
      TwoLeft(j - 1);
      Pow2Grows(1, j - 1);
    }
  }

  /** Past 64 bits the second implementation is wrong: position `2^65` is a leaf, and the class gives it height 1. */
  lemma WideHeightFails(k: nat, x: nat, p: nat, n: nat)
    requires k == 65 && x == Pow2(k - 1) && p == Pow2(k) && n == p + 1
    ensures Height(p) == 0 && HeightLoop(FillOnesToRight(n), p) == 1
  {
    FillLeavesHole(k, 1, n);
    WideValues(k, x, p);
    SecondLeaf(k - 1, x);
  }

  /** The leaf number the class gives it is one too low. */
  lemma WideLeafFails(k: nat, x: nat, p: nat)
    requires k == 65 && x == Pow2(k - 1) && p == Pow2(k)
    ensures LeafCount(p) == x + 1 && LeafLoop(FillOnesToRight(p), p) == x
  {
    FillLeavesHole(k, 0, p);
    WideValues(k, x, p);
    SecondLeaf(k - 1, x);
  }

  lemma WideValues(k: nat, x: nat, p: nat)
    requires k > 1 && x == Pow2(k - 1) && p == Pow2(k)
    ensures HeightLoop(1 + 4 * (x - 1), p) == 1 && LeafLoop(0 + 4 * (x - 1), p) == x
  {
    Pow2Grows(1, k - 1);
    assert 1 + 4 * (x - 1) == 4 * x - 3 && 0 + 4 * (x - 1) == 4 * x - 4;
    WideLoops(x, p);
    TwoLeft(k - 1);
  }

  /** The second leaf after a full tree. */
  lemma SecondLeaf(m: nat, x: nat)
    requires m > 0 && x == Pow2(m)
    ensures Height(2 * x) == 0 && LeafCount(2 * x) == x + 1
  {
    Pow2Grows(1, m);
    LeafPosSplit(m, 1);
    assert Popcount(1) == 1;
    LeafPosMeaning(x + 1);
  }

  lemma WideLoops(x: nat, p: nat)
    requires x > 1 && p == 2 * x
    ensures HeightLoop(4 * x - 3, p) == HeightLoop(x - 1, 2)
    ensures LeafLoop(4 * x - 4, p) == x - 1 + LeafLoop(x - 1, 2)
  {
    assert (4 * x - 3) / 2 == 2 * x - 2 && (2 * x - 2) / 2 == x - 1;
    assert HeightLoop(4 * x - 3, p) == HeightLoop(2 * x - 2, p) == HeightLoop(x - 1, 2);
    assert LeafLoop(4 * x - 4, p) == LeafLoop(2 * x - 2, p);
    assert (2 * x - 2 + 1) / 2 == x - 1;
  }

  /** A position with its height. */
  datatype MMRIndex = MMRIndex(position: nat, height: nat) {

    static function At(position: nat): MMRIndex {
      MMRIndex(position, Height(position))
    }

    predicate Proper() {
      height == Height(position)
    }

    function GetParent(): MMRIndex {
      if Height(position + 1) == height + 1 then MMRIndex(position + 1, height + 1)
      else MMRIndex(position + Pow2(height + 1), height + 1)
    }

    /** The left-child branch answers with the parent's height, as the source does. */
    function GetSibling(): MMRIndex
      requires Proper()
    {
      FamilyFacts(position);
      if Height(position + 1) == height + 1 then MMRIndex(position + 1 - Pow2(height + 1), height)
      else MMRIndex(position + Pow2(height + 1) - 1, height + 1)
    }

    function GetLeftChild(): MMRIndex
      requires Proper() && height > 0
    {
      Children(position);
      MMRIndex(position - Pow2(height), height - 1)
    }

    function GetRightChild(): MMRIndex
      requires Proper() && height > 0
    {
      Children(position);
      MMRIndex(position - 1, height - 1)
    }
  }

  /** getParent is the parent family names, at its true height, and is the parent of both its children. */
  lemma ParentMeaning(x: MMRIndex)
    requires x.Proper()
    ensures x.GetParent() == MMRIndex.At(Family(x.position).0)
    ensures x == x.GetParent().GetLeftChild() || x == x.GetParent().GetRightChild()
  {
    FamilyFacts(x.position);
    FamilyMeaning(x.position);
  }

  /** getSibling names the right position always, and the right height exactly for right children. */
  lemma SiblingMeaning(x: MMRIndex)
    requires x.Proper()
    ensures x.GetSibling().position == Family(x.position).1
    ensures x.GetSibling().Proper() <==> !IsLeftSibling(x.position)
  {
    FamilyFacts(x.position);
    FamilyMeaning(x.position);
  }

  /** The two children of a node are each other's siblings and name it as their parent. */
  lemma ChildrenMeaning(x: MMRIndex)
    requires x.Proper() && x.height > 0
    ensures x.GetLeftChild().Proper() && x.GetRightChild().Proper()
    ensures x.GetLeftChild().GetParent() == x && x.GetRightChild().GetParent() == x
  {
    Children(x.position);
    var r := x.GetRightChild();
    FamilyMeaning(r.position);
    ParentMeaning(r);
    ParentMeaning(x.GetLeftChild());
    assert Family(r.position).0 == x.position;
    assert Family(r.position).1 == x.GetLeftChild().position;
  }
}
