/** The root binds the leaves, their number included. */
module Binding {
  import opened Bits
  import opened PostOrder
  import opened MmrIndex
  import opened MmrPeaks
  import opened Hashing

  /** One position short of a full tree of height at least one is never a valid size. */
  lemma NoSizeBeforePeak(m: nat, k: nat)
    ensures k >= 2 ==> MmrSize(m) != Pow2(k) - 2
  {
    if k >= 2 {
      HeightOfRoot(k - 1);
      LeafPosMeaning(m);
    }
  }

  /** A size one short of a single tree's can only be the size of the empty range. */
  lemma NoSizeBeforeTree(m: nat, n: nat)
    requires MmrSize(m) + 1 == MmrSize(n)
    ensures |Peaks(MmrSize(n))| == 1 ==> m == 0
  {
    if n > 0 {
      SingleTree(n, TopBit(n));
      NoSizeBeforePeak(m, TopBit(n) + 1);
      LeafPosMeaning(m);
      assert Pow2(0) == 1;
    }
  }

  lemma SingleTree(n: nat, k: nat)
    requires n > 0 && k == TopBit(n)
    ensures |Peaks(MmrSize(n))| == 1 ==> MmrSize(n) == Pow2(k + 1) - 1
  {
    PeaksAreMountains(n);
    MountainEnd(n);
  }

  lemma SizeInjective(m: nat, n: nat)
    requires MmrSize(m) == MmrSize(n)
    ensures m == n
  {
    LeafPosMeaning(m);
    LeafPosMeaning(n);
  }

  /**
    The root binds the whole leaf sequence, its length included: equal roots mean equal leaves,
    unless two inputs hashed for the two roots collide or one of them hashes to 32 zero bytes.
  */
  lemma RootBinding(H: HashFn, A: seq<Bytes>, B: seq<Bytes>)
    ensures Root(H, A) == Root(H, B) ==>
              || A == B
              || Collide(H, RootInputs(H, A), RootInputs(H, B))
              || HitsZero(H, RootInputs(H, A) + RootInputs(H, B))
  {
    var X, Y := RootInputs(H, A), RootInputs(H, B);
    if Root(H, A) == Root(H, B) && !Collide(H, X, Y) && !HitsZero(H, X + Y) {
      if |A| == |B| && A != [] {
        SomePeak(|A|);
        var size := MmrSize(|A|);
        CollideGrows(H, BagInputs(H, size, PeakHashes(H, A)), BagInputs(H, size, PeakHashes(H, B)), X, Y);
        CollideGrows(H, NodeInputs(H, A), NodeInputs(H, B), X, Y);
        BagBinding(H, size, PeakHashes(H, A), PeakHashes(H, B));
        SamePeaksBinding(H, A, B);
      } else if A == [] && B != [] {
        var y := LastInput(H, B);
        ZeroHit(H, X + Y, y);
      } else if B == [] && A != [] {
        var x := LastInput(H, A);
        ZeroHit(H, X + Y, x);
      } else if A != [] {
        var x := LastInput(H, A);
        var y := LastInput(H, B);
        SameInput(H, X, Y, x, y);
        SizesClash(|A|, |B|, x.0);
      }
    }
  }

  lemma ZeroHit(H: HashFn, X: set<Input>, x: Input)
    requires x in X && H(x.0, x.1) == ZERO
    ensures HitsZero(H, X)
  {
  }

  lemma SizesClash(m: nat, n: nat, i: nat)
    requires m > 0 && n > 0
    requires i == MmrSize(m) || (i == MmrSize(m) - 1 && |Peaks(MmrSize(m))| == 1)
    requires i == MmrSize(n) || (i == MmrSize(n) - 1 && |Peaks(MmrSize(n))| == 1)
    ensures m == n
  {
    if MmrSize(m) == MmrSize(n) {
      SizeInjective(m, n);
    } else if MmrSize(m) < MmrSize(n) {
      NoSizeBeforeTree(m, n);
    } else {
      NoSizeBeforeTree(n, m);
    }
  }
}
