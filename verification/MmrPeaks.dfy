/** peaks and family_branch of mimblewimble/mmr/index.py. */
module MmrPeaks {
  import opened Bits
  import opened PostOrder
  import opened MmrIndex

  // ---------------------------------------------------------------- peaks

  /** The largest all-ones number not above `s`. */
  function LargestTree(s: nat): (t: nat)
    requires s > 0
    ensures 0 < t <= s
  {
    BitLengthBounds(s);
    if Pow2(BitLength(s)) - 1 > s then Pow2(BitLength(s) - 1) - 1 else Pow2(BitLength(s)) - 1
  }

  /** Peaks of `s` nodes laid out from position `base` on. */
  function PeaksFrom(base: nat, s: nat): seq<nat>
    decreases s
  {
    if s == 0 then [] else
      var t := LargestTree(s);
      [base + t - 1] + PeaksFrom(base + t, s - t)
  }

  function Peaks(mmrSize: nat): seq<nat> {
    PeaksFrom(0, mmrSize)
  }

  /** Peaks lie inside the range they are the peaks of, mid-merge sizes included. */
  lemma {:induction false} PeaksWithin(base: nat, s: nat, i: nat)
    requires i < |PeaksFrom(base, s)|
    ensures base <= PeaksFrom(base, s)[i] < base + s
    decreases s
  {
    if i == 0 {
    } else {
      var t := LargestTree(s);
      PeaksWithin(base + t, s - t, i - 1);
    }
  }

  lemma PrependPeak(found: seq<nat>, base: nat, s: nat)
    requires s > 0
    ensures var t := LargestTree(s);
            found + PeaksFrom(base, s) == (found + [base + t - 1]) + PeaksFrom(base + t, s - t)
  {
  }

  method ComputePeaks(mmrSize: nat) returns (result: seq<nat>)
    ensures result == Peaks(mmrSize)
  {
    if mmrSize == 0 {
      return [];
    }
    result := [];
    var s: nat := mmrSize;
    var peakPos: nat := 0;
    while s > 0
      invariant result + PeaksFrom(peakPos, s) == Peaks(mmrSize)
    {
      var subtreeSize := LargestThatFits(s);
      PrependPeak(result, peakPos, s);
      peakPos := peakPos + subtreeSize;
      result := result + [peakPos - 1];
      s := s - subtreeSize;
    }
  }

  /** The inner loop: the largest all-ones number that fits. */
  method LargestThatFits(s: nat) returns (subtreeSize: nat)
    requires s > 0
    ensures subtreeSize == LargestTree(s)
  {
    var b := BitLength(s);
    subtreeSize := Pow2(b) - 1;
    BitLengthBounds(s);
    while subtreeSize > s
      invariant 0 < b <= BitLength(s)
      invariant subtreeSize == Pow2(b) - 1
      invariant b == BitLength(s) || (b == BitLength(s) - 1 && Pow2(b + 1) - 1 > s)
      decreases b
    {
      b := b - 1;
      subtreeSize := Pow2(b) - 1;
    }
  }

  /** The mountains over `n` leaves: the tallest tree first, then the mountains over the rest. */
  function Mountains(n: nat): seq<nat> {
    if n == 0 then [] else
      var k := TopBit(n);
      [TreeSize(k) - 1] + Shifted(Mountains(n - Pow2(k)), TreeSize(k))
  }

  function Shifted(s: seq<nat>, d: nat): seq<nat> {
    seq(|s|, i requires 0 <= i < |s| => s[i] + d)
  }

  lemma LargestTreeOfValid(n: nat)
    requires n > 0
    ensures InsertionToPmmrIndex(n) > 0
    ensures LargestTree(InsertionToPmmrIndex(n)) == TreeSize(TopBit(n))
  {
    var k := TopBit(n);
    var s := InsertionToPmmrIndex(n);
    LeafPosSplit(k, n - Pow2(k));
    if s == TreeSize(k) {
      BitLengthUnique(s, k);
    } else {
      BitLengthUnique(s, k + 1);
    }
  }

  lemma ShiftedAgain(first: nat, rest: seq<nat>, d: nat, base: nat)
    ensures Shifted([first] + Shifted(rest, d), base) == [base + first] + Shifted(rest, base + d)
  {
  }

  lemma ShiftedMountains(n: nat, k: nat, m: nat, t: nat, base: nat)
    requires n > 0 && k == TopBit(n) && n == m + Pow2(k) && t == TreeSize(k)
    ensures Shifted(Mountains(n), base) == [base + t - 1] + Shifted(Mountains(m), base + t)
  {
    ShiftedAgain(t - 1, Mountains(m), t, base);
  }

  lemma PeaksFromStep(base: nat, s: nat, t: nat, rest: nat)
    requires s > 0 && t == LargestTree(s) && s == t + rest
    ensures PeaksFrom(base, s) == [base + t - 1] + PeaksFrom(base + t, rest)
  {
  }

  lemma {:induction false} PeaksFromMountains(base: nat, n: nat)
    ensures PeaksFrom(base, InsertionToPmmrIndex(n)) == Shifted(Mountains(n), base)
    decreases n
  {
    if n == 0 {
    } else {
      var k, m := TopBit(n), n - Pow2(TopBit(n));
      var s, t := InsertionToPmmrIndex(n), TreeSize(k);
      LargestTreeOfValid(n);
      LeafPosSplit(k, m);
      PeaksFromMountains(base + t, m);
      PeaksFromStep(base, s, t, InsertionToPmmrIndex(m));
      ShiftedMountains(n, k, m, t, base);
    }
  }

  lemma PeaksAreMountains(n: nat)
    ensures Peaks(InsertionToPmmrIndex(n)) == Mountains(n)
  {
    PeaksFromMountains(0, n);
  }

  /** First position of the subtree of peak number `i`. */
  function StartOf(peaks: seq<nat>, i: nat): nat
    requires i <= |peaks|
  {
    if i == 0 then 0 else peaks[i - 1] + 1
  }

  /** `p` ends the largest full tree of positions that starts at `start` and stays below `size`. */
  ghost predicate EndsLargest(start: nat, p: nat, size: nat) {
    exists k: nat :: EndsTree(start, p, size, k)
  }

  ghost predicate EndsTree(start: nat, p: nat, size: nat, k: nat) {
    k > 0 && p + 2 == start + Pow2(k) && p < size && size + 1 < start + Pow2(k + 1)
  }

  /** The peaks cut the positions below `size` from the left, the largest tree first. */
  ghost predicate CutGreedily(size: nat, peaks: seq<nat>) {
    && StartOf(peaks, |peaks|) == size
    && forall i :: 0 <= i < |peaks| ==> PeakEndsLargest(size, peaks, i)
  }

  ghost predicate PeakEndsLargest(size: nat, peaks: seq<nat>, i: nat)
    requires i < |peaks|
  {
    EndsLargest(StartOf(peaks, i), peaks[i], size)
  }

  lemma LargestIs(s: nat, k: nat)
    requires k > 0 && Pow2(k) - 1 <= s < Pow2(k + 1) - 1
    ensures s > 0 && LargestTree(s) == Pow2(k) - 1
  {
    assert Pow2(k) == 2 * Pow2(k - 1);
    if Pow2(k) <= s { BitLengthUnique(s, k); } else { BitLengthUnique(s, k - 1); }
  }

  lemma SomeLargest(s: nat) returns (k: nat)
    requires s > 0
    ensures k > 0 && Pow2(k) - 1 <= s < Pow2(k + 1) - 1
  {
    k := BitLength(s);
    BitLengthBounds(s);
    assert Pow2(k + 1) == 2 * Pow2(k);
    if Pow2(k) - 1 > s {
      assert k != 1 by { assert Pow2(1) == 2; }
      k := k - 1;
    }
  }

  lemma LargestEnds(start: nat, p: nat, size: nat)
    requires start < size
    ensures EndsLargest(start, p, size) <==> p + 1 == start + LargestTree(size - start)
  {
    if EndsLargest(start, p, size) {
      var k: nat :| EndsTree(start, p, size, k);
      LargestIs(size - start, k);
    }
    if p + 1 == start + LargestTree(size - start) {
      var k := SomeLargest(size - start);
      LargestIs(size - start, k);
      assert EndsTree(start, p, size, k);
    }
  }

  lemma PeaksFromHead(base: nat, size: nat, p: nat)
    requires base < size && p + 1 == base + LargestTree(size - base)
    ensures p < size && PeaksFrom(base, size - base) == [p] + PeaksFrom(p + 1, size - (p + 1))
  {
  }

  lemma EndsBelow(start: nat, p: nat, size: nat)
    requires EndsLargest(start, p, size)
    ensures start <= p < size
  {
    var k: nat :| EndsTree(start, p, size, k);
    assert Pow2(k) == 2 * Pow2(k - 1);
  }

  lemma {:induction false} GreedyTail(size: nat, peaks: seq<nat>, i: nat)
    requires CutGreedily(size, peaks) && i <= |peaks|
    ensures StartOf(peaks, i) <= size
    ensures peaks[i..] == PeaksFrom(StartOf(peaks, i), size - StartOf(peaks, i))
    decreases |peaks| - i
  {
    if i == |peaks| {
    } else {
      var start, p := StartOf(peaks, i), peaks[i];
      assert PeakEndsLargest(size, peaks, i);
      EndsBelow(start, p, size);
      LargestEnds(start, p, size);
      PeaksFromHead(start, size, p);
      GreedyTail(size, peaks, i + 1);
      assert peaks[i + 1..] == PeaksFrom(p + 1, size - (p + 1));
      assert peaks[i..] == [p] + peaks[i + 1..];
    }
  }

  lemma {:induction false} TailGreedy(size: nat, peaks: seq<nat>, i: nat)
    requires peaks == Peaks(size) && i <= |peaks|
    ensures StartOf(peaks, i) <= size
    ensures peaks[i..] == PeaksFrom(StartOf(peaks, i), size - StartOf(peaks, i))
  {
    if i == 0 {
      assert peaks[0..] == peaks;
    } else {
      TailGreedy(size, peaks, i - 1);
      assert peaks[i - 1..][1..] == peaks[i..] && peaks[i - 1..][0] == peaks[i - 1];
    }
  }

  /** For every size, valid or not, the peaks are the one greedy cut. */
  lemma PeaksExact(size: nat, peaks: seq<nat>)
    ensures peaks == Peaks(size) <==> CutGreedily(size, peaks)
  {
    if CutGreedily(size, peaks) {
      GreedyTail(size, peaks, 0);
      assert peaks[0..] == peaks;
    }
    if peaks == Peaks(size) {
      TailGreedy(size, peaks, |peaks|);
      forall i | 0 <= i < |peaks| ensures PeakEndsLargest(size, peaks, i) {
        TailGreedy(size, peaks, i);
        assert peaks[i..][0] == peaks[i];
        LargestEnds(StartOf(peaks, i), peaks[i], size);
      }
    }
  }

  function Heights(peaks: seq<nat>): seq<nat> {
    seq(|peaks|, i requires 0 <= i < |peaks| => Height(peaks[i]))
  }

  function SumPow2(hs: seq<nat>): nat {
    if hs == [] then 0 else Pow2(hs[0]) + SumPow2(hs[1..])
  }

  /** The peaks cut `[0, size)` into full subtrees of strictly decreasing height, one per bit of `n`. */
  ghost predicate Partition(n: nat, peaks: seq<nat>) {
    && StartOf(peaks, |peaks|) == InsertionToPmmrIndex(n)
    && (forall i :: 0 <= i < |peaks| ==> StartOf(peaks, i) == peaks[i] + 1 - TreeSize(Height(peaks[i])))
    && (forall i, j :: 0 <= i < j < |peaks| ==> Height(peaks[i]) > Height(peaks[j]))
    && SumPow2(Heights(peaks)) == n
    && |peaks| == Popcount(n)
  }

  lemma {:induction false} MountainsBelow(n: nat, i: nat)
    requires i < |Mountains(n)|
    ensures Mountains(n)[i] < InsertionToPmmrIndex(n)
    decreases n
  {
    var k := TopBit(n);
    LeafPosSplit(k, n - Pow2(k));
    if i == 0 {
    } else {
      MountainsBelow(n - Pow2(k), i - 1);
    }
  }

  /** Heights survive the shift past the tallest tree. */
  lemma MountainHeight(n: nat, i: nat)
    requires n > 0 && i < |Mountains(n)|
    ensures Height(Mountains(n)[i]) ==
            if i == 0 then TopBit(n) else Height(Mountains(n - Pow2(TopBit(n)))[i - 1])
  {
    var k := TopBit(n);
    if i == 0 {
      HeightOfRoot(k);
    } else {
      var m := n - Pow2(k);
      MountainsBelow(m, i - 1);
      LeafPosSplit(k, m);
      HeightShift(k, Mountains(m)[i - 1]);
    }
  }

  lemma MountainHeightsList(n: nat)
    requires n > 0
    ensures Heights(Mountains(n)) == [TopBit(n)] + Heights(Mountains(n - Pow2(TopBit(n))))
  {
    forall i | 0 <= i < |Mountains(n)|
      ensures Heights(Mountains(n))[i] == ([TopBit(n)] + Heights(Mountains(n - Pow2(TopBit(n)))))[i]
    {
      MountainHeight(n, i);
    }
  }

  lemma {:induction false} MountainsLower(n: nat, i: nat)
    requires i < |Mountains(n)|
    ensures Pow2(Height(Mountains(n)[i])) <= n
    decreases n
  {
    MountainHeight(n, i);
    if i == 0 {
    } else {
      MountainsLower(n - Pow2(TopBit(n)), i - 1);
    }
  }

  lemma LowerThan(h: nat, n: nat, k: nat)
    requires Pow2(h) <= n < Pow2(k)
    ensures h < k
  {
    if k <= h { Pow2Grows(k, h); }
  }

  ghost predicate Descending(hs: seq<nat>) {
    forall i, j :: 0 <= i < j < |hs| ==> hs[i] > hs[j]
  }

  lemma DescendingOnto(k: nat, rest: seq<nat>)
    requires Descending(rest) && forall j :: 0 <= j < |rest| ==> rest[j] < k
    ensures Descending([k] + rest)
  {
  }

  lemma {:induction false} HeightsDescend(n: nat)
    ensures Descending(Heights(Mountains(n)))
    decreases n
  {
    if n == 0 {
      assert Mountains(n) == [];
    } else {
      var k, m := TopBit(n), n - Pow2(TopBit(n));
      var rest := Heights(Mountains(m));
      HeightsDescend(m);
      MountainHeightsList(n);
      forall j | 0 <= j < |rest| ensures rest[j] < k {
        LowerThanTop(m, k, j);
      }
      DescendingOnto(k, rest);
    }
  }

  lemma LowerThanTop(m: nat, k: nat, j: nat)
    requires m < Pow2(k) && j < |Heights(Mountains(m))|
    ensures Heights(Mountains(m))[j] < k
  {
    MountainsLower(m, j);
    HeightListed(Mountains(m), j);
    LowerThan(Heights(Mountains(m))[j], m, k);
  }

  lemma MountainsDescend(n: nat, i: nat, j: nat)
    requires i < j < |Mountains(n)|
    ensures Height(Mountains(n)[i]) > Height(Mountains(n)[j])
  {
    HeightsDescend(n);
    HeightListed(Mountains(n), i);
    HeightListed(Mountains(n), j);
  }

  lemma HeightListed(ps: seq<nat>, i: nat)
    requires i < |ps|
    ensures Heights(ps)[i] == Height(ps[i])
  {
  }

  lemma {:induction false} MountainStart(n: nat, i: nat)
    requires i < |Mountains(n)|
    ensures StartOf(Mountains(n), i) == Mountains(n)[i] + 1 - TreeSize(Height(Mountains(n)[i]))
    decreases n
  {
    MountainHeight(n, i);
    if i == 0 {
    } else {
      MountainStart(n - Pow2(TopBit(n)), i - 1);
    }
  }

  lemma {:induction false} MountainHeightSum(n: nat)
    ensures SumPow2(Heights(Mountains(n))) == n
  {
    if n == 0 {
    } else {
      MountainHeightSum(n - Pow2(TopBit(n)));
      MountainHeightsList(n);
    }
  }

  lemma {:induction false} MountainCount(n: nat)
    ensures |Mountains(n)| == Popcount(n)
    decreases n
  {
    if n == 0 {
    } else {
      var k := TopBit(n);
      MountainCount(n - Pow2(k));
      PopcountTopBit(k, n - Pow2(k));
    }
  }

  lemma EndOfShifted(first: nat, rest: seq<nat>, d: nat)
    ensures var ps := [first] + Shifted(rest, d);
            StartOf(ps, |ps|) == if rest == [] then first + 1 else StartOf(rest, |rest|) + d
  {
  }

  lemma {:induction false} MountainEnd(n: nat)
    ensures StartOf(Mountains(n), |Mountains(n)|) == InsertionToPmmrIndex(n)
    decreases n
  {
    if n == 0 {
    } else {
      var k := TopBit(n);
      var m := n - Pow2(k);
      MountainEnd(m);
      LeafPosSplit(k, m);
      EndOfShifted(TreeSize(k) - 1, Mountains(m), TreeSize(k));
      if m > 0 { assert Mountains(m)[0] == TreeSize(TopBit(m)) - 1; }
    }
  }

  lemma MountainStarts(n: nat, ps: seq<nat>)
    requires ps == Mountains(n)
    ensures forall i :: 0 <= i < |ps| ==> StartOf(ps, i) == ps[i] + 1 - TreeSize(Height(ps[i]))
    ensures forall i, j :: 0 <= i < j < |ps| ==> Height(ps[i]) > Height(ps[j])
  {
    forall i | 0 <= i < |ps| ensures StartOf(ps, i) == ps[i] + 1 - TreeSize(Height(ps[i])) {
      MountainStart(n, i);
    }
    forall i, j | 0 <= i < j < |ps| ensures Height(ps[i]) > Height(ps[j]) {
      MountainsDescend(n, i, j);
    }
  }

  lemma MountainPartition(n: nat)
    ensures Partition(n, Mountains(n))
  {
    MountainEnd(n);
    MountainCount(n);
    MountainHeightSum(n);
    MountainStarts(n, Mountains(n));
    IsPartition(n, Mountains(n));
  }

  lemma IsPartition(n: nat, ps: seq<nat>)
    requires StartOf(ps, |ps|) == InsertionToPmmrIndex(n) && SumPow2(Heights(ps)) == n && |ps| == Popcount(n)
    requires forall i :: 0 <= i < |ps| ==> StartOf(ps, i) == ps[i] + 1 - TreeSize(Height(ps[i]))
    requires forall i, j :: 0 <= i < j < |ps| ==> Height(ps[i]) > Height(ps[j])
    ensures Partition(n, ps)
  {
  }

  lemma PeaksPartition(n: nat)
    ensures Partition(n, Peaks(InsertionToPmmrIndex(n)))
    ensures PeakMapHeight(InsertionToPmmrIndex(n)) == (n, 0)
  {
    PeaksAreMountains(n);
    MountainPartition(n);
    PeakMapOfValid(n);
  }

  lemma PeakMapOfValid(n: nat)
    ensures PeakMapHeight(InsertionToPmmrIndex(n)) == (n, 0)
  {
    PeakMapHeightMeaning(InsertionToPmmrIndex(n));
    LeafPosMeaning(n);
  }

  // ---------------------------------------------------------------- branches

  /** (parent, sibling) pairs from `pos0` up to its peak among the first `mmrSize` positions. */
  function FamilyBranch(pos0: nat, mmrSize: nat): seq<(nat, nat)>
    decreases mmrSize - pos0
  {
    var r := Family(pos0);
    if r.0 >= mmrSize then [] else [r] + FamilyBranch(r.0, mmrSize)
  }

  lemma PrependStep(found: seq<(nat, nat)>, p: nat, mmrSize: nat)
    requires Family(p).0 < mmrSize
    ensures found + FamilyBranch(p, mmrSize) == (found + [Family(p)]) + FamilyBranch(Family(p).0, mmrSize)
  {
  }

  method ComputeFamilyBranch(pos0: nat, mmrSize: nat) returns (branch: seq<(nat, nat)>)
    ensures branch == FamilyBranch(pos0, mmrSize)
  {
    branch := [];
    var current: nat := pos0;
    while true
      invariant branch + FamilyBranch(current, mmrSize) == FamilyBranch(pos0, mmrSize)
      decreases mmrSize - current
    {
      var h := Height(current);
      var siblingOffset := Pow2(h + 1) - 1;
      var sibling, parent: nat;
      if Height(current + 1) > h {
        RightFamily(current, h);
        sibling := current - siblingOffset;
        parent := current + 1;
      } else {
        LeftFamily(current, h);
        sibling := current + siblingOffset;
        parent := current + siblingOffset + 1;
      }
      assert (parent, sibling) == Family(current);
      if parent >= mmrSize {
        break;
      }
      PrependStep(branch, current, mmrSize);
      branch := branch + [(parent, sibling)];
      current := parent;
    }
  }

  /** The position a branch ends at. */
  function BranchEnd(pos0: nat, mmrSize: nat): (e: nat)
    ensures FamilyBranch(pos0, mmrSize) == [] ==> e == pos0
    ensures var b := FamilyBranch(pos0, mmrSize); b != [] ==> e == b[|b| - 1].0
    ensures pos0 < mmrSize ==> e < mmrSize
    ensures pos0 <= e && Family(e).0 >= mmrSize
    decreases mmrSize - pos0
  {
    var parent := Family(pos0).0;
    if parent >= mmrSize then pos0 else BranchEnd(parent, mmrSize)
  }

  /** A family inside the left half of a tree reappears, shifted, in the right half. */
  lemma FamilyShift(k: nat, q: nat)
    requires q + 1 < TreeSize(k)
    ensures Family(TreeSize(k) + q).0 == TreeSize(k) + Family(q).0
    ensures Family(q).0 < TreeSize(k)
  {
    var h := Height(q);
    HeightShift(k, q);
    HeightShift(k, q + 1);
    FamilyIn(k, q);
    HeightFits(k, q);
    HeightFits(k, q + 1);
  }

  /** Among the nodes of a valid size, only the peaks have no parent yet. */
  lemma {:induction false} ParentlessIsPeak(n: nat, q: nat)
    requires q < InsertionToPmmrIndex(n) <= Family(q).0
    ensures q in Mountains(n)
    decreases n
  {
    var k := TopBit(n);
    var m := n - Pow2(k);
    LeafPosSplit(k, m);
    if q + 1 < TreeSize(k) {
      FamilyShift(k, q);
    } else if q + 1 == TreeSize(k) {
      assert Mountains(n)[0] == q;
    } else {
      FamilyShift(k, q - TreeSize(k));
      ParentlessIsPeak(m, q - TreeSize(k));
      var i :| 0 <= i < |Mountains(m)| && Mountains(m)[i] == q - TreeSize(k);
      assert Mountains(n)[i + 1] == q;
    }
  }

  /** Every step up a branch widens the range; the start stays inside it. */
  lemma {:induction false} BranchRange(p: nat, mmrSize: nat)
    ensures var e := BranchEnd(p, mmrSize); BintreeRange(e).0 <= BintreeRange(p).0 && p <= e
    decreases mmrSize - p
  {
    var parent := Family(p).0;
    if parent >= mmrSize {
    } else {
      RangeOfParent(p);
      BranchRange(parent, mmrSize);
    }
  }

  /** A branch inside a valid size terminates at exactly the peak whose range holds its start. */
  lemma BranchEndsAtPeak(n: nat, p: nat)
    requires p < InsertionToPmmrIndex(n)
    ensures var e := BranchEnd(p, InsertionToPmmrIndex(n));
            && e in Peaks(InsertionToPmmrIndex(n))
            && BintreeRange(e).0 <= p < BintreeRange(e).1
  {
    var e := BranchEnd(p, InsertionToPmmrIndex(n));
    ParentlessIsPeak(n, e);
    PeaksAreMountains(n);
    BranchRange(p, InsertionToPmmrIndex(n));
  }
}
