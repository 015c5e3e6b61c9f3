/**
  What a PMMR commits to: the hash of every node of the forest over a leaf sequence, and the
  root that bags the peaks. The hash function is an arbitrary parameter, so every statement
  about it either holds outright or names two of the inputs actually hashed that collide.
*/
module Hashing {
  import opened Bits
  import opened PostOrder
  import opened MmrIndex
  import opened MmrPeaks

  type Byte = b: nat | b < 256
  type Bytes = seq<Byte>

  const HASH_SIZE: nat := 32

  const ZERO_BYTES: Bytes :=
    [0, 0, 0, 0, 0, 0, 0, 0, 0, 0, 0, 0, 0, 0, 0, 0,
     0, 0, 0, 0, 0, 0, 0, 0, 0, 0, 0, 0, 0, 0, 0, 0]

  type Digest = d: Bytes | |d| == HASH_SIZE witness ZERO_BYTES

  const ZERO: Digest := ZERO_BYTES

  /** hash_with_index: any function from a position and some data to 32 bytes. */
  type HashFn = (nat, Bytes) -> Digest
  type Input = (nat, Bytes)

  function MmrSize(n: nat): nat {
    InsertionToPmmrIndex(n)
  }

  // ---------------------------------------------------------------- hashes of nodes

  lemma LeafInRange(n: nat, p: nat)
    requires p < MmrSize(n)
    ensures LeafCount(p + 1) <= n
    ensures Height(p) == 0 ==> LeafCount(p) < n
  {
    LeafPosMeaning(n);
    LeafCountGrows(p + 1, MmrSize(n));
    LeafCountStep(p);
  }

  /** What is hashed at position `p`: the leaf itself, or the hashes of the two children. */
  function NodeInput(H: HashFn, leaves: seq<Bytes>, p: nat): Input
    requires p < MmrSize(|leaves|)
    decreases p, 0
  {
    if Height(p) == 0 then
      LeafInRange(|leaves|, p);
      (p, leaves[LeafCount(p)])
    else
      Children(p);
      (p, NodeHash(H, leaves, p - Pow2(Height(p))) + NodeHash(H, leaves, p - 1))
  }

  function NodeHash(H: HashFn, leaves: seq<Bytes>, p: nat): Digest
    requires p < MmrSize(|leaves|)
    decreases p, 1
  {
    var x := NodeInput(H, leaves, p);
    H(x.0, x.1)
  }

  function NodeHashes(H: HashFn, leaves: seq<Bytes>): seq<Digest> {
    seq(MmrSize(|leaves|), p requires 0 <= p < MmrSize(|leaves|) => NodeHash(H, leaves, p))
  }

  lemma SizeGrows(m: nat, n: nat)
    requires m <= n
    ensures MmrSize(m) <= MmrSize(n)
  {
    if m < n { LeafPosGrows(m, n); }
  }

  /** Appending leaves changes no hash that was there before. */
  lemma {:induction false} NodeHashStable(H: HashFn, leaves: seq<Bytes>, more: seq<Bytes>, p: nat)
    requires p < MmrSize(|leaves|) && p < MmrSize(|leaves + more|)
    ensures NodeInput(H, leaves + more, p) == NodeInput(H, leaves, p)
    ensures NodeHash(H, leaves + more, p) == NodeHash(H, leaves, p)
    decreases p
  {
    var h := Height(p);
    if h == 0 {
      LeafInRange(|leaves|, p);
    } else {
      Children(p);
      NodeHashStable(H, leaves, more, p - Pow2(h));
      NodeHashStable(H, leaves, more, p - 1);
    }
  }

  // ---------------------------------------------------------------- bagging

  /** Peaks are bagged from the right: every step hashes a peak with what is bagged to its right. */
  function Bag(H: HashFn, size: nat, hs: seq<Digest>): Digest
    requires |hs| > 0
  {
    if |hs| == 1 then hs[0] else H(size, hs[0] + Bag(H, size, hs[1..]))
  }

  lemma BagStep(H: HashFn, size: nat, hs: seq<Digest>, k: nat)
    requires k < |hs|
    ensures k + 1 == |hs| ==> Bag(H, size, hs[k..]) == hs[k]
    ensures k + 1 < |hs| ==> (var left: Bytes := hs[k]; Bag(H, size, hs[k..]) == H(size, left + Bag(H, size, hs[k + 1..])))
  {
    assert hs[k..][1..] == hs[k + 1..];
  }

  /** The same, with the peak's hash and what is bagged to its right named. */
  lemma BagOnto(H: HashFn, size: nat, hs: seq<Digest>, k: nat, left: Bytes, right: Bytes)
    requires k + 1 < |hs| && left == hs[k] && right == Bag(H, size, hs[k + 1..])
    ensures H(size, left + right) == Bag(H, size, hs[k..])
  {
    BagStep(H, size, hs, k);
  }

  lemma PeaksInRange(size: nat)
    ensures forall i :: 0 <= i < |Peaks(size)| ==> Peaks(size)[i] < size
  {
    forall i | 0 <= i < |Peaks(size)| ensures Peaks(size)[i] < size {
      PeaksWithin(0, size, i);
    }
  }

  function HashesAt(H: HashFn, leaves: seq<Bytes>, ps: seq<nat>): (hs: seq<Digest>)
    requires forall i :: 0 <= i < |ps| ==> ps[i] < MmrSize(|leaves|)
    ensures |hs| == |ps|
  {
    seq(|ps|, i requires 0 <= i < |ps| => NodeHash(H, leaves, ps[i]))
  }

  function PeakHashes(H: HashFn, leaves: seq<Bytes>): (hs: seq<Digest>)
    ensures |hs| == |Peaks(MmrSize(|leaves|))|
  {
    PeaksInRange(MmrSize(|leaves|));
    HashesAt(H, leaves, Peaks(MmrSize(|leaves|)))
  }

  lemma SomePeak(n: nat)
    requires n > 0
    ensures MmrSize(n) > 0
    ensures |Peaks(MmrSize(n))| > 0
  {
    PeaksAreMountains(n);
    LeafPosSplit(TopBit(n), n - Pow2(TopBit(n)));
  }

  /** The root over a leaf sequence; 32 zero bytes when there is no leaf. */
  function Root(H: HashFn, leaves: seq<Bytes>): Digest {
    if leaves == [] then ZERO else
      SomePeak(|leaves|);
      Bag(H, MmrSize(|leaves|), PeakHashes(H, leaves))
  }

  /** Every input hashed to build the nodes over `leaves`. */
  ghost function NodeInputs(H: HashFn, leaves: seq<Bytes>): set<Input> {
    set p: nat | p < MmrSize(|leaves|) :: NodeInput(H, leaves, p)
  }

  /** Every input hashed while bagging `hs`. */
  ghost function BagInputs(H: HashFn, size: nat, hs: seq<Digest>): set<Input> {
    if |hs| <= 1 then {} else {(size, hs[0] + Bag(H, size, hs[1..]))} + BagInputs(H, size, hs[1..])
  }

  /** Every input hashed on the way from the leaves to the root. */
  ghost function RootInputs(H: HashFn, leaves: seq<Bytes>): set<Input> {
    NodeInputs(H, leaves) + BagInputs(H, MmrSize(|leaves|), PeakHashes(H, leaves))
  }

  /** Two different inputs, one from each set, with the same hash. */
  ghost predicate Collide(H: HashFn, X: set<Input>, Y: set<Input>) {
    exists x, y :: x in X && y in Y && x != y && H(x.0, x.1) == H(y.0, y.1)
  }

  ghost predicate HitsZero(H: HashFn, X: set<Input>) {
    exists x :: x in X && H(x.0, x.1) == ZERO
  }

  lemma SameInput(H: HashFn, X: set<Input>, Y: set<Input>, x: Input, y: Input)
    requires x in X && y in Y && H(x.0, x.1) == H(y.0, y.1)
    requires !Collide(H, X, Y)
    ensures x == y
  {
  }

  // ---------------------------------------------------------------- binding

  lemma SplitPair(a: Digest, b: Digest, c: Digest, d: Digest)
    requires a + b == c + d
    ensures a == c && b == d
  {
    assert a == (a + b)[..HASH_SIZE] && c == (c + d)[..HASH_SIZE];
    assert b == (a + b)[HASH_SIZE..] && d == (c + d)[HASH_SIZE..];
  }

  /** Equal hashes of one node commit to equal leaves under it, unless two hashed inputs collide. */
  lemma {:induction false} NodeBinding(H: HashFn, A: seq<Bytes>, B: seq<Bytes>, p: nat, i: nat)
    requires p < MmrSize(|A|) && p < MmrSize(|B|)
    requires NodeHash(H, A, p) == NodeHash(H, B, p) && Covers(p, i)
    ensures Collide(H, NodeInputs(H, A), NodeInputs(H, B)) || (i < |A| && i < |B| && A[i] == B[i])
    decreases p
  {
    if Collide(H, NodeInputs(H, A), NodeInputs(H, B)) { return; }
    var h := Height(p);
    SameInput(H, NodeInputs(H, A), NodeInputs(H, B), NodeInput(H, A, p), NodeInput(H, B, p));
    if h == 0 {
      LeafCovers(p, i);
      LeafInRange(|A|, p);
      LeafInRange(|B|, p);
    } else {
      Children(p);
      CoversChild(p, h, i);
      var l := p - Pow2(h);
      SplitPair(NodeHash(H, A, l), NodeHash(H, A, p - 1), NodeHash(H, B, l), NodeHash(H, B, p - 1));
      NodeBinding(H, A, B, if Covers(l, i) then l else p - 1, i);
    }
  }

  lemma {:induction false} BagBinding(H: HashFn, size: nat, hs: seq<Digest>, gs: seq<Digest>)
    requires |hs| == |gs| > 0 && Bag(H, size, hs) == Bag(H, size, gs)
    requires !Collide(H, BagInputs(H, size, hs), BagInputs(H, size, gs))
    ensures hs == gs
  {
    if |hs| == 1 {
    } else {
      var X, Y := BagInputs(H, size, hs), BagInputs(H, size, gs);
      SameInput(H, X, Y, (size, hs[0] + Bag(H, size, hs[1..])), (size, gs[0] + Bag(H, size, gs[1..])));
      SplitPair(hs[0], Bag(H, size, hs[1..]), gs[0], Bag(H, size, gs[1..]));
      CollideGrows(H, BagInputs(H, size, hs[1..]), BagInputs(H, size, gs[1..]), X, Y);
      BagBinding(H, size, hs[1..], gs[1..]);
      assert hs == [hs[0]] + hs[1..] && gs == [gs[0]] + gs[1..];
    }
  }

  lemma CollideGrows(H: HashFn, X: set<Input>, Y: set<Input>, X': set<Input>, Y': set<Input>)
    requires X <= X' && Y <= Y' && !Collide(H, X', Y')
    ensures !Collide(H, X, Y)
  {
  }

  /** Every leaf lies under some peak. */
  lemma PeakOver(n: nat, i: nat) returns (j: nat)
    requires i < n
    ensures j < |Peaks(MmrSize(n))| && Covers(Peaks(MmrSize(n))[j], i)
  {
    var q := InsertionToPmmrIndex(i);
    LeafPosGrows(i, n);
    LeafPosMeaning(i);
    BranchEndsAtPeak(n, q);
    var p := BranchEnd(q, MmrSize(n));
    SubtreeFits(p);
    CoversPosition(p, q);
    j :| 0 <= j < |Peaks(MmrSize(n))| && Peaks(MmrSize(n))[j] == p;
  }

  lemma PeakwiseBinding(H: HashFn, A: seq<Bytes>, B: seq<Bytes>, i: nat)
    requires |A| == |B| && PeakHashes(H, A) == PeakHashes(H, B) && i < |A|
    requires !Collide(H, NodeInputs(H, A), NodeInputs(H, B))
    ensures A[i] == B[i]
  {
    var j := PeakOver(|A|, i);
    PeaksInRange(MmrSize(|A|));
    assert PeakHashes(H, A)[j] == PeakHashes(H, B)[j];
    NodeBinding(H, A, B, Peaks(MmrSize(|A|))[j], i);
  }

  lemma SamePeaksBinding(H: HashFn, A: seq<Bytes>, B: seq<Bytes>)
    requires |A| == |B| && PeakHashes(H, A) == PeakHashes(H, B)
    requires !Collide(H, NodeInputs(H, A), NodeInputs(H, B))
    ensures A == B
  {
    forall i | 0 <= i < |A| ensures A[i] == B[i] {
      PeakwiseBinding(H, A, B, i);
    }
  }

  /** The input hashed last on the way to the root: a bagging step, or the only peak. */
  lemma LastInput(H: HashFn, A: seq<Bytes>) returns (x: Input)
    requires A != []
    ensures x in RootInputs(H, A) && H(x.0, x.1) == Root(H, A)
    ensures x.0 == MmrSize(|A|) || (x.0 == MmrSize(|A|) - 1 && |Peaks(MmrSize(|A|))| == 1)
  {
    var n := |A|;
    var hs := PeakHashes(H, A);
    SomePeak(n);
    PeaksInRange(MmrSize(n));
    PeaksAreMountains(n);
    MountainEnd(n);
    if |hs| == 1 {
      x := NodeInput(H, A, Peaks(MmrSize(n))[0]);
    } else {
      x := (MmrSize(n), hs[0] + Bag(H, MmrSize(n), hs[1..]));
    }
  }
}
