/** What is stored at every node and what the root is, as equations between the stored hashes themselves. */
module RootMeanings {
  import opened Bits
  import opened PostOrder
  import opened MmrPeaks
  import opened Hashing

  /** A leaf's entry is the hash of the leaf, any other that of the entries of its left and right child. */
  ghost predicate NodeEquation(H: HashFn, leaves: seq<Bytes>, node: seq<Digest>, p: nat)
    requires p < |node|
  {
    if Height(p) == 0 then exists i :: 0 <= i < |leaves| && LeafCount(p) == i && node[p] == H(p, leaves[i])
    else exists l: nat, left: Bytes, right: Bytes :: HashesPair(H, node, p, l, left, right)
  }

  ghost predicate HashesPair(H: HashFn, node: seq<Digest>, p: nat, l: nat, left: Bytes, right: Bytes)
    requires p < |node|
  {
    l + Pow2(Height(p)) == p && left == node[l] && right == node[p - 1] && node[p] == H(p, left + right)
  }

  lemma NodeHashesSolve(H: HashFn, leaves: seq<Bytes>, p: nat)
    requires p < MmrSize(|leaves|)
    ensures NodeEquation(H, leaves, NodeHashes(H, leaves), p)
  {
    var node := NodeHashes(H, leaves);
    if Height(p) == 0 {
      LeafInRange(|leaves|, p);
      assert NodeInput(H, leaves, p) == (p, leaves[LeafCount(p)]);
      assert node[p] == H(p, leaves[LeafCount(p)]);
    } else {
      Children(p);
      var l := p - Pow2(Height(p));
      assert NodeInput(H, leaves, p) == (p, NodeHash(H, leaves, l) + NodeHash(H, leaves, p - 1));
      assert HashesPair(H, node, p, l, node[l], node[p - 1]);
    }
  }

  lemma {:induction false} SolutionIs(H: HashFn, leaves: seq<Bytes>, node: seq<Digest>, p: nat)
    requires |node| == MmrSize(|leaves|) && p < |node|
    requires forall q :: 0 <= q < |node| ==> NodeEquation(H, leaves, node, q)
    ensures node[p] == NodeHash(H, leaves, p)
    decreases p
  {
    assert NodeEquation(H, leaves, node, p);
    if Height(p) == 0 {
      LeafInRange(|leaves|, p);
    } else {
      Children(p);
      var l: nat, left: Bytes, right: Bytes :| HashesPair(H, node, p, l, left, right);
      SolutionIs(H, leaves, node, l);
      SolutionIs(H, leaves, node, p - 1);
    }
  }

  /** The node hashes are the one solution of these equations. */
  lemma NodesExact(H: HashFn, leaves: seq<Bytes>, node: seq<Digest>)
    requires |node| == MmrSize(|leaves|)
    ensures node == NodeHashes(H, leaves) <==> forall p :: 0 <= p < |node| ==> NodeEquation(H, leaves, node, p)
  {
    if node == NodeHashes(H, leaves) {
      forall p | 0 <= p < |node| ensures NodeEquation(H, leaves, node, p) { NodeHashesSolve(H, leaves, p); }
    }
    if forall p :: 0 <= p < |node| ==> NodeEquation(H, leaves, node, p) {
      forall p | 0 <= p < |node| ensures node[p] == NodeHashes(H, leaves)[p] { SolutionIs(H, leaves, node, p); }
    }
  }

  /** At `k`, the peak's hash is hashed at the size of the PMMR with what is bagged to its right. */
  ghost predicate BagEquation(H: HashFn, node: seq<Digest>, peaks: seq<nat>, bagged: seq<Digest>, k: nat)
    requires k < |peaks| == |bagged| && peaks[k] < |node|
  {
    var left: Bytes := node[peaks[k]];
    bagged[k] == if k == |peaks| - 1 then left else H(|node|, left + bagged[k + 1])
  }

  lemma {:induction false} BaggedIs(H: HashFn, node: seq<Digest>, peaks: seq<nat>, hs: seq<Digest>, bagged: seq<Digest>, k: nat)
    requires k < |peaks| == |bagged| == |hs|
    requires forall j :: 0 <= j < |peaks| ==> peaks[j] < |node| && hs[j] == node[peaks[j]]
    requires forall j :: 0 <= j < |peaks| ==> BagEquation(H, node, peaks, bagged, j)
    ensures bagged[k] == Bag(H, |node|, hs[k..])
    decreases |peaks| - k
  {
    assert BagEquation(H, node, peaks, bagged, k);
    BagStep(H, |node|, hs, k);
    if k + 1 < |peaks| { BaggedIs(H, node, peaks, hs, bagged, k + 1); }
  }

  /**
    The root is 32 zero bytes over no leaves. Over some leaves it is what is bagged at the first peak, where the
    peaks cut the positions greedily into full trees.
  */
  lemma RootExact(H: HashFn, leaves: seq<Bytes>, node: seq<Digest>, peaks: seq<nat>, bagged: seq<Digest>)
    requires |node| == MmrSize(|leaves|) && forall p :: 0 <= p < |node| ==> NodeEquation(H, leaves, node, p)
    requires CutGreedily(|node|, peaks) && |bagged| == |peaks| && forall k :: 0 <= k < |peaks| ==> peaks[k] < |node|
    requires forall k :: 0 <= k < |peaks| ==> BagEquation(H, node, peaks, bagged, k)
    ensures leaves == [] ==> forall i :: 0 <= i < 32 ==> Root(H, leaves)[i] == 0
    ensures leaves != [] ==> |peaks| > 0 && Root(H, leaves) == bagged[0]
  {
    NodesExact(H, leaves, node);
    PeaksExact(|node|, peaks);
    if leaves != [] {
      SomePeak(|leaves|);
      var hs := PeakHashes(H, leaves);
      BaggedIs(H, node, peaks, hs, bagged, 0);
      assert hs[0..] == hs;
    }
  }
}
