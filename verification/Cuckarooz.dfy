/**
  verify_cuckarooz of mimblewimble/pow/algos/cuckarooz.py: the one-sided variant, where any two slots
  with the same endpoint meet. On edges that do not ascend the source names a status that does not exist.
*/
module Cuckarooz {
  import opened Bits
  import opened XorPairs
  import opened Cycles
  import opened Slots
  import opened Sides
  import opened Tours
  import opened Buckets
  import Cuckaroo

  const EDGEBITS: nat := 29
  const BUCKETS: nat := 64

  /** Slots meet when they have the same endpoint, whichever end of its edge each is. */
  function KeysOf(ends: seq<nat>): seq<Key> {
    seq(|ends|, i requires 0 <= i < |ends| => (0, ends[i]))
  }

  function BucketOf(end: nat): (r: nat)
    ensures r < BUCKETS
  {
    end % BUCKETS
  }

  function BucketsOf(ends: seq<nat>): seq<Key> {
    seq(|ends|, i requires 0 <= i < |ends| => (0, BucketOf(ends[i])))
  }

  ghost function CycleLinks(ends: seq<nat>): seq<Link> {
    Links(KeysOf(ends), ends, false)
  }

  ghost function CycleOutcome(ends: seq<nat>): PowStatus
    requires |ends| == 2 * PROOFSIZE
  {
    LinksMutual(KeysOf(ends), ends, false);
    Outcome(CycleLinks(ends))
  }

  /** The status for every input; the edge bits are EDGEBITS in the source. */
  ghost function Status(block: Cuckaroo.SipBlock, proof: seq<int>, edgeBits: nat): PowStatus
  {
    var fault := EdgeFault(proof, Pow2(edgeBits) - 1, NoSuchStatus, 0);
    EdgeFaultMeaning(proof, Pow2(edgeBits) - 1, NoSuchStatus, 0);
    if fault != PowOk then fault
    else
      var ends := Cuckaroo.Endpoints(block, edgeBits, proof, PROOFSIZE);
      if XorAll(ends) != 0 then NonMatching else CycleOutcome(ends)
  }

  lemma BucketsRefine(ends: seq<nat>)
    ensures Refines(BucketsOf(ends), KeysOf(ends), ends)
  {
  }

  /** First pass: every slot is entered at the head of its bucket's list. */
  method EnterAll(uvs: array<nat>, head: array<nat>, prev: array<nat>)
    requires uvs != head && uvs != prev && head != prev && head.Length == BUCKETS && prev.Length == uvs.Length
    requires HeadAt(BucketsOf(uvs[..]), head[..], 0, 0)
    modifies head, prev
    ensures var bks := BucketsOf(uvs[..]); HeadAt(bks, head[..], 0, |bks|) && PrevAt(bks, prev[..], |bks|)
  {
    ghost var bks := BucketsOf(uvs[..]);
    var n := 0;
    while n < uvs.Length
      invariant 0 <= n <= uvs.Length && uvs[..] == old(uvs[..])
      invariant HeadAt(bks, head[..], 0, n) && PrevAt(bks, prev[..], n)
    {
      var bits := BucketOf(uvs[n]);
      EnterSlot(head, prev, bks, 0, n, bits);
      n := n + 1;
    }
  }

  /** Second pass: slots nothing comes before are linked to the heads. */
  method CloseAll(uvs: array<nat>, head: array<nat>, prev: array<nat>)
    requires uvs != prev && head != prev && head.Length == BUCKETS && uvs.Length == 2 * PROOFSIZE
    requires var bks := BucketsOf(uvs[..]); HeadAt(bks, head[..], 0, |bks|) && PrevAt(bks, prev[..], |bks|)
    modifies prev
    ensures ClosedLists(BucketsOf(uvs[..]), prev[..])
  {
    ghost var bks := BucketsOf(uvs[..]);
    CloseStartEnd(bks, prev[..]);
    var n := 0;
    while n < 2 * PROOFSIZE
      invariant 0 <= n <= 2 * PROOFSIZE && uvs[..] == old(uvs[..]) && head[..] == old(head[..])
      invariant prev[..] == HalfClosed(bks, n)
    {
      var bits := BucketOf(uvs[n]);
      CloseSlot(head, prev, bks, 0, n, bits);
      n := n + 1;
    }
    CloseStartEnd(bks, prev[..]);
  }

  /** Links every slot to the one before it in its bucket, the first to the last. */
  method BuildLists(uvs: array<nat>) returns (prev: array<nat>)
    requires uvs.Length == 2 * PROOFSIZE
    ensures fresh(prev) && ClosedLists(BucketsOf(uvs[..]), prev[..])
  {
    var head := new nat[BUCKETS](_ => 2 * PROOFSIZE);
    prev := new nat[2 * PROOFSIZE](_ => 0);
    EnterAll(uvs, head, prev);
    CloseAll(uvs, head, prev);
  }

  /** The first phase: edge checks, endpoints and the XOR accumulators. */
  method Extract(proof: seq<int>, block: Cuckaroo.SipBlock, edgeBits: nat) returns (status: PowStatus, uvs: array<nat>, xorAll: nat)
    ensures uvs.Length == 2 * PROOFSIZE
    ensures status == EdgeFault(proof, Pow2(edgeBits) - 1, NoSuchStatus, 0)
    ensures status == PowOk ==>
              && PROOFSIZE <= |proof| && uvs[..] == Cuckaroo.Endpoints(block, edgeBits, proof, PROOFSIZE)
              && xorAll == XorAll(uvs[..])
  {
    var edgeMask := Pow2(edgeBits) - 1;
    xorAll := 0;
    uvs := new nat[2 * PROOFSIZE](_ => 0);
    var i := 0;
    ghost var ends: seq<nat> := [];
    ghost var fault := EdgeFault(proof, edgeMask, NoSuchStatus, 0);
    while i < PROOFSIZE
      invariant 0 <= i <= PROOFSIZE && i <= |proof|
      invariant uvs[..2 * i] == ends == Cuckaroo.Endpoints(block, edgeBits, proof, i)
      invariant xorAll == XorAll(ends)
      invariant EdgeFault(proof, edgeMask, NoSuchStatus, i) == fault
    {
      status := CheckEdge(proof, edgeMask, NoSuchStatus, i);
      if status != PowOk {
        return;
      }
      var nonce := proof[i];
      var u, v := Cuckaroo.EndU(block, edgeBits, nonce), Cuckaroo.EndV(block, edgeBits, nonce);
      WriteEnds(uvs, i, u, v);
      XorPair(ends, u, v);
      xorAll := BitXor(xorAll, BitXor(u, v));
      ends := ends + [u, v];
      i := i + 1;
    }
    assert uvs[..] == uvs[..2 * i];
    status := PowOk;
  }

  lemma XorPair(vals: seq<nat>, u: nat, v: nat)
    ensures XorAll(vals + [u, v]) == BitXor(XorAll(vals), BitXor(u, v))
  {
    assert (vals + [u, v])[..|vals| + 1] == vals + [u];
    assert (vals + [u])[..|vals|] == vals;
    XorAssociates(XorAll(vals), u, v);
  }

  method VerifyCuckarooz(proof: seq<int>, block: Cuckaroo.SipBlock) returns (status: PowStatus)
    ensures status == Status(block, proof, EDGEBITS)
  {
    status := VerifyWith(proof, block, EDGEBITS);
  }

  method VerifyWith(proof: seq<int>, block: Cuckaroo.SipBlock, edgeBits: nat) returns (status: PowStatus)
    ensures status == Status(block, proof, edgeBits)
  {
    var uvs: array<nat>;
    var xorAll: nat;
    status, uvs, xorAll := Extract(proof, block, edgeBits);
    if status != PowOk {
      return;
    }
    if xorAll != 0 {
      return NonMatching;
    }
    ghost var ends := uvs[..];
    var prev := BuildLists(uvs);
    BucketsRefine(ends);
    LinksMutual(KeysOf(ends), ends, false);
    status := FollowLists(uvs, prev, BucketsOf(ends), KeysOf(ends));
  }

  // ---------------------------------------------------------------- exactness

  lemma SlotPaired(ends: seq<nat>, w: seq<nat>, i: nat)
    requires |ends| == 2 * PROOFSIZE && FullCycle(CycleLinks(ends), w) && i < |ends|
    ensures HasPartner(ends, 0, i)
  {
    var keys := KeysOf(ends);
    var j := CycleMatches(keys, ends, false, w, i);
    assert keys[j] == keys[i];
    XorSelf(ends[i]);
    forall k | 0 <= k < |ends| && k != i && k != j ensures ends[k] != ends[i] {
      assert keys[k] != keys[i];
    }
    assert PairedWith(ends, 0, i, j);
  }

  /** The XOR prefilter rejects no full cycle. */
  lemma FilterRedundant(ends: seq<nat>, w: seq<nat>)
    requires |ends| == 2 * PROOFSIZE && FullCycle(CycleLinks(ends), w)
    ensures XorAll(ends) == 0
  {
    forall i: nat | i < |ends| ensures HasPartner(ends, 0, i) {
      SlotPaired(ends, w, i);
    }
    PairsXor(ends, 0);
  }

  // ---------------------------------------------------------------- over the edge hash and the edges

  /** End `s` of edge `a` is end `r` of edge `b`, and no other end of any edge is the same node. */
  ghost predicate Share(block: Cuckaroo.SipBlock, edgeBits: nat, proof: seq<int>, a: nat, s: nat, b: nat, r: nat)
    requires a < PROOFSIZE <= |proof| && b < PROOFSIZE
  {
    var node := Cuckaroo.NodeAt(block, edgeBits, proof[a], s);
    && a != b && Cuckaroo.NodeAt(block, edgeBits, proof[b], r) == node
    && forall c, q ::
         0 <= c < PROOFSIZE && 0 <= q < 2 && (c != a || q != s) && (c != b || q != r) ==>
           Cuckaroo.NodeAt(block, edgeBits, proof[c], q) != node
  }

  /** Round the order, the end each edge is left by is the end the next one is entered by. */
  ghost predicate GoesRound(block: Cuckaroo.SipBlock, edgeBits: nat, proof: seq<int>, order: seq<nat>, out: seq<nat>)
    requires PROOFSIZE <= |proof|
  {
    && IsOrder(order, out, PROOFSIZE)
    && forall t :: 0 <= t < PROOFSIZE ==> RoundStep(block, edgeBits, proof, order, out, t)
  }

  ghost predicate RoundStep(block: Cuckaroo.SipBlock, edgeBits: nat, proof: seq<int>, order: seq<nat>, out: seq<nat>, t: nat)
    requires PROOFSIZE <= |proof| && IsOrder(order, out, PROOFSIZE) && t < PROOFSIZE
  {
    var u := Succ(t, PROOFSIZE);
    Share(block, edgeBits, proof, order[t], out[t], order[u], 1 - out[u])
  }

  /** The first PROOFSIZE edges are good and form one cycle through all of them. */
  ghost predicate IsCuckaroozProof(block: Cuckaroo.SipBlock, proof: seq<int>, edgeBits: nat) {
    && GoodEdges(proof, Pow2(edgeBits) - 1, 0)
    && exists order, out :: GoesRound(block, edgeBits, proof, order, out)
  }

  lemma SlotsShare(block: Cuckaroo.SipBlock, edgeBits: nat, proof: seq<int>, n: nat, ends: seq<nat>, a: nat, s: nat, b: nat, r: nat)
    requires n == PROOFSIZE <= |proof| && ends == Cuckaroo.Endpoints(block, edgeBits, proof, n)
    requires a < n && b < n && a != b && s < 2 && r < 2
    ensures OnlyMatch(KeysOf(ends), 2 * a + s, 2 * b + r) <==> Share(block, edgeBits, proof, a, s, b, r)
  {
    var keys := KeysOf(ends);
    forall c: nat, q: nat | c < n && q < 2 ensures ends[2 * c + q] == Cuckaroo.NodeAt(block, edgeBits, proof[c], q) {
      Cuckaroo.EndpointsAt(block, edgeBits, proof, n, c);
    }
    if OnlyMatch(keys, 2 * a + s, 2 * b + r) {
      forall c: nat, q: nat | c < n && q < 2 && (c != a || q != s) && (c != b || q != r)
        ensures Cuckaroo.NodeAt(block, edgeBits, proof[c], q) != Cuckaroo.NodeAt(block, edgeBits, proof[a], s)
      {
        assert keys[2 * c + q] != keys[2 * a + s];
      }
    }
    if Share(block, edgeBits, proof, a, s, b, r) {
      forall k | 0 <= k < |keys| && k != 2 * a + s && k != 2 * b + r ensures keys[k] != keys[2 * a + s] {
        var c, q := k / 2, k % 2;
        assert k == 2 * c + q;
        assert Cuckaroo.NodeAt(block, edgeBits, proof[c], q) != Cuckaroo.NodeAt(block, edgeBits, proof[a], s);
      }
    }
  }

  lemma StepOfTour(block: Cuckaroo.SipBlock, edgeBits: nat, proof: seq<int>, n: nat, ends: seq<nat>, order: seq<nat>, out: seq<nat>, t: nat)
    requires n == PROOFSIZE <= |proof| && ends == Cuckaroo.Endpoints(block, edgeBits, proof, n)
    requires IsOrder(order, out, n) && t < n
    ensures Joined(KeysOf(ends), ends, false, order, out, t) <==> RoundStep(block, edgeBits, proof, order, out, t)
  {
    var u := Succ(t, n);
    assert order[t] != order[u];
    SlotsShare(block, edgeBits, proof, n, ends, order[t], out[t], order[u], 1 - out[u]);
  }

  lemma TourGoesRound(block: Cuckaroo.SipBlock, edgeBits: nat, proof: seq<int>, n: nat, ends: seq<nat>, order: seq<nat>, out: seq<nat>)
    requires n == PROOFSIZE <= |proof| && ends == Cuckaroo.Endpoints(block, edgeBits, proof, n)
    ensures Tour(CycleLinks(ends), order, out) <==> GoesRound(block, edgeBits, proof, order, out)
  {
    if |order| == n {
      TourOfKeys(KeysOf(ends), ends, false, order, out);
      if IsOrder(order, out, n) {
        forall t | 0 <= t < n
          ensures Joined(KeysOf(ends), ends, false, order, out, t) <==> RoundStep(block, edgeBits, proof, order, out, t)
        {
          StepOfTour(block, edgeBits, proof, n, ends, order, out, t);
        }
      }
    }
  }

  /** One cycle of slots is one cycle of edges. */
  lemma CycleGoesRound(block: Cuckaroo.SipBlock, edgeBits: nat, proof: seq<int>, ends: seq<nat>)
    requires PROOFSIZE <= |proof| && ends == Cuckaroo.Endpoints(block, edgeBits, proof, PROOFSIZE)
    ensures IsOneCycle(CycleLinks(ends)) <==> exists order, out :: GoesRound(block, edgeBits, proof, order, out)
  {
    LinksMutual(KeysOf(ends), ends, false);
    CycleIsTour(CycleLinks(ends));
    if HasTour(CycleLinks(ends)) {
      var order, out :| Tour(CycleLinks(ends), order, out);
      TourGoesRound(block, edgeBits, proof, PROOFSIZE, ends, order, out);
    }
    if exists order, out :: GoesRound(block, edgeBits, proof, order, out) {
      var order, out :| GoesRound(block, edgeBits, proof, order, out);
      TourGoesRound(block, edgeBits, proof, PROOFSIZE, ends, order, out);
    }
  }

  /**
    verify_cuckarooz accepts exactly the proofs whose edges are in range, strictly ascending and form one
    cycle through all of them, each end being shared with exactly one other.
  */
  lemma CuckaroozExact(block: Cuckaroo.SipBlock, proof: seq<int>, edgeBits: nat)
    ensures Status(block, proof, edgeBits) == PowOk <==> IsCuckaroozProof(block, proof, edgeBits)
  {
    EdgeFaultMeaning(proof, Pow2(edgeBits) - 1, NoSuchStatus, 0);
    if !GoodEdges(proof, Pow2(edgeBits) - 1, 0) {
      return;
    }
    var ends := Cuckaroo.Endpoints(block, edgeBits, proof, PROOFSIZE);
    LinksMutual(KeysOf(ends), ends, false);
    WalkExact(CycleLinks(ends));
    CycleGoesRound(block, edgeBits, proof, ends);
    if CycleOutcome(ends) == PowOk {
      var w :| FullCycle(CycleLinks(ends), w);
      FilterRedundant(ends, w);
    }
  }

  // ---------------------------------------------------------------- every verdict

  /**
    What each status means: the first edge that is missing, too big or out of order; else ends that do not XOR to
    zero; else how the path of slots from slot 0 ends.
  */
  lemma StatusMeaning(block: Cuckaroo.SipBlock, proof: seq<int>, edgeBits: nat) returns (k: nat, path: seq<nat>)
    ensures k <= PROOFSIZE && GoodBefore(proof, Pow2(edgeBits) - 1, k)
    ensures k < PROOFSIZE && k == |proof| ==> Status(block, proof, edgeBits) == OutOfEdges
    ensures k < PROOFSIZE && k < |proof| ==>
              if proof[k] > Pow2(edgeBits) - 1 then Status(block, proof, edgeBits) == TooBig
              else k > 0 && proof[k] <= proof[k - 1] && Status(block, proof, edgeBits) == NoSuchStatus
    ensures k == PROOFSIZE ==>
              var ends := Cuckaroo.Endpoints(block, edgeBits, proof, PROOFSIZE);
              if exists bit: nat :: !EvenAt(ends, bit) then Status(block, proof, edgeBits) == NonMatching
              else
                && IsPath(CycleLinks(ends), path) && Status(block, proof, edgeBits) == Verdict(CycleLinks(ends), path)
                && match CycleLinks(ends)[path[|path| - 1]] case To(j) => Other(j) == 0 case _ => true
  {
    path := [];
    k := FirstFault(proof, Pow2(edgeBits) - 1, NoSuchStatus, 0);
    if k == PROOFSIZE {
      var ends := Cuckaroo.Endpoints(block, edgeBits, proof, PROOFSIZE);
      XorVanishes(ends);
      LinksMutual(KeysOf(ends), ends, false);
      path := OutcomeEnds(CycleLinks(ends));
    }
  }

  /** cuckarooz_validate, for lists of every length: it accepts exactly the proofs. */
  method CuckaroozValidate(proofNonces: seq<int>, block: Cuckaroo.SipBlock) returns (ok: bool, status: PowStatus)
    ensures ok <==> status == PowOk
    ensures ok <==> |proofNonces| == PROOFSIZE && IsCuckaroozProof(block, proofNonces, EDGEBITS)
    ensures |proofNonces| < PROOFSIZE ==> status == TooSmall
    ensures |proofNonces| > PROOFSIZE ==> status == TooBig
  {
    if |proofNonces| < PROOFSIZE {
      return false, TooSmall;
    }
    if |proofNonces| > PROOFSIZE {
      return false, TooBig;
    }
    status := VerifyCuckarooz(proofNonces, block);
    ok := status == PowOk;
    CuckaroozExact(block, proofNonces, EDGEBITS);
  }
}
