/** verify_cuckaroo of mimblewimble/pow/algos/cuckaroo.py, for any edge hash in place of siphash_block. */
module Cuckaroo {
  import opened Bits
  import opened XorPairs
  import opened Cycles
  import opened Slots
  import opened Sides
  import opened Tours
  import opened Buckets

  /** The 64-bit hash of an edge. */
  type SipBlock = int -> nat

  function EndU(block: SipBlock, edgeBits: nat, edge: int): nat {
    Mask(block(edge), edgeBits)
  }

  function EndV(block: SipBlock, edgeBits: nat, edge: int): nat {
    Mask(ShiftRight(block(edge), 32), edgeBits)
  }

  /** Endpoints of the first `n` edges, two per edge. */
  function Endpoints(block: SipBlock, edgeBits: nat, proof: seq<int>, n: nat): (r: seq<nat>)
    requires n <= |proof|
    ensures |r| == 2 * n
  {
    if n == 0 then []
    else Endpoints(block, edgeBits, proof, n - 1) + [EndU(block, edgeBits, proof[n - 1]), EndV(block, edgeBits, proof[n - 1])]
  }

  /** Slots meet when they are on the same side and have the same endpoint. */
  function KeysOf(ends: seq<nat>): seq<Key> {
    seq(|ends|, i requires 0 <= i < |ends| => (i % 2, ends[i]))
  }

  /** `(1 << (PROOFSIZE - 1).bit_length())`: as many buckets a side as the mask can tell apart. */
  function BucketCount(): (r: nat)
    ensures r > 0
  {
    Pow2(BitLength(PROOFSIZE - 1))
  }

  /** `end & mask`. */
  function BucketOf(end: nat): (r: nat)
    ensures r < BucketCount()
  {
    end % BucketCount()
  }

  function BucketsOf(ends: seq<nat>): seq<Key> {
    seq(|ends|, i requires 0 <= i < |ends| => (i % 2, BucketOf(ends[i])))
  }

  ghost function CycleOutcome(ends: seq<nat>): PowStatus
    requires IsSlots(ends)
  {
    LinksMutual(KeysOf(ends), ends, false);
    Outcome(Links(KeysOf(ends), ends, false))
  }

  ghost predicate PassesFilter(ends: seq<nat>)
    requires IsSlots(ends)
  {
    XorAll(Side(ends, 0, PROOFSIZE)) == 0 && XorAll(Side(ends, 1, PROOFSIZE)) == 0
  }

  /** The status for every input. */
  ghost function Status(block: SipBlock, proof: seq<int>, edgeBits: nat): PowStatus
  {
    var fault := EdgeFault(proof, Pow2(edgeBits) - 1, TooSmall, 0);
    EdgeFaultMeaning(proof, Pow2(edgeBits) - 1, TooSmall, 0);
    if fault != PowOk then fault
    else
      var ends := Endpoints(block, edgeBits, proof, PROOFSIZE);
      if !PassesFilter(ends) then NonMatching else CycleOutcome(ends)
  }

  lemma BucketsRefine(ends: seq<nat>)
    ensures Refines(BucketsOf(ends), KeysOf(ends), ends)
  {
  }

  lemma BucketsAt(ends: seq<nat>, n: nat)
    requires 2 * n + 1 < |ends|
    ensures BucketsOf(ends)[2 * n] == (0, BucketOf(ends[2 * n]))
    ensures BucketsOf(ends)[2 * n + 1] == (1, BucketOf(ends[2 * n + 1]))
  {
  }

  /** Enters both slots of edge `n`, each at the head of its bucket's list on its side. */
  method EnterEdge(headU: array<nat>, headV: array<nat>, prev: array<nat>, ghost bks: seq<Key>, n: nat, ubits: nat, vbits: nat)
    requires headU != headV && headU != prev && headV != prev && prev.Length == |bks|
    requires 2 * n + 1 < |bks| && bks[2 * n] == (0, ubits) && bks[2 * n + 1] == (1, vbits)
    requires ubits < headU.Length && vbits < headV.Length
    requires HeadAt(bks, headU[..], 0, 2 * n) && HeadAt(bks, headV[..], 1, 2 * n) && PrevAt(bks, prev[..], 2 * n)
    modifies headU, headV, prev
    ensures HeadAt(bks, headU[..], 0, 2 * n + 2) && HeadAt(bks, headV[..], 1, 2 * n + 2)
    ensures PrevAt(bks, prev[..], 2 * n + 2)
  {
    ghost var v: seq<nat> := headV[..];
    HeadSkip(bks, v, 1, 2 * n);
    EnterSlot(headU, prev, bks, 0, 2 * n, ubits);
    assert headV[..] == v;
    ghost var u: seq<nat> := headU[..];
    HeadSkip(bks, u, 0, 2 * n + 1);
    EnterSlot(headV, prev, bks, 1, 2 * n + 1, vbits);
    assert headU[..] == u;
  }

  /** First pass over the slots: every slot is entered into the list of its bucket. */
  method EnterAll(uvs: array<nat>, headU: array<nat>, headV: array<nat>, prev: array<nat>, ghost bks: seq<Key>)
    requires uvs != headU && uvs != headV && uvs != prev && headU != headV && headU != prev && headV != prev
    requires headU.Length == headV.Length == BucketCount() && uvs.Length == 2 * PROOFSIZE && bks == BucketsOf(uvs[..])
    requires HeadAt(bks, headU[..], 0, 0) && HeadAt(bks, headV[..], 1, 0) && PrevAt(bks, prev[..], 0)
    modifies headU, headV, prev
    ensures HeadAt(bks, headU[..], 0, |bks|) && HeadAt(bks, headV[..], 1, |bks|) && PrevAt(bks, prev[..], |bks|)
  {
    var n := 0;
    ghost var ends := uvs[..];
    while n < PROOFSIZE
      invariant 0 <= n <= PROOFSIZE && uvs[..] == ends
      invariant HeadAt(bks, headU[..], 0, 2 * n) && HeadAt(bks, headV[..], 1, 2 * n)
      invariant PrevAt(bks, prev[..], 2 * n)
    {
      BucketsAt(ends, n);
      EnterEdge(headU, headV, prev, bks, n, BucketOf(uvs[2 * n]), BucketOf(uvs[2 * n + 1]));
      n := n + 1;
    }
  }

  /** Closes the lists at both slots of edge `n`. */
  method CloseEdge(headU: array<nat>, headV: array<nat>, prev: array<nat>, ghost bks: seq<Key>, n: nat, ubits: nat, vbits: nat)
    requires headU != prev && headV != prev && |bks| == 2 * PROOFSIZE && n < PROOFSIZE
    requires bks[2 * n] == (0, ubits) && bks[2 * n + 1] == (1, vbits) && ubits < headU.Length && vbits < headV.Length
    requires HeadAt(bks, headU[..], 0, |bks|) && HeadAt(bks, headV[..], 1, |bks|)
    requires prev[..] == HalfClosed(bks, 2 * n)
    modifies prev
    ensures prev[..] == HalfClosed(bks, 2 * n + 2)
  {
    ghost var v: seq<nat> := headV[..];
    CloseSlot(headU, prev, bks, 0, 2 * n, ubits);
    assert headV[..] == v;
    CloseSlot(headV, prev, bks, 1, 2 * n + 1, vbits);
  }

  /** Second pass: the lists are closed into circles. */
  method CloseAll(uvs: array<nat>, headU: array<nat>, headV: array<nat>, prev: array<nat>, ghost bks: seq<Key>)
    requires uvs != prev && headU != prev && headV != prev
    requires headU.Length == headV.Length == BucketCount() && uvs.Length == 2 * PROOFSIZE && bks == BucketsOf(uvs[..])
    requires HeadAt(bks, headU[..], 0, |bks|) && HeadAt(bks, headV[..], 1, |bks|) && PrevAt(bks, prev[..], |bks|)
    modifies prev
    ensures ClosedLists(bks, prev[..])
  {
    CloseStartEnd(bks, prev[..]);
    var n := 0;
    ghost var u, v, ends := headU[..], headV[..], uvs[..];
    while n < PROOFSIZE
      invariant 0 <= n <= PROOFSIZE && uvs[..] == ends
      invariant headU[..] == u && headV[..] == v
      invariant prev[..] == HalfClosed(bks, 2 * n)
    {
      BucketsAt(ends, n);
      CloseEdge(headU, headV, prev, bks, n, BucketOf(uvs[2 * n]), BucketOf(uvs[2 * n + 1]));
      n := n + 1;
    }
    CloseStartEnd(bks, prev[..]);
  }

  /** Links every slot to the one before it in its bucket, the first to the last. */
  method BuildLists(uvs: array<nat>) returns (prev: array<nat>)
    requires uvs.Length == 2 * PROOFSIZE
    ensures fresh(prev) && ClosedLists(BucketsOf(uvs[..]), prev[..])
  {
    ghost var bks := BucketsOf(uvs[..]);
    var headU := new nat[BucketCount()](_ => 2 * PROOFSIZE);
    var headV := new nat[BucketCount()](_ => 2 * PROOFSIZE);
    prev := new nat[2 * PROOFSIZE](_ => 0);
    EnterAll(uvs, headU, headV, prev, bks);
    CloseAll(uvs, headU, headV, prev, bks);
  }

  /** The first phase: edge checks, endpoints and the XOR accumulators. */
  method Extract(proof: seq<int>, block: SipBlock, edgeBits: nat) returns (status: PowStatus, uvs: array<nat>, xor0: nat, xor1: nat)
    ensures uvs.Length == 2 * PROOFSIZE
    ensures status == EdgeFault(proof, Pow2(edgeBits) - 1, TooSmall, 0)
    ensures status == PowOk ==>
              && PROOFSIZE <= |proof| && uvs[..] == Endpoints(block, edgeBits, proof, PROOFSIZE)
              && xor0 == XorAll(Side(uvs[..], 0, PROOFSIZE)) && xor1 == XorAll(Side(uvs[..], 1, PROOFSIZE))
  {
    var edgeMask := Pow2(edgeBits) - 1;
    xor0, xor1 := 0, 0;
    uvs := new nat[2 * PROOFSIZE](_ => 0);
    var n := 0;
    ghost var ends: seq<nat> := [];
    ghost var fault := EdgeFault(proof, edgeMask, TooSmall, 0);
    while n < PROOFSIZE
      invariant 0 <= n <= PROOFSIZE && n <= |proof|
      invariant uvs[..2 * n] == ends == Endpoints(block, edgeBits, proof, n)
      invariant xor0 == XorAll(Side(ends, 0, n)) && xor1 == XorAll(Side(ends, 1, n))
      invariant EdgeFault(proof, edgeMask, TooSmall, n) == fault
    {
      status := CheckEdge(proof, edgeMask, TooSmall, n);
      if status != PowOk {
        return;
      }
      var edgeIdx := proof[n];
      var u, v := EndU(block, edgeBits, edgeIdx), EndV(block, edgeBits, edgeIdx);
      WriteEnds(uvs, n, u, v);
      SideStep(ends, u, v, n);
      xor0 := BitXor(xor0, u);
      xor1 := BitXor(xor1, v);
      ends := ends + [u, v];
      n := n + 1;
    }
    assert uvs[..] == uvs[..2 * n];
    status := PowOk;
  }

  lemma SideStep(ends: seq<nat>, u: nat, v: nat, n: nat)
    requires |ends| == 2 * n
    ensures XorAll(Side(ends + [u, v], 0, n + 1)) == BitXor(XorAll(Side(ends, 0, n)), u)
    ensures XorAll(Side(ends + [u, v], 1, n + 1)) == BitXor(XorAll(Side(ends, 1, n)), v)
  {
    SideGrows(ends, u, v, n);
  }

  method VerifyCuckaroo(proof: seq<int>, block: SipBlock, edgeBits: nat) returns (status: PowStatus)
    ensures status == Status(block, proof, edgeBits)
  {
    var uvs: array<nat>;
    var xor0: nat, xor1: nat;
    status, uvs, xor0, xor1 := Extract(proof, block, edgeBits);
    if status != PowOk {
      return;
    }
    if xor0 != 0 || xor1 != 0 {
      return NonMatching;
    }
    ghost var ends := uvs[..];
    var prev := BuildLists(uvs);
    BucketsRefine(ends);
    LinksMutual(KeysOf(ends), ends, false);
    status := FollowLists(uvs, prev, BucketsOf(ends), KeysOf(ends));
  }

  // ---------------------------------------------------------------- exactness

  lemma SidePaired(ends: seq<nat>, w: seq<nat>, side: nat, i: nat)
    requires IsSlots(ends) && FullCycle(Links(KeysOf(ends), ends, false), w) && side < 2 && i < PROOFSIZE
    ensures HasPartner(Side(ends, side, PROOFSIZE), 0, i)
  {
    var keys := KeysOf(ends);
    var j := CycleMatches(keys, ends, false, w, 2 * i + side);
    var vals := Side(ends, side, PROOFSIZE);
    var p := j / 2;
    assert keys[j] == keys[2 * i + side];
    assert j == 2 * p + side;
    XorSelf(vals[i]);
    forall k | 0 <= k < PROOFSIZE && k != i && k != p ensures vals[k] != vals[i] {
      assert keys[2 * k + side] != keys[2 * i + side];
    }
    assert PairedWith(vals, 0, i, p);
  }

  /** The XOR prefilter rejects no full cycle. */
  lemma FilterRedundant(ends: seq<nat>, w: seq<nat>)
    requires IsSlots(ends) && FullCycle(Links(KeysOf(ends), ends, false), w)
    ensures PassesFilter(ends)
  {
    forall side: nat | side < 2 ensures XorAll(Side(ends, side, PROOFSIZE)) == 0 {
      forall i: nat | i < PROOFSIZE ensures HasPartner(Side(ends, side, PROOFSIZE), 0, i) {
        SidePaired(ends, w, side, i);
      }
      PairsXor(Side(ends, side, PROOFSIZE), 0);
    }
  }

  lemma OutcomeExact(ends: seq<nat>)
    requires IsSlots(ends)
    ensures CycleOutcome(ends) == PowOk <==> IsOneCycle(Links(KeysOf(ends), ends, false))
  {
    LinksMutual(KeysOf(ends), ends, false);
    WalkExact(Links(KeysOf(ends), ends, false));
  }

  lemma CycleMeansFilter(ends: seq<nat>)
    requires IsSlots(ends) && CycleOutcome(ends) == PowOk
    ensures PassesFilter(ends)
  {
    OutcomeExact(ends);
    var w :| FullCycle(Links(KeysOf(ends), ends, false), w);
    FilterRedundant(ends, w);
  }

  // ---------------------------------------------------------------- over the edge hash and the edges

  /** The end of an edge on side `s`: the low bits of its hash, or those above bit 32. */
  function NodeAt(block: SipBlock, edgeBits: nat, edge: int, s: nat): nat {
    (if s == 0 then block(edge) else block(edge) / 0x1_0000_0000) % Pow2(edgeBits)
  }

  /** On side `s`, edges `a` and `b` have the same end, and no other edge has it. */
  ghost predicate Share(block: SipBlock, edgeBits: nat, proof: seq<int>, a: nat, b: nat, s: nat)
    requires a < PROOFSIZE <= |proof| && b < PROOFSIZE
  {
    && a != b && NodeAt(block, edgeBits, proof[a], s) == NodeAt(block, edgeBits, proof[b], s)
    && forall c :: 0 <= c < PROOFSIZE && c != a && c != b ==>
         NodeAt(block, edgeBits, proof[c], s) != NodeAt(block, edgeBits, proof[a], s)
  }

  /** Round the order, each edge shares the end it is left by with the next one, which is left by the other end. */
  ghost predicate GoesRound(block: SipBlock, edgeBits: nat, proof: seq<int>, order: seq<nat>, side: seq<nat>)
    requires PROOFSIZE <= |proof|
  {
    && IsOrder(order, side, PROOFSIZE)
    && forall t :: 0 <= t < PROOFSIZE ==> RoundStep(block, edgeBits, proof, order, side, t)
  }

  ghost predicate RoundStep(block: SipBlock, edgeBits: nat, proof: seq<int>, order: seq<nat>, side: seq<nat>, t: nat)
    requires PROOFSIZE <= |proof| && IsOrder(order, side, PROOFSIZE) && t < PROOFSIZE
  {
    var u := Succ(t, PROOFSIZE);
    side[u] == 1 - side[t] && Share(block, edgeBits, proof, order[t], order[u], side[t])
  }

  /** The first PROOFSIZE edges are good and form one cycle through all of them. */
  ghost predicate IsCuckarooProof(block: SipBlock, proof: seq<int>, edgeBits: nat) {
    && GoodEdges(proof, Pow2(edgeBits) - 1, 0)
    && exists order, side :: GoesRound(block, edgeBits, proof, order, side)
  }

  lemma WordHalf()
    ensures Pow2(32) == 0x1_0000_0000
  {
    assert Pow2(4) == 16;
    Pow2Add(4, 4);
    Pow2Add(8, 8);
    Pow2Add(16, 16);
  }

  lemma EndsOfEdge(block: SipBlock, edgeBits: nat, edge: int)
    ensures EndU(block, edgeBits, edge) == NodeAt(block, edgeBits, edge, 0)
    ensures EndV(block, edgeBits, edge) == NodeAt(block, edgeBits, edge, 1)
  {
    WordHalf();
    MaskRemainder(block(edge), edgeBits);
    ShiftRightDivides(block(edge), 32);
    MaskRemainder(ShiftRight(block(edge), 32), edgeBits);
  }

  /** Slots `2i` and `2i + 1` hold the two ends of edge number `i`. */
  lemma {:induction false} EndpointsAt(block: SipBlock, edgeBits: nat, proof: seq<int>, n: nat, i: nat)
    requires i < n <= |proof|
    ensures Endpoints(block, edgeBits, proof, n)[2 * i] == NodeAt(block, edgeBits, proof[i], 0)
    ensures Endpoints(block, edgeBits, proof, n)[2 * i + 1] == NodeAt(block, edgeBits, proof[i], 1)
  {
    if i == n - 1 {
      EndsOfEdge(block, edgeBits, proof[i]);
    } else {
      EndpointsAt(block, edgeBits, proof, n - 1, i);
    }
  }

  /** The ends on one side, one an edge. */
  function NodesOf(block: SipBlock, edgeBits: nat, proof: seq<int>, n: nat, s: nat): (r: seq<nat>)
    requires n <= |proof|
    ensures |r| == n
  {
    seq(n, c requires 0 <= c < n => NodeAt(block, edgeBits, proof[c], s))
  }

  /** Slots meet when their sides and their ends are the same. */
  lemma KeysTellSides(block: SipBlock, edgeBits: nat, proof: seq<int>, n: nat, s: nat)
    requires n <= |proof| && s < 2
    ensures SideKeys(KeysOf(Endpoints(block, edgeBits, proof, n)), NodesOf(block, edgeBits, proof, n, s), s)
  {
    var keys, values := KeysOf(Endpoints(block, edgeBits, proof, n)), NodesOf(block, edgeBits, proof, n, s);
    forall c | 0 <= c < n ensures SideKey(keys, values, s, c) {
      EndpointsAt(block, edgeBits, proof, n, c);
    }
  }

  lemma NodesShare(block: SipBlock, edgeBits: nat, proof: seq<int>, n: nat, a: nat, b: nat, s: nat)
    requires n == PROOFSIZE <= |proof| && a < n && b < n
    ensures OnlyTwo(NodesOf(block, edgeBits, proof, n, s), a, b) <==> Share(block, edgeBits, proof, a, b, s)
  {
    var values := NodesOf(block, edgeBits, proof, n, s);
    assert forall c :: 0 <= c < n ==> values[c] == NodeAt(block, edgeBits, proof[c], s);
  }

  lemma StepOfTour(block: SipBlock, edgeBits: nat, proof: seq<int>, n: nat, ends: seq<nat>, order: seq<nat>, side: seq<nat>, t: nat)
    requires n == PROOFSIZE <= |proof| && ends == Endpoints(block, edgeBits, proof, n) && IsOrder(order, side, n) && t < n
    ensures Joined(KeysOf(ends), ends, false, order, side, t) <==> RoundStep(block, edgeBits, proof, order, side, t)
  {
    var u, s := Succ(t, n), side[t];
    KeysTellSides(block, edgeBits, proof, n, s);
    KeysTellSides(block, edgeBits, proof, n, 1 - s);
    MatchOnSide(KeysOf(ends), NodesOf(block, edgeBits, proof, n, s), NodesOf(block, edgeBits, proof, n, 1 - s),
                s, 1 - side[u], order[t], order[u]);
    NodesShare(block, edgeBits, proof, n, order[t], order[u], s);
  }

  lemma TourGoesRound(block: SipBlock, edgeBits: nat, proof: seq<int>, n: nat, ends: seq<nat>, order: seq<nat>, side: seq<nat>)
    requires n == PROOFSIZE <= |proof| && ends == Endpoints(block, edgeBits, proof, n)
    ensures Tour(Links(KeysOf(ends), ends, false), order, side) <==> GoesRound(block, edgeBits, proof, order, side)
  {
    if |order| == n {
      TourOfKeys(KeysOf(ends), ends, false, order, side);
      if IsOrder(order, side, n) {
        forall t | 0 <= t < n
          ensures Joined(KeysOf(ends), ends, false, order, side, t) <==> RoundStep(block, edgeBits, proof, order, side, t)
        {
          StepOfTour(block, edgeBits, proof, n, ends, order, side, t);
        }
      }
    }
  }

  /** One cycle of slots is one cycle of edges. */
  lemma CycleGoesRound(block: SipBlock, edgeBits: nat, proof: seq<int>, ends: seq<nat>)
    requires PROOFSIZE <= |proof| && ends == Endpoints(block, edgeBits, proof, PROOFSIZE)
    ensures IsOneCycle(Links(KeysOf(ends), ends, false)) <==>
            exists order, side :: GoesRound(block, edgeBits, proof, order, side)
  {
    var links := Links(KeysOf(ends), ends, false);
    LinksMutual(KeysOf(ends), ends, false);
    CycleIsTour(links);
    if HasTour(links) {
      var order, side :| Tour(links, order, side);
      TourGoesRound(block, edgeBits, proof, PROOFSIZE, ends, order, side);
    }
    if exists order, side :: GoesRound(block, edgeBits, proof, order, side) {
      var order, side :| GoesRound(block, edgeBits, proof, order, side);
      TourGoesRound(block, edgeBits, proof, PROOFSIZE, ends, order, side);
    }
  }

  /**
    verify_cuckaroo accepts exactly the proofs whose edges are in range, strictly ascending and form one
    cycle through all of them, each end being shared with exactly one other of its side.
  */
  lemma CuckarooExact(block: SipBlock, proof: seq<int>, edgeBits: nat)
    ensures Status(block, proof, edgeBits) == PowOk <==> IsCuckarooProof(block, proof, edgeBits)
  {
    EdgeFaultMeaning(proof, Pow2(edgeBits) - 1, TooSmall, 0);
    if !GoodEdges(proof, Pow2(edgeBits) - 1, 0) {
      return;
    }
    var ends := Endpoints(block, edgeBits, proof, PROOFSIZE);
    OutcomeExact(ends);
    CycleGoesRound(block, edgeBits, proof, ends);
    if CycleOutcome(ends) == PowOk { CycleMeansFilter(ends); }
  }

  // ---------------------------------------------------------------- every verdict

  /** On side `s` an even number of edges have each bit in their end. */
  ghost predicate Balanced(block: SipBlock, edgeBits: nat, proof: seq<int>, s: nat)
    requires PROOFSIZE <= |proof|
  {
    forall k: nat :: EvenAt(NodesOf(block, edgeBits, proof, PROOFSIZE, s), k)
  }

  lemma FilterMeaning(block: SipBlock, edgeBits: nat, proof: seq<int>, n: nat, s: nat)
    requires n == PROOFSIZE <= |proof| && s < 2
    ensures XorAll(Side(Endpoints(block, edgeBits, proof, n), s, n)) == 0 <==> Balanced(block, edgeBits, proof, s)
  {
    var vals := NodesOf(block, edgeBits, proof, n, s);
    forall c | 0 <= c < n ensures Side(Endpoints(block, edgeBits, proof, n), s, n)[c] == vals[c] {
      EndpointsAt(block, edgeBits, proof, n, c);
    }
    assert Side(Endpoints(block, edgeBits, proof, n), s, n) == vals;
    XorVanishes(vals);
  }

  /**
    What each status means: the first edge that is missing, too big or out of order; else an unbalanced side; else
    how the path of slots from slot 0 ends.
  */
  lemma StatusMeaning(block: SipBlock, proof: seq<int>, edgeBits: nat) returns (k: nat, path: seq<nat>)
    ensures k <= PROOFSIZE && GoodBefore(proof, Pow2(edgeBits) - 1, k)
    ensures k < PROOFSIZE && k == |proof| ==> Status(block, proof, edgeBits) == OutOfEdges
    ensures k < PROOFSIZE && k < |proof| ==>
              if proof[k] > Pow2(edgeBits) - 1 then Status(block, proof, edgeBits) == TooBig
              else k > 0 && proof[k] <= proof[k - 1] && Status(block, proof, edgeBits) == TooSmall
    ensures k == PROOFSIZE ==>
              var ends := Endpoints(block, edgeBits, proof, PROOFSIZE);
              var links := Links(KeysOf(ends), ends, false);
              if !Balanced(block, edgeBits, proof, 0) || !Balanced(block, edgeBits, proof, 1) then
                Status(block, proof, edgeBits) == NonMatching
              else
                && IsPath(links, path) && Status(block, proof, edgeBits) == Verdict(links, path)
                && match links[path[|path| - 1]] case To(j) => Other(j) == 0 case _ => true
  {
    var mask := Pow2(edgeBits) - 1;
    path := [];
    k := FirstFault(proof, mask, TooSmall, 0);
    if k == PROOFSIZE {
      var ends := Endpoints(block, edgeBits, proof, PROOFSIZE);
      FilterMeaning(block, edgeBits, proof, PROOFSIZE, 0);
      FilterMeaning(block, edgeBits, proof, PROOFSIZE, 1);
      LinksMutual(KeysOf(ends), ends, false);
      path := OutcomeEnds(Links(KeysOf(ends), ends, false));
    }
  }

  /** cuckaroo_validate, for lists of every length: it accepts exactly the proofs. */
  method CuckarooValidate(proofNonces: seq<int>, block: SipBlock, edgeBits: nat) returns (ok: bool, status: PowStatus)
    ensures ok <==> status == PowOk
    ensures ok <==> |proofNonces| == PROOFSIZE && IsCuckarooProof(block, proofNonces, edgeBits)
    ensures |proofNonces| < PROOFSIZE ==> status == TooSmall
    ensures |proofNonces| > PROOFSIZE ==> status == TooBig
  {
    if |proofNonces| < PROOFSIZE {
      return false, TooSmall;
    }
    if |proofNonces| > PROOFSIZE {
      return false, TooBig;
    }
    status := VerifyCuckaroo(proofNonces, block, edgeBits);
    ok := status == PowOk;
    CuckarooExact(block, proofNonces, edgeBits);
  }
}
