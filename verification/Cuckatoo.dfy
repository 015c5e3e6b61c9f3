/** verify_cuckatoo of mimblewimble/pow/algos/cuckatoo.py, for any endpoint function in place of sipnode. */
module Cuckatoo {
  import opened Bits
  import opened XorPairs
  import opened Cycles
  import opened Slots
  import opened Sides
  import opened Tours

  /** Endpoint of an edge on side 0 or 1, already masked. */
  type SipNode = (int, nat) -> nat

  /** Endpoints of the first `n` edges, two per edge. */
  function Endpoints(node: SipNode, edges: seq<int>, n: nat): (r: seq<nat>)
    requires n <= |edges|
    ensures |r| == 2 * n
  {
    if n == 0 then [] else Endpoints(node, edges, n - 1) + [node(edges[n - 1], 0), node(edges[n - 1], 1)]
  }

  /** Slots meet when they are on the same side and their endpoints agree but for the lowest bit. */
  function KeysOf(ends: seq<nat>): seq<Key> {
    seq(|ends|, i requires 0 <= i < |ends| => (i % 2, ends[i] / 2))
  }

  ghost function CuckatooLinks(ends: seq<nat>): seq<Link> {
    Links(KeysOf(ends), ends, true)
  }

  /** Parity the XOR accumulators start from. */
  function StartParity(): nat {
    PROOFSIZE / 2 % 2
  }

  /** The accumulator of one side after `n` edges. */
  function Accumulated(ends: seq<nat>, side: nat, n: nat): nat
    requires side < 2 && 2 * n <= |ends|
  {
    BitXor(StartParity(), XorAll(Side(ends, side, n)))
  }

  function PassesFilter(ends: seq<nat>): bool
    requires |ends| == 2 * PROOFSIZE
  {
    Accumulated(ends, 0, PROOFSIZE) == 0 && Accumulated(ends, 1, PROOFSIZE) == 0
  }

  ghost function CycleOutcome(ends: seq<nat>): PowStatus
    requires IsSlots(ends)
  {
    LinksMutual(KeysOf(ends), ends, true);
    Outcome(CuckatooLinks(ends))
  }

  /** The status for every input. */
  ghost function Status(node: SipNode, edges: seq<int>, edgeBits: nat): PowStatus
  {
    var fault := EdgeFault(edges, Pow2(edgeBits) - 1, TooSmall, 0);
    EdgeFaultMeaning(edges, Pow2(edgeBits) - 1, TooSmall, 0);
    if fault != PowOk then fault
    else
      var ends := Endpoints(node, edges, PROOFSIZE);
      if !PassesFilter(ends) then NonMatching else CycleOutcome(ends)
  }

  /** Slots of the side of `i` a cyclic scan from `i + 2` has passed when it stands on `k`. */
  predicate Scanned(i: nat, k: nat, x: nat) {
    x % 2 == i % 2 && x != i && (if k > i then i < x < k else x > i || x < k)
  }

  ghost predicate ScanState(ends: seq<nat>, i: nat, k: nat, j: Link)
    requires i < |ends|
  {
    match j
    case Unmatched => forall x :: 0 <= x < |ends| && Scanned(i, k, x) ==> ends[x] / 2 != ends[i] / 2
    case To(s) =>
      && s < |ends| && Scanned(i, k, s) && ends[s] / 2 == ends[i] / 2
      && forall x :: 0 <= x < |ends| && Scanned(i, k, x) && x != s ==> ends[x] / 2 != ends[i] / 2
    case Forked => false
  }

  /** The slot after `k` on its side, cyclically. */
  function Next(k: nat, size: nat): nat
    requires k < size
  {
    if k + 2 < size then k + 2 else k + 2 - size
  }

  /** How far a scan that stands on `k` is from being back at `i`. */
  function ToGo(i: nat, k: nat, size: nat): nat
    requires k < size
  {
    if k > i then 2 * size - k else i - k
  }

  lemma NextSlot(i: nat, k: nat, size: nat)
    requires i < size == 2 * PROOFSIZE && k < size && k % 2 == i % 2
    ensures (k + 2) % (2 * PROOFSIZE) == Next(k, size) && Next(k, size) < size && Next(k, size) % 2 == i % 2
    ensures k != i ==> ToGo(i, Next(k, size), size) < ToGo(i, k, size)
  {
  }

  lemma ScanStep(ends: seq<nat>, i: nat, k: nat, j: Link)
    requires |ends| % 2 == 0 && i < |ends| && k < |ends| && k % 2 == i % 2 && k != i && ScanState(ends, i, k, j)
    requires ends[k] / 2 == ends[i] / 2 ==> j == Unmatched
    ensures ScanState(ends, i, Next(k, |ends|), if ends[k] / 2 == ends[i] / 2 then To(k) else j)
  {
    forall x: nat | x < |ends| ensures Scanned(i, Next(k, |ends|), x) <==> Scanned(i, k, x) || x == k {
    }
  }

  /** A finished scan knows the link. */
  lemma ScanDone(ends: seq<nat>, i: nat, j: Link)
    requires i < |ends| && ScanState(ends, i, i, j)
    ensures LinkAt(KeysOf(ends), ends, true, i) ==
            if j.To? && ends[j.slot] == ends[i] then Unmatched else j
  {
    var keys := KeysOf(ends);
    if j == Unmatched {
      LinkUnmatched(keys, ends, true, i);
    } else {
      assert OnlyMatch(keys, i, j.slot);
      LinkFound(keys, ends, true, i, j.slot);
    }
  }

  /** What the inner loop finds out about slot `i`. */
  method FindPartner(ends: array<nat>, i: nat) returns (link: Link)
    requires ends.Length == 2 * PROOFSIZE && i < ends.Length
    ensures link == LinkAt(KeysOf(ends[..]), ends[..], true, i)
  {
    var current := ends[i] / 2;
    link := Unmatched;
    ghost var es := ends[..];
    var k: nat := (i + 2) % (2 * PROOFSIZE);
    NextSlot(i, i, ends.Length);
    while k != i
      invariant k < ends.Length && k % 2 == i % 2
      invariant ScanState(es, i, k, link)
      decreases ToGo(i, k, ends.Length)
    {
      if ends[k] / 2 == current {
        if link != Unmatched {
          LinkForked(KeysOf(es), es, true, i, link.slot, k);
          return Forked;
        }
        ScanStep(es, i, k, link);
        link := To(k);
      } else {
        ScanStep(es, i, k, link);
      }
      NextSlot(i, k, ends.Length);
      k := (k + 2) % (2 * PROOFSIZE);
    }
    ScanDone(es, i, link);
    if link != Unmatched && ends[link.slot] == ends[i] {
      link := Unmatched;
    }
  }

  /** The cycle-following phase; that the loop ends is part of what is proved. */
  method FollowCycle(ends: array<nat>) returns (status: PowStatus)
    requires ends.Length == 2 * PROOFSIZE
    ensures status == CycleOutcome(ends[..])
  {
    ghost var links := CuckatooLinks(ends[..]);
    LinksMutual(KeysOf(ends[..]), ends[..], true);
    var n, i := 0, 0;
    ghost var path := [0];
    while true
      invariant IsPath(links, path) && i == path[|path| - 1] && n == |path| - 1
      invariant n <= |links| && Walk(links, i, n, |links| - n) == Outcome(links)
      decreases |links| - n
    {
      var link := FindPartner(ends, i);
      assert link == links[i];
      if link == Forked {
        return Branching;
      }
      if link == Unmatched {
        return DeadEnd;
      }
      var next := Other(link.slot);
      n := n + 1;
      if next == 0 {
        break;
      }
      PathExtends(links, path, link.slot);
      path := path + [next];
      PathFits(links, path);
      i := next;
    }
    status := if n == PROOFSIZE then PowOk else ShortCycle;
  }

  method VerifyCuckatoo(edges: seq<int>, node: SipNode, edgeBits: nat) returns (status: PowStatus)
    ensures status == Status(node, edges, edgeBits)
  {
    var endpoints: array<nat>;
    var xor0: nat, xor1: nat;
    status, endpoints, xor0, xor1 := Extract(edges, node, edgeBits);
    if status != PowOk {
      return;
    }
    if xor0 != 0 || xor1 != 0 {
      return NonMatching;
    }
    status := FollowCycle(endpoints);
  }

  /** The first phase: edge checks, endpoints and the XOR accumulators. */
  method Extract(edges: seq<int>, node: SipNode, edgeBits: nat) returns (status: PowStatus, endpoints: array<nat>, xor0: nat, xor1: nat)
    ensures endpoints.Length == 2 * PROOFSIZE
    ensures status == EdgeFault(edges, Pow2(edgeBits) - 1, TooSmall, 0)
    ensures status == PowOk ==>
              && PROOFSIZE <= |edges| && endpoints[..] == Endpoints(node, edges, PROOFSIZE)
              && xor0 == Accumulated(endpoints[..], 0, PROOFSIZE) && xor1 == Accumulated(endpoints[..], 1, PROOFSIZE)
  {
    var edgeMask := Pow2(edgeBits) - 1;
    xor0, xor1 := PROOFSIZE / 2 % 2, PROOFSIZE / 2 % 2;
    endpoints := new nat[2 * PROOFSIZE](_ => 0);
    var i := 0;
    ghost var ends: seq<nat> := [];
    ghost var fault := EdgeFault(edges, edgeMask, TooSmall, 0);
    while i < PROOFSIZE
      invariant 0 <= i <= PROOFSIZE && i <= |edges|
      invariant endpoints[..2 * i] == ends == Endpoints(node, edges, i)
      invariant xor0 == Accumulated(ends, 0, i)
      invariant xor1 == Accumulated(ends, 1, i)
      invariant EdgeFault(edges, edgeMask, TooSmall, i) == fault
    {
      status := CheckEdge(edges, edgeMask, TooSmall, i);
      if status != PowOk {
        return;
      }
      var edge := edges[i];
      var u, v := node(edge, 0), node(edge, 1);
      WriteEnds(endpoints, i, u, v);
      SideStep(ends, u, v, i);
      xor0 := BitXor(xor0, u);
      xor1 := BitXor(xor1, v);
      ends := ends + [u, v];
      i := i + 1;
    }
    assert endpoints[..] == endpoints[..2 * i];
    status := PowOk;
  }

  /** One round of both accumulators. */
  lemma SideStep(ends: seq<nat>, u: nat, v: nat, n: nat)
    requires |ends| == 2 * n
    ensures Accumulated(ends + [u, v], 0, n + 1) == BitXor(Accumulated(ends, 0, n), u)
    ensures Accumulated(ends + [u, v], 1, n + 1) == BitXor(Accumulated(ends, 1, n), v)
  {
    SideGrows(ends, u, v, n);
    XorAssociates(StartParity(), XorAll(Side(ends, 0, n)), u);
    XorAssociates(StartParity(), XorAll(Side(ends, 1, n)), v);
  }

  // ---------------------------------------------------------------- exactness

  /** The endpoints of one side of a full cycle pair up, each with the one that differs in the lowest bit. */
  lemma SidePaired(ends: seq<nat>, w: seq<nat>, side: nat, i: nat)
    requires IsSlots(ends) && FullCycle(CuckatooLinks(ends), w) && side < 2 && i < PROOFSIZE
    ensures HasPartner(Side(ends, side, PROOFSIZE), 1, i)
  {
    var keys := KeysOf(ends);
    var j := CycleMatches(keys, ends, true, w, 2 * i + side);
    var vals := Side(ends, side, PROOFSIZE);
    var p := j / 2;
    assert keys[j] == keys[2 * i + side];
    assert j == 2 * p + side;
    XorLowBit(vals[i], vals[p]);
    forall k | 0 <= k < PROOFSIZE && k != i && k != p ensures vals[k] / 2 != vals[i] / 2 {
      assert keys[2 * k + side] != keys[2 * i + side];
    }
    assert PairedWith(vals, 1, i, p);
  }

  /** The XOR prefilter rejects no full cycle. */
  lemma FilterRedundant(ends: seq<nat>, w: seq<nat>)
    requires IsSlots(ends) && FullCycle(CuckatooLinks(ends), w)
    ensures PassesFilter(ends)
  {
    forall side: nat | side < 2 ensures XorAll(Side(ends, side, PROOFSIZE)) == StartParity() {
      forall i: nat | i < PROOFSIZE ensures HasPartner(Side(ends, side, PROOFSIZE), 1, i) {
        SidePaired(ends, w, side, i);
      }
      PairsXor(Side(ends, side, PROOFSIZE), 1);
    }
    XorSelf(StartParity());
  }

  lemma OutcomeExact(ends: seq<nat>)
    requires IsSlots(ends)
    ensures CycleOutcome(ends) == PowOk <==> IsOneCycle(CuckatooLinks(ends))
  {
    LinksMutual(KeysOf(ends), ends, true);
    WalkExact(CuckatooLinks(ends));
  }

  lemma CycleMeansFilter(ends: seq<nat>)
    requires IsSlots(ends) && CycleOutcome(ends) == PowOk
    ensures PassesFilter(ends)
  {
    OutcomeExact(ends);
    var w :| FullCycle(CuckatooLinks(ends), w);
    FilterRedundant(ends, w);
  }

  // ---------------------------------------------------------------- over the endpoint function and the edges

  /** On side `s`, edges `a` and `b` have endpoints that differ in the lowest bit only, and no other edge comes near. */
  ghost predicate Adjoin(node: SipNode, edges: seq<int>, a: nat, b: nat, s: nat)
    requires a < PROOFSIZE <= |edges| && b < PROOFSIZE
  {
    && a != b && node(edges[a], s) != node(edges[b], s) && node(edges[a], s) / 2 == node(edges[b], s) / 2
    && forall c :: 0 <= c < PROOFSIZE && c != a && c != b ==> node(edges[c], s) / 2 != node(edges[a], s) / 2
  }

  /** Round the order, each edge adjoins the next one on the side it is left by, and the next is left by the other side. */
  ghost predicate GoesRound(node: SipNode, edges: seq<int>, order: seq<nat>, side: seq<nat>)
    requires PROOFSIZE <= |edges|
  {
    && IsOrder(order, side, PROOFSIZE)
    && forall t :: 0 <= t < PROOFSIZE ==> RoundStep(node, edges, order, side, t)
  }

  ghost predicate RoundStep(node: SipNode, edges: seq<int>, order: seq<nat>, side: seq<nat>, t: nat)
    requires PROOFSIZE <= |edges| && IsOrder(order, side, PROOFSIZE) && t < PROOFSIZE
  {
    var u := Succ(t, PROOFSIZE);
    side[u] == 1 - side[t] && Adjoin(node, edges, order[t], order[u], side[t])
  }

  /** The first PROOFSIZE edges are good and form one cycle through all of them. */
  ghost predicate IsCuckatooProof(node: SipNode, edges: seq<int>, edgeBits: nat) {
    && GoodEdges(edges, Pow2(edgeBits) - 1, 0)
    && exists order, side :: GoesRound(node, edges, order, side)
  }

  /** Slots `2i` and `2i + 1` hold the endpoints of edge number `i` on sides 0 and 1. */
  lemma {:induction false} EndpointsAt(node: SipNode, edges: seq<int>, n: nat, i: nat)
    requires i < n <= |edges|
    ensures Endpoints(node, edges, n)[2 * i] == node(edges[i], 0)
    ensures Endpoints(node, edges, n)[2 * i + 1] == node(edges[i], 1)
  {
    if i == n - 1 {
    } else {
      EndpointsAt(node, edges, n - 1, i);
    }
  }

  /** Half the endpoints of one side, which tell which slots meet. */
  function Halves(node: SipNode, edges: seq<int>, n: nat, s: nat): (r: seq<nat>)
    requires n <= |edges|
    ensures |r| == n
  {
    seq(n, c requires 0 <= c < n => node(edges[c], s) / 2)
  }

  /** Slots meet when their sides are the same and their endpoints agree but for the lowest bit. */
  lemma KeysTellSides(node: SipNode, edges: seq<int>, n: nat, s: nat)
    requires n <= |edges| && s < 2
    ensures SideKeys(KeysOf(Endpoints(node, edges, n)), Halves(node, edges, n, s), s)
  {
    var keys, values := KeysOf(Endpoints(node, edges, n)), Halves(node, edges, n, s);
    forall c | 0 <= c < n ensures SideKey(keys, values, s, c) {
      EndpointsAt(node, edges, n, c);
    }
  }

  lemma SlotsAdjoin(node: SipNode, edges: seq<int>, n: nat, ends: seq<nat>, a: nat, b: nat, s: nat, r: nat)
    requires n == PROOFSIZE <= |edges| && a < n && b < n && s < 2 && r < 2 && ends == Endpoints(node, edges, n)
    ensures OnlyMatch(KeysOf(ends), 2 * a + s, 2 * b + r) && ends[2 * b + r] != ends[2 * a + s] <==>
            r == s && Adjoin(node, edges, a, b, s)
  {
    var values := Halves(node, edges, n, s);
    KeysTellSides(node, edges, n, s);
    KeysTellSides(node, edges, n, 1 - s);
    MatchOnSide(KeysOf(ends), values, Halves(node, edges, n, 1 - s), s, r, a, b);
    EndpointsAt(node, edges, n, a);
    EndpointsAt(node, edges, n, b);
    HalvesAdjoin(node, edges, n, a, b, s);
  }

  lemma HalvesAdjoin(node: SipNode, edges: seq<int>, n: nat, a: nat, b: nat, s: nat)
    requires n == PROOFSIZE <= |edges| && a < n && b < n
    ensures OnlyTwo(Halves(node, edges, n, s), a, b) && node(edges[b], s) != node(edges[a], s) <==> Adjoin(node, edges, a, b, s)
  {
    var values := Halves(node, edges, n, s);
    assert forall c :: 0 <= c < n ==> values[c] == node(edges[c], s) / 2;
  }

  lemma StepOfTour(node: SipNode, edges: seq<int>, n: nat, ends: seq<nat>, order: seq<nat>, side: seq<nat>, t: nat)
    requires n == PROOFSIZE <= |edges| && ends == Endpoints(node, edges, n) && IsOrder(order, side, n) && t < n
    ensures Joined(KeysOf(ends), ends, true, order, side, t) <==> RoundStep(node, edges, order, side, t)
  {
    var u := Succ(t, n);
    SlotsAdjoin(node, edges, n, ends, order[t], order[u], side[t], 1 - side[u]);
  }

  lemma TourGoesRound(node: SipNode, edges: seq<int>, n: nat, ends: seq<nat>, order: seq<nat>, side: seq<nat>)
    requires n == PROOFSIZE <= |edges| && ends == Endpoints(node, edges, n)
    ensures Tour(CuckatooLinks(ends), order, side) <==> GoesRound(node, edges, order, side)
  {
    if |order| == n {
      TourOfKeys(KeysOf(ends), ends, true, order, side);
      if IsOrder(order, side, n) {
        forall t | 0 <= t < n
          ensures Joined(KeysOf(ends), ends, true, order, side, t) <==> RoundStep(node, edges, order, side, t)
        {
          StepOfTour(node, edges, n, ends, order, side, t);
        }
      }
    }
  }

  /** One cycle of slots is one cycle of edges. */
  lemma CycleGoesRound(node: SipNode, edges: seq<int>, ends: seq<nat>)
    requires PROOFSIZE <= |edges| && ends == Endpoints(node, edges, PROOFSIZE)
    ensures IsOneCycle(CuckatooLinks(ends)) <==> exists order, side :: GoesRound(node, edges, order, side)
  {
    LinksMutual(KeysOf(ends), ends, true);
    CycleIsTour(CuckatooLinks(ends));
    if HasTour(CuckatooLinks(ends)) {
      var order, side :| Tour(CuckatooLinks(ends), order, side);
      TourGoesRound(node, edges, PROOFSIZE, ends, order, side);
    }
    if exists order, side :: GoesRound(node, edges, order, side) {
      var order, side :| GoesRound(node, edges, order, side);
      TourGoesRound(node, edges, PROOFSIZE, ends, order, side);
    }
  }

  /**
    verify_cuckatoo accepts exactly the proofs whose edges are in range, strictly ascending and form one
    cycle through all of them, each endpoint meeting exactly one other of its side, in the lowest bit.
  */
  lemma CuckatooExact(node: SipNode, edges: seq<int>, edgeBits: nat)
    ensures Status(node, edges, edgeBits) == PowOk <==> IsCuckatooProof(node, edges, edgeBits)
  {
    EdgeFaultMeaning(edges, Pow2(edgeBits) - 1, TooSmall, 0);
    if !GoodEdges(edges, Pow2(edgeBits) - 1, 0) {
      return;
    }
    var ends := Endpoints(node, edges, PROOFSIZE);
    OutcomeExact(ends);
    CycleGoesRound(node, edges, ends);
    if CycleOutcome(ends) == PowOk { CycleMeansFilter(ends); }
  }

  // ---------------------------------------------------------------- every verdict

  /** On side `s` an even number of endpoints have each bit but the lowest, which an odd number have, PROOFSIZE / 2 being odd. */
  ghost predicate Balanced(node: SipNode, edges: seq<int>, s: nat)
    requires PROOFSIZE <= |edges|
  {
    forall k: nat :: OddLowest(SideValues(node, edges, PROOFSIZE, s), k)
  }

  function SideValues(node: SipNode, edges: seq<int>, n: nat, s: nat): seq<nat>
    requires n <= |edges|
  {
    seq(n, c requires 0 <= c < n => node(edges[c], s))
  }

  lemma AccumulatedMeaning(node: SipNode, edges: seq<int>, n: nat, s: nat)
    requires n == PROOFSIZE <= |edges| && s < 2
    ensures Accumulated(Endpoints(node, edges, n), s, n) == 0 <==> Balanced(node, edges, s)
  {
    var vals := SideValues(node, edges, n, s);
    forall c | 0 <= c < n ensures Side(Endpoints(node, edges, n), s, n)[c] == vals[c] {
      EndpointsAt(node, edges, n, c);
    }
    assert Side(Endpoints(node, edges, n), s, n) == vals;
    XorZero(StartParity(), XorAll(vals));
    XorIsOne(vals);
  }

  lemma XorZero(a: nat, b: nat)
    ensures BitXor(a, b) == 0 <==> a == b
  {
    XorSelf(b);
    if BitXor(a, b) == 0 { XorInjective(a, b, b); }
  }

  /**
    What each status means: the first edge that is missing, too big or out of order; else an unbalanced side; else
    how the path of slots from slot 0 ends.
  */
  lemma StatusMeaning(node: SipNode, edges: seq<int>, edgeBits: nat) returns (k: nat, path: seq<nat>)
    ensures k <= PROOFSIZE && GoodBefore(edges, Pow2(edgeBits) - 1, k)
    ensures k < PROOFSIZE && k == |edges| ==> Status(node, edges, edgeBits) == OutOfEdges
    ensures k < PROOFSIZE && k < |edges| ==>
              if edges[k] > Pow2(edgeBits) - 1 then Status(node, edges, edgeBits) == TooBig
              else k > 0 && edges[k] <= edges[k - 1] && Status(node, edges, edgeBits) == TooSmall
    ensures k == PROOFSIZE ==>
              var links := CuckatooLinks(Endpoints(node, edges, PROOFSIZE));
              if !Balanced(node, edges, 0) || !Balanced(node, edges, 1) then Status(node, edges, edgeBits) == NonMatching
              else
                && IsPath(links, path) && Status(node, edges, edgeBits) == Verdict(links, path)
                && match links[path[|path| - 1]] case To(j) => Other(j) == 0 case _ => true
  {
    var mask := Pow2(edgeBits) - 1;
    path := [];
    k := FirstFault(edges, mask, TooSmall, 0);
    if k == PROOFSIZE {
      var ends := Endpoints(node, edges, PROOFSIZE);
      AccumulatedMeaning(node, edges, PROOFSIZE, 0);
      AccumulatedMeaning(node, edges, PROOFSIZE, 1);
      LinksMutual(KeysOf(ends), ends, true);
      path := OutcomeEnds(CuckatooLinks(ends));
    }
  }

  /** cuckatoo_validate, for lists of every length: it accepts exactly the proofs. */
  method CuckatooValidate(proofNonces: seq<int>, node: SipNode, edgeBits: nat) returns (ok: bool, status: PowStatus)
    ensures ok <==> status == PowOk
    ensures ok <==> |proofNonces| == PROOFSIZE && IsCuckatooProof(node, proofNonces, edgeBits)
    ensures |proofNonces| < PROOFSIZE ==> status == TooSmall
    ensures |proofNonces| > PROOFSIZE ==> status == TooBig
  {
    if |proofNonces| < PROOFSIZE {
      return false, TooSmall;
    }
    if |proofNonces| > PROOFSIZE {
      return false, TooBig;
    }
    status := VerifyCuckatoo(proofNonces, node, edgeBits);
    ok := status == PowOk;
    CuckatooExact(node, proofNonces, edgeBits);
  }
}
