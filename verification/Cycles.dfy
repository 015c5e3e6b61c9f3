/**
  The cycle walk shared by the Cuckoo Cycle verifiers. A proof of `n` edges has `2n` slots, slots `2e`
  and `2e + 1` being the two ends of edge `e`; every slot is linked to the one slot it meets, if any.
*/
module Cycles {

  const PROOFSIZE: nat := 42

  /**
    The statuses the verifiers return. `NoSuchStatus` stands for naming one the enumeration lacks, `OutOfEdges`
    for reading past the end of the list of edges; both raise.
  */
  datatype PowStatus =
    | PowOk | TooBig | TooSmall | NonMatching | Branching | DeadEnd | ShortCycle | NoSuchStatus | OutOfEdges

  /** The first complaint about the edge numbers from number `i` on; those after the first PROOFSIZE are not looked at. */
  function EdgeFault(edges: seq<int>, mask: int, onDescent: PowStatus, i: nat): PowStatus
    decreases PROOFSIZE - i, |edges|
  {
    if i >= PROOFSIZE then PowOk
    else if i >= |edges| then OutOfEdges
    else if edges[i] > mask then TooBig
    else if i > 0 && edges[i] <= edges[i - 1] then onDescent
    else EdgeFault(edges, mask, onDescent, i + 1)
  }

  /** There are enough edges, and they are in range and strictly ascending. */
  predicate GoodEdges(edges: seq<int>, mask: int, i: nat) {
    && (i < PROOFSIZE ==> PROOFSIZE <= |edges|)
    && forall k :: i <= k < |edges| && k < PROOFSIZE ==> edges[k] <= mask && (k > 0 ==> edges[k] > edges[k - 1])
  }

  lemma {:induction false} EdgeFaultMeaning(edges: seq<int>, mask: int, onDescent: PowStatus, i: nat)
    requires onDescent != PowOk
    ensures EdgeFault(edges, mask, onDescent, i) == PowOk <==> GoodEdges(edges, mask, i)
    decreases PROOFSIZE - i
  {
    if i >= PROOFSIZE || i >= |edges| {
    } else {
      EdgeFaultMeaning(edges, mask, onDescent, i + 1);
      assert GoodEdges(edges, mask, i) <==>
             GoodEdges(edges, mask, i + 1) && edges[i] <= mask && (i > 0 ==> edges[i] > edges[i - 1]);
    }
  }

  /** The first `k` edges are in range and strictly ascending. */
  predicate GoodBefore(edges: seq<int>, mask: int, k: nat) {
    k <= |edges| && forall j :: 0 <= j < k ==> edges[j] <= mask && (j > 0 ==> edges[j] > edges[j - 1])
  }

  /** The complaint is about the first edge that is missing, out of range or out of order, in this order of precedence. */
  lemma {:induction false} FirstFault(edges: seq<int>, mask: int, onDescent: PowStatus, i: nat) returns (k: nat)
    requires i <= PROOFSIZE && GoodBefore(edges, mask, i)
    ensures i <= k <= PROOFSIZE && GoodBefore(edges, mask, k)
    ensures EdgeFault(edges, mask, onDescent, i) ==
            if k == PROOFSIZE then PowOk else if k == |edges| then OutOfEdges
            else if edges[k] > mask then TooBig else onDescent
    ensures k < PROOFSIZE && k < |edges| && edges[k] <= mask ==> k > 0 && edges[k] <= edges[k - 1]
    decreases PROOFSIZE - i
  {
    if i == PROOFSIZE || i == |edges| || edges[i] > mask || (i > 0 && edges[i] <= edges[i - 1]) {
      k := i;
    } else {
      k := FirstFault(edges, mask, onDescent, i + 1);
    }
  }

  /** The checks each verifier makes of its next edge. */
  method CheckEdge(edges: seq<int>, mask: int, onDescent: PowStatus, i: nat) returns (fault: PowStatus)
    requires onDescent != PowOk && i < PROOFSIZE
    ensures fault != PowOk ==> EdgeFault(edges, mask, onDescent, i) == fault
    ensures fault == PowOk ==> i < |edges| && EdgeFault(edges, mask, onDescent, i) == EdgeFault(edges, mask, onDescent, i + 1)
  {
    if i >= |edges| {
      return OutOfEdges;
    }
    if edges[i] > mask {
      return TooBig;
    }
    if i > 0 && edges[i] <= edges[i - 1] {
      return onDescent;
    }
    return PowOk;
  }

  /** What a slot meets: several slots, none it may step to, or exactly one. */
  datatype Link = Forked | Unmatched | To(slot: nat)

  /** `i ^ 1`: the other end of the same edge. */
  function Other(i: nat): nat {
    if i % 2 == 0 then i + 1 else i - 1
  }

  ghost predicate InRange(links: seq<Link>) {
    && |links| > 0 && |links| % 2 == 0
    && forall i :: 0 <= i < |links| && links[i].To? ==> links[i].slot < |links|
  }

  /** Meeting is mutual and no slot meets itself. */
  ghost predicate Mutual(links: seq<Link>) {
    && InRange(links)
    && forall i :: 0 <= i < |links| && links[i].To? ==> links[i].slot != i && links[links[i].slot] == To(i)
  }

  /** The verdict of the walk from slot `i` with `n` edges behind it; `fuel` bounds the steps left. */
  ghost function Walk(links: seq<Link>, i: nat, n: nat, fuel: nat): PowStatus
    requires InRange(links) && i < |links|
    decreases fuel
  {
    match links[i]
    case Forked => Branching
    case Unmatched => DeadEnd
    case To(j) =>
      if Other(j) == 0 then (if n + 1 == |links| / 2 then PowOk else ShortCycle)
      else if fuel == 0 then ShortCycle
      else Walk(links, Other(j), n + 1, fuel - 1)
  }

  /** The verdict of the walk from slot 0; PathFits shows that the bound on its steps is never reached. */
  ghost function Outcome(links: seq<Link>): PowStatus
    requires InRange(links)
  {
    Walk(links, 0, 0, |links|)
  }

  ghost predicate Distinct(s: seq<nat>) {
    forall i, j :: 0 <= i < j < |s| ==> s[i] != s[j]
  }

  /**
    One cycle through all edges: an order `w` of all slots from slot 0 on in which slots meet pairwise,
    and each pair is followed by the other end of the edge it arrived at, cyclically.
  */
  ghost predicate FullCycle(links: seq<Link>, w: seq<nat>) {
    && |w| == |links| && Distinct(w)
    && (forall k :: 0 <= k < |w| ==> w[k] < |links|)
    && (|w| > 0 ==> w[0] == 0)
    && forall t :: 0 <= t && 2 * t + 1 < |w| ==> Meets(links, w, t)
  }

  ghost predicate IsOneCycle(links: seq<Link>) {
    exists w :: FullCycle(links, w)
  }

  ghost predicate Meets(links: seq<Link>, w: seq<nat>, t: nat)
    requires |w| == |links| && 2 * t + 1 < |w|
    requires forall k :: 0 <= k < |w| ==> w[k] < |links|
  {
    links[w[2 * t]] == To(w[2 * t + 1]) && w[if 2 * t + 2 < |w| then 2 * t + 2 else 0] == Other(w[2 * t + 1])
  }

  // ---------------------------------------------------------------- paths

  /** Slots the walk has stood on: it starts at slot 0 and has not come back to it. */
  ghost predicate IsPath(links: seq<Link>, path: seq<nat>) {
    && |path| > 0 && path[0] == 0
    && (forall t :: 0 <= t < |path| ==> path[t] < |links|)
    && (forall t :: 0 < t < |path| ==> path[t] != 0 && links[path[t - 1]] == To(Other(path[t])))
  }

  lemma DifferentTargets(links: seq<Link>, i: nat, k: nat)
    requires Mutual(links) && i < |links| && k < |links| && i != k && links[i].To? && links[k].To?
    ensures links[i].slot != links[k].slot
  {
  }

  /** A walk never stands on one slot twice. */
  lemma {:induction false} PathDistinct(links: seq<Link>, path: seq<nat>, s: nat, t: nat)
    requires Mutual(links) && IsPath(links, path) && s < t < |path|
    ensures path[s] != path[t]
    decreases s
  {
    if s == 0 {
    } else {
      PathDistinct(links, path, s - 1, t - 1);
      assert links[path[s - 1]] == To(Other(path[s])) && links[path[t - 1]] == To(Other(path[t]));
      DifferentTargets(links, path[s - 1], path[t - 1]);
    }
  }

  /** A walk never goes back along an edge: it never stands on the far end of an edge it came along. */
  lemma {:induction false} NeverBack(links: seq<Link>, path: seq<nat>, a: nat, b: nat)
    requires Mutual(links) && IsPath(links, path) && a < b < |path|
    ensures path[a] != Other(path[b])
    decreases b - a
  {
    if path[a] == Other(path[b]) {
      assert links[path[b - 1]] == To(path[a]);
      assert links[path[a]] == To(path[b - 1]);
      assert links[path[a]] == To(Other(path[a + 1]));
      if a + 1 < b - 1 {
        NeverBack(links, path, a + 1, b - 1);
      }
    }
  }

  /** The slots of a path followed by their other ends: all different. */
  ghost function BothEnds(path: seq<nat>): seq<nat> {
    path + seq(|path|, t requires 0 <= t < |path| => Other(path[t]))
  }

  lemma BothEndsDistinct(links: seq<Link>, path: seq<nat>)
    requires Mutual(links) && IsPath(links, path)
    ensures Distinct(BothEnds(path))
    ensures forall k :: 0 <= k < |BothEnds(path)| ==> BothEnds(path)[k] < |links|
  {
    var n := |path|;
    forall i, j | 0 <= i < j < 2 * n ensures BothEnds(path)[i] != BothEnds(path)[j] {
      if j < n {
        PathDistinct(links, path, i, j);
      } else if i >= n {
        PathDistinct(links, path, i - n, j - n);
      } else if i < j - n {
        NeverBack(links, path, i, j - n);
      } else if j - n < i {
        NeverBack(links, path, j - n, i);
      }
    }
  }

  function NumbersBelow(m: nat): (r: set<nat>)
    ensures forall k :: k in r <==> 0 <= k < m
    ensures |r| == m
  {
    if m == 0 then {} else NumbersBelow(m - 1) + {m - 1}
  }

  ghost function Elements(s: seq<nat>): (r: set<nat>)
    requires Distinct(s)
    ensures forall k :: k in r <==> k in s
    ensures |r| == |s|
  {
    if s == [] then {} else
      var last := |s| - 1;
      assert s[last] !in s[..last];
      assert s == s[..last] + [s[last]];
      Elements(s[..last]) + {s[last]}
  }

  lemma DistinctFits(s: seq<nat>, m: nat)
    requires Distinct(s) && forall k :: 0 <= k < |s| ==> s[k] < m
    ensures |s| <= m
  {
    var elems, all := Elements(s), NumbersBelow(m);
    assert elems <= all;
    SubsetSize(elems, all);
  }

  lemma SubsetSize(a: set<nat>, b: set<nat>)
    requires a <= b
    ensures |a| <= |b|
  {
    assert b == a + (b - a);
  }

  /** Two slots are used up by every step, so a path holds at most half of them. */
  lemma PathFits(links: seq<Link>, path: seq<nat>)
    requires Mutual(links) && IsPath(links, path)
    ensures 2 * |path| <= |links|
  {
    BothEndsDistinct(links, path);
    DistinctFits(BothEnds(path), |links|);
  }

  lemma PathExtends(links: seq<Link>, path: seq<nat>, j: nat)
    requires Mutual(links) && IsPath(links, path)
    requires links[path[|path| - 1]] == To(j) && Other(j) != 0
    ensures IsPath(links, path + [Other(j)])
  {
    assert Other(Other(j)) == j;
  }

  // ---------------------------------------------------------------- exactness

  /** Index into BothEnds of entry `k` of the cycle order. */
  function EndIndex(n: nat, k: nat): nat {
    if k % 2 == 0 then k / 2 else n + (if k / 2 + 1 < n then k / 2 + 1 else 0)
  }

  /** A walk that closes after all edges lists the slots in the order of a full cycle. */
  ghost function CycleOf(path: seq<nat>): seq<nat>
    requires path != []
  {
    seq(2 * |path|, k requires 0 <= k < 2 * |path| => BothEnds(path)[EndIndex(|path|, k)])
  }

  lemma CycleAt(path: seq<nat>, t: nat)
    requires t < |path|
    ensures CycleOf(path)[2 * t] == path[t]
    ensures CycleOf(path)[2 * t + 1] == Other(path[if t + 1 < |path| then t + 1 else 0])
  {
  }

  lemma IndicesDiffer(n: nat, i: nat, j: nat)
    requires i < j < 2 * n
    ensures EndIndex(n, i) != EndIndex(n, j)
  {
  }

  lemma CycleDistinct(links: seq<Link>, path: seq<nat>)
    requires Mutual(links) && IsPath(links, path)
    ensures Distinct(CycleOf(path))
    ensures forall k :: 0 <= k < |CycleOf(path)| ==> CycleOf(path)[k] < |links|
  {
    BothEndsDistinct(links, path);
    forall i, j | 0 <= i < j < 2 * |path| ensures CycleOf(path)[i] != CycleOf(path)[j] {
      IndicesDiffer(|path|, i, j);
    }
  }

  lemma ClosedPathIsCycle(links: seq<Link>, path: seq<nat>)
    requires Mutual(links) && IsPath(links, path) && 2 * |path| == |links|
    requires links[path[|path| - 1]] == To(Other(0))
    ensures FullCycle(links, CycleOf(path))
  {
    CycleDistinct(links, path);
    CycleAt(path, 0);
    forall t | 0 <= t && 2 * t + 1 < |CycleOf(path)| ensures Meets(links, CycleOf(path), t) {
      CycleMeets(links, path, t);
    }
  }

  lemma CycleMeets(links: seq<Link>, path: seq<nat>, t: nat)
    requires Mutual(links) && IsPath(links, path) && 2 * |path| == |links| && t < |path|
    requires links[path[|path| - 1]] == To(Other(0))
    requires forall k :: 0 <= k < |CycleOf(path)| ==> CycleOf(path)[k] < |links|
    ensures Meets(links, CycleOf(path), t)
  {
    var next := if t + 1 < |path| then t + 1 else 0;
    CycleAt(path, t);
    CycleAt(path, next);
    assert t + 1 < |path| ==> links[path[t]] == To(Other(path[t + 1]));
    assert path[next] < |links|;
    MeetsFrom(links, CycleOf(path), t, path[t], path[next]);
  }

  lemma MeetsFrom(links: seq<Link>, w: seq<nat>, t: nat, a: nat, b: nat)
    requires |w| == |links| && 2 * t + 1 < |w| && |w| % 2 == 0
    requires forall k :: 0 <= k < |w| ==> w[k] < |links|
    requires w[2 * t] == a && w[2 * t + 1] == Other(b) && w[if 2 * t + 2 < |w| then 2 * t + 2 else 0] == b
    requires links[a] == To(Other(b))
    ensures Meets(links, w, t)
  {
  }

  /** The walk from the end of a path: it stops with a status, or finds the full cycle. */
  lemma {:induction false} WalkFindsCycle(links: seq<Link>, path: seq<nat>, fuel: nat)
    requires Mutual(links) && IsPath(links, path) && fuel + |path| > |links| / 2
    requires Walk(links, path[|path| - 1], |path| - 1, fuel) == PowOk
    ensures IsOneCycle(links)
    decreases fuel
  {
    var i := path[|path| - 1];
    var j := links[i].slot;
    if Other(j) == 0 {
      assert Other(Other(j)) == j;
      ClosedPathIsCycle(links, path);
    } else {
      PathExtends(links, path, j);
      PathFits(links, path + [Other(j)]);
      WalkFindsCycle(links, path + [Other(j)], fuel - 1);
    }
  }

  /** A full cycle is what the walk follows, all the way round. */
  lemma {:induction false} WalkFollowsCycle(links: seq<Link>, w: seq<nat>, t: nat, fuel: nat)
    requires Mutual(links) && FullCycle(links, w) && 2 * t < |w| && fuel + t >= |links| / 2
    ensures Walk(links, w[2 * t], t, fuel) == PowOk
    decreases |w| - t
  {
    assert Meets(links, w, t);
    if 2 * t + 2 >= |w| {
    } else {
      assert w[2 * t + 2] != w[0];
      WalkFollowsCycle(links, w, t + 1, fuel - 1);
    }
  }

  /** The walk accepts exactly when the edges form one cycle through all of them. */
  lemma WalkExact(links: seq<Link>)
    requires Mutual(links)
    ensures Outcome(links) == PowOk <==> IsOneCycle(links)
  {
    if Outcome(links) == PowOk {
      assert IsPath(links, [0]);
      WalkFindsCycle(links, [0], |links|);
    }
    if IsOneCycle(links) {
      var w :| FullCycle(links, w);
      WalkFollowsCycle(links, w, 0, |links|);
    }
  }

  /** In a full cycle every slot is linked. */
  lemma FullCycleLinksAll(links: seq<Link>, w: seq<nat>, i: nat)
    requires Mutual(links) && FullCycle(links, w) && i < |links|
    ensures links[i].To?
  {
    PermutationHits(w, i);
    var k :| 0 <= k < |w| && w[k] == i;
    assert Meets(links, w, k / 2);
    assert k == 2 * (k / 2) || k == 2 * (k / 2) + 1;
  }

  lemma PermutationHits(w: seq<nat>, i: nat)
    requires Distinct(w) && (forall k :: 0 <= k < |w| ==> w[k] < |w|) && i < |w|
    ensures i in w
  {
    if i !in w {
      var s := w + [i];
      assert Distinct(s);
      DistinctFits(s, |w|);
    }
  }

  // ---------------------------------------------------------------- what each verdict means

  /** The walk ends at the last slot of a path: forked, unmatched, or linked back to the start, early or after all edges. */
  lemma {:induction false} WalkEnds(links: seq<Link>, path: seq<nat>, fuel: nat) returns (whole: seq<nat>)
    requires Mutual(links) && IsPath(links, path) && fuel + |path| > |links|
    ensures IsPath(links, whole)
    ensures Walk(links, path[|path| - 1], |path| - 1, fuel) == Verdict(links, whole)
    ensures match links[whole[|whole| - 1]] case To(j) => Other(j) == 0 case _ => true
    decreases fuel
  {
    var last := path[|path| - 1];
    if links[last].To? && Other(links[last].slot) != 0 {
      PathExtends(links, path, links[last].slot);
      PathFits(links, path);
      whole := WalkEnds(links, path + [Other(links[last].slot)], fuel - 1);
    } else {
      whole := path;
    }
  }

  ghost function Verdict(links: seq<Link>, path: seq<nat>): PowStatus
    requires IsPath(links, path)
  {
    match links[path[|path| - 1]]
    case Forked => Branching
    case Unmatched => DeadEnd
    case To(_) => if 2 * |path| == |links| then PowOk else ShortCycle
  }

  lemma OutcomeEnds(links: seq<Link>) returns (path: seq<nat>)
    requires Mutual(links)
    ensures IsPath(links, path) && Outcome(links) == Verdict(links, path)
    ensures match links[path[|path| - 1]] case To(j) => Other(j) == 0 case _ => true
  {
    assert IsPath(links, [0]);
    path := WalkEnds(links, [0], |links|);
  }
}
