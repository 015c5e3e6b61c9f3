/**
  The bucketed circular lists of verify_cuckaroo and verify_cuckarooz: every slot is linked to the slot
  before it in its bucket, the first one to the last, and a walk round the list meets the whole bucket.
*/
module Buckets {
  import opened Cycles
  import opened Slots

  /** The last slot below `s` in bucket `b`, or the sentinel `|bks|`. */
  function Last(bks: seq<Key>, b: Key, s: nat): nat
    requires s <= |bks|
  {
    if s == 0 then |bks| else if bks[s - 1] == b then s - 1 else Last(bks, b, s - 1)
  }

  lemma {:induction false} LastMeaning(bks: seq<Key>, b: Key, s: nat)
    requires s <= |bks|
    ensures Last(bks, b, s) == |bks| || (Last(bks, b, s) < s && bks[Last(bks, b, s)] == b)
    ensures forall x :: 0 <= x < s && bks[x] == b ==> Last(bks, b, s) != |bks| && x <= Last(bks, b, s)
  {
    if s == 0 {
    } else {
      LastMeaning(bks, b, s - 1);
    }
  }

  /** The slot before `x` in its bucket, cyclically. */
  function PrevOf(bks: seq<Key>, x: nat): nat
    requires x < |bks|
  {
    var p := Last(bks, bks[x], x);
    if p == |bks| then Last(bks, bks[x], |bks|) else p
  }

  ghost predicate ClosedLists(bks: seq<Key>, prev: seq<nat>) {
    |prev| == |bks| && forall x :: 0 <= x < |bks| ==> prev[x] == PrevOf(bks, x)
  }

  /** The heads of one side's `m` lists when the slots below `s` have been entered. */
  function Heads(bks: seq<Key>, side: nat, s: nat, m: nat): seq<nat>
    requires s <= |bks|
  {
    seq(m, b requires 0 <= b < m => Last(bks, (side, b), s))
  }

  /** For every slot the one entered before it in its bucket, or the sentinel. */
  function Prevs(bks: seq<Key>, s: nat): seq<nat>
    requires s <= |bks|
  {
    seq(s, x requires 0 <= x < s => Last(bks, bks[x], x))
  }

  ghost predicate HeadAt(bks: seq<Key>, head: seq<nat>, side: nat, s: nat)
    requires s <= |bks|
  {
    head == Heads(bks, side, s, |head|)
  }

  ghost predicate PrevAt(bks: seq<Key>, prev: seq<nat>, s: nat)
    requires s <= |bks|
  {
    |prev| == |bks| && prev[..s] == Prevs(bks, s)
  }

  lemma HeadEnter(bks: seq<Key>, head: seq<nat>, side: nat, s: nat, b: nat)
    requires s < |bks| && HeadAt(bks, head, side, s) && bks[s] == (side, b) && b < |head|
    ensures HeadAt(bks, head[b := s], side, s + 1)
  {
  }

  lemma HeadSkip(bks: seq<Key>, head: seq<nat>, side: nat, s: nat)
    requires s < |bks| && HeadAt(bks, head, side, s) && bks[s].0 != side
    ensures HeadAt(bks, head, side, s + 1)
  {
  }

  lemma PrevEnter(bks: seq<Key>, prev: seq<nat>, head: seq<nat>, side: nat, s: nat, b: nat)
    requires s < |bks| && HeadAt(bks, head, side, s) && PrevAt(bks, prev, s) && bks[s] == (side, b) && b < |head|
    ensures PrevAt(bks, prev[s := head[b]], s + 1)
  {
  }

  /** The prev array when the lists are closed for the slots below `s`. */
  function HalfClosed(bks: seq<Key>, s: nat): seq<nat> {
    seq(|bks|, x requires 0 <= x < |bks| => if x < s then PrevOf(bks, x) else Last(bks, bks[x], x))
  }

  lemma CloseOne(bks: seq<Key>, prev: seq<nat>, head: seq<nat>, side: nat, s: nat, b: nat)
    requires s < |bks| && prev == HalfClosed(bks, s) && HeadAt(bks, head, side, |bks|)
    requires bks[s] == (side, b) && b < |head|
    ensures (if prev[s] == |bks| then prev[s := head[b]] else prev) == HalfClosed(bks, s + 1)
  {
  }

  lemma CloseStartEnd(bks: seq<Key>, prev: seq<nat>)
    ensures PrevAt(bks, prev, |bks|) ==> prev == HalfClosed(bks, 0)
    ensures prev == HalfClosed(bks, |bks|) ==> ClosedLists(bks, prev)
  {
  }

  /** Enters slot `s` at the head of the list of its bucket. */
  method EnterSlot(head: array<nat>, prev: array<nat>, ghost bks: seq<Key>, ghost side: nat, s: nat, bits: nat)
    requires head != prev && prev.Length == |bks| && s < |bks| && bks[s] == (side, bits) && bits < head.Length
    requires HeadAt(bks, head[..], side, s) && PrevAt(bks, prev[..], s)
    modifies head, prev
    ensures HeadAt(bks, head[..], side, s + 1) && PrevAt(bks, prev[..], s + 1)
  {
    ghost var h: seq<nat>, p: seq<nat> := head[..], prev[..];
    HeadEnter(bks, h, side, s, bits);
    PrevEnter(bks, p, h, side, s, bits);
    prev[s] := head[bits];
    head[bits] := s;
    assert head[..] == h[bits := s] && prev[..] == p[s := h[bits]];
  }

  /** Closes the list at slot `s`: a slot nothing comes before is linked to the head. */
  method CloseSlot(head: array<nat>, prev: array<nat>, ghost bks: seq<Key>, ghost side: nat, s: nat, bits: nat)
    requires head != prev && |bks| == 2 * PROOFSIZE && s < |bks| && bks[s] == (side, bits) && bits < head.Length
    requires HeadAt(bks, head[..], side, |bks|) && prev[..] == HalfClosed(bks, s)
    modifies prev
    ensures prev[..] == HalfClosed(bks, s + 1)
  {
    CloseOne(bks, prev[..], head[..], side, s, bits);
    if prev[s] == 2 * PROOFSIZE {
      prev[s] := head[bits];
    }
  }

  /** Slots of the bucket of `i` met by the time the walk stands on `k`. */
  predicate Passed(bks: seq<Key>, i: nat, k: nat, x: nat)
    requires i < |bks| && x < |bks|
  {
    bks[x] == bks[i] && x != i && (if k <= i then k <= x < i else x < i || x >= k)
  }

  /** One step round the list adds the slot stepped to; coming back to `i`, everything has been met. */
  lemma StepRound(bks: seq<Key>, i: nat, k: nat)
    requires i < |bks| && k < |bks| && bks[k] == bks[i]
    ensures var p := PrevOf(bks, k);
            && p < |bks| && bks[p] == bks[i]
            && (p != i ==> forall x: nat :: x < |bks| ==> (Passed(bks, i, p, x) <==> Passed(bks, i, k, x) || x == p))
            && (p == i ==> forall x: nat :: x < |bks| && bks[x] == bks[i] && x != i ==> Passed(bks, i, k, x))
            && (p != i ==> Rounds(i, p, |bks|) < Rounds(i, k, |bks|))
  {
    LastMeaning(bks, bks[k], k);
    LastMeaning(bks, bks[k], |bks|);
  }

  /** Steps left to go round, at most. */
  function Rounds(i: nat, k: nat, size: nat): nat {
    if k <= i then size + k else k
  }

  /** What the slots met so far tell about the partner of `i`. */
  ghost predicate RoundState(bks: seq<Key>, ends: seq<nat>, i: nat, k: nat, j: nat)
    requires i < |bks| == |ends|
  {
    && j < |bks|
    && (j != i ==> Passed(bks, i, k, j) && ends[j] == ends[i])
    && forall x: nat :: x < |bks| && Passed(bks, i, k, x) && x != j ==> ends[x] != ends[i]
  }

  /** Slots with one key share a bucket. */
  ghost predicate Refines(bks: seq<Key>, keys: seq<Key>, ends: seq<nat>) {
    && |bks| == |keys| == |ends|
    && forall i, j :: 0 <= i < |keys| && 0 <= j < |keys| ==>
         (keys[i] == keys[j] <==> bks[i] == bks[j] && ends[i] == ends[j])
  }

  /** The partners met round the bucket are the partners among all slots. */
  lemma RoundDone(bks: seq<Key>, keys: seq<Key>, ends: seq<nat>, i: nat, k: nat, j: nat)
    requires Refines(bks, keys, ends) && i < |bks| && k < |bks| && bks[k] == bks[i] && PrevOf(bks, k) == i
    requires RoundState(bks, ends, i, k, j)
    ensures LinkAt(keys, ends, false, i) == if j == i then Unmatched else To(j)
  {
    StepRound(bks, i, k);
    if j == i {
      LinkUnmatched(keys, ends, false, i);
    } else {
      assert OnlyMatch(keys, i, j);
      LinkFound(keys, ends, false, i, j);
    }
  }

  /** The inner loop: once round the list of slot `i`. */
  method ScanBucket(uvs: array<nat>, prev: array<nat>, i: nat, ghost bks: seq<Key>, ghost keys: seq<Key>)
      returns (link: Link)
    requires i < uvs.Length == prev.Length
    requires ClosedLists(bks, prev[..]) && Refines(bks, keys, uvs[..])
    ensures link == LinkAt(keys, uvs[..], false, i)
  {
    ghost var ends := uvs[..];
    var j: nat, k: nat := i, i;
    while true
      invariant k < |bks| && bks[k] == bks[i]
      invariant RoundState(bks, ends, i, k, j)
      decreases Rounds(i, k, |bks|)
    {
      StepRound(bks, i, k);
      ghost var k0 := k;
      assert prev[..][k] == PrevOf(bks, k);
      k := prev[k];
      if k == i {
        RoundDone(bks, keys, ends, i, k0, j);
        break;
      }
      if uvs[k] == uvs[i] {
        if j != i {
          LinkForked(keys, ends, false, i, j, k);
          return Forked;
        }
        j := k;
      }
    }
    link := if j == i then Unmatched else To(j);
  }

  /** The walk over the lists; that the loop ends is part of what is proved. */
  method FollowLists(uvs: array<nat>, prev: array<nat>, ghost bks: seq<Key>, ghost keys: seq<Key>)
      returns (status: PowStatus)
    requires uvs.Length == prev.Length == 2 * PROOFSIZE
    requires ClosedLists(bks, prev[..]) && Refines(bks, keys, uvs[..])
    requires InRange(Links(keys, uvs[..], false))
    ensures status == Outcome(Links(keys, uvs[..], false))
  {
    ghost var links := Links(keys, uvs[..], false);
    LinksMutual(keys, uvs[..], false);
    var steps, i := 0, 0;
    ghost var path := [0];
    while true
      invariant IsPath(links, path) && i == path[|path| - 1] && steps == |path| - 1
      invariant steps <= |links| && Walk(links, i, steps, |links| - steps) == Outcome(links)
      decreases |links| - steps
    {
      var link := ScanBucket(uvs, prev, i, bks, keys);
      assert link == links[i];
      if link == Forked {
        return Branching;
      }
      if link == Unmatched {
        return DeadEnd;
      }
      var next := Other(link.slot);
      steps := steps + 1;
      if next == 0 {
        break;
      }
      PathExtends(links, path, link.slot);
      path := path + [next];
      PathFits(links, path);
      i := next;
    }
    status := if steps != PROOFSIZE then ShortCycle else PowOk;
  }
}
