/** The endpoints of a proof's edges, two slots per edge, and the two sides of the graph they lie on. */
module Sides {
  import opened Cycles

  ghost predicate IsSlots(ends: seq<nat>) {
    |ends| == 2 * PROOFSIZE
  }

  /** One side's endpoints of the first `n` edges. */
  function Side(ends: seq<nat>, side: nat, n: nat): seq<nat>
    requires side < 2 && 2 * n <= |ends|
  {
    seq(n, i requires 0 <= i < n => ends[2 * i + side])
  }

  lemma SideGrows(ends: seq<nat>, u: nat, v: nat, n: nat)
    requires |ends| == 2 * n
    ensures Side(ends + [u, v], 0, n + 1) == Side(ends, 0, n) + [u]
    ensures Side(ends + [u, v], 1, n + 1) == Side(ends, 1, n) + [v]
  {
  }

  /** Fills in both ends of edge `n`. */
  method WriteEnds(ends: array<nat>, n: nat, u: nat, v: nat)
    requires 2 * n + 1 < ends.Length
    modifies ends
    ensures ends[..2 * (n + 1)] == old(ends[..2 * n]) + [u, v]
  {
    ends[2 * n] := u;
    ends[2 * n + 1] := v;
  }
}
