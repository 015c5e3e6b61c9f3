/** One cycle through all edges, told edge by edge: an order of the edges and the end each is left by. */
module Tours {
  import opened Cycles
  import opened Slots

  /** The place after `t` in a cyclic order of `n`. */
  function Succ(t: nat, n: nat): nat
    requires t < n
  {
    if t + 1 < n then t + 1 else 0
  }

  /** Every one of `n` edges once, each with the end it is left by. */
  ghost predicate IsOrder(order: seq<nat>, out: seq<nat>, n: nat) {
    && |order| == |out| == n && Distinct(order)
    && forall t :: 0 <= t < n ==> order[t] < n && out[t] < 2
  }

  /** The end edge `t` of the order is left by is linked to the end the next edge is entered by. */
  ghost predicate Linked(links: seq<Link>, order: seq<nat>, out: seq<nat>, t: nat)
    requires IsOrder(order, out, |order|) && |links| == 2 * |order| && t < |order|
  {
    var u := Succ(t, |order|);
    links[2 * order[t] + out[t]] == To(2 * order[u] + 1 - out[u])
  }

  ghost predicate Tour(links: seq<Link>, order: seq<nat>, out: seq<nat>) {
    && IsOrder(order, out, |order|) && |links| == 2 * |order|
    && forall t :: 0 <= t < |order| ==> Linked(links, order, out, t)
  }

  ghost predicate HasTour(links: seq<Link>) {
    exists order, out :: Tour(links, order, out)
  }

  // ---------------------------------------------------------------- from the order of slots to the order of edges

  function EdgesOf(w: seq<nat>): (r: seq<nat>)
    ensures |r| == |w| / 2
  {
    seq(|w| / 2, t requires 0 <= t < |w| / 2 => w[2 * t] / 2)
  }

  function EndsOf(w: seq<nat>): (r: seq<nat>)
    ensures |r| == |w| / 2
  {
    seq(|w| / 2, t requires 0 <= t < |w| / 2 => w[2 * t] % 2)
  }

  /** What a full cycle says of its pair number `t`. */
  lemma PairOf(links: seq<Link>, w: seq<nat>, t: nat)
    requires FullCycle(links, w) && |w| % 2 == 0 && 2 * t < |w|
    ensures links[w[2 * t]] == To(w[2 * t + 1])
    ensures w[2 * t + 1] == Other(w[2 * Succ(t, |w| / 2)])
  {
    assert Meets(links, w, t);
  }

  /** Two pairs of a full cycle leave by different edges. */
  lemma EdgesDiffer(links: seq<Link>, w: seq<nat>, s: nat, t: nat)
    requires FullCycle(links, w) && |w| % 2 == 0 && s < t && 2 * t < |w|
    ensures w[2 * s] / 2 != w[2 * t] / 2
  {
    PairOf(links, w, t - 1);
    assert w[2 * t - 1] == Other(w[2 * t]);
    assert w[2 * s] != w[2 * t] && w[2 * s] != w[2 * t - 1];
  }

  lemma CycleHasTour(links: seq<Link>, w: seq<nat>)
    requires FullCycle(links, w) && |w| % 2 == 0
    ensures Tour(links, EdgesOf(w), EndsOf(w))
  {
    var order, out := EdgesOf(w), EndsOf(w);
    forall s, t | 0 <= s < t < |order| ensures order[s] != order[t] {
      EdgesDiffer(links, w, s, t);
    }
    forall t | 0 <= t < |order| ensures Linked(links, order, out, t) {
      PairOf(links, w, t);
    }
  }

  // ---------------------------------------------------------------- turning an order round

  function Rotated(s: seq<nat>, k: nat): (r: seq<nat>)
    requires k <= |s|
    ensures |r| == |s|
  {
    s[k..] + s[..k]
  }

  lemma TourRotated(links: seq<Link>, order: seq<nat>, out: seq<nat>, k: nat)
    requires Tour(links, order, out) && k < |order|
    ensures Tour(links, Rotated(order, k), Rotated(out, k))
  {
    var n, order', out' := |order|, Rotated(order, k), Rotated(out, k);
    forall t | 0 <= t < n ensures Linked(links, order', out', t) {
      assert Linked(links, order, out, if t + k < n then t + k else t + k - n);
    }
  }

  function Reversed(s: seq<nat>): (r: seq<nat>)
    ensures |r| == |s|
  {
    seq(|s|, i requires 0 <= i < |s| => s[|s| - 1 - i])
  }

  function OtherEnds(out: seq<nat>): (r: seq<nat>)
    requires forall t :: 0 <= t < |out| ==> out[t] < 2
    ensures |r| == |out|
  {
    seq(|out|, i requires 0 <= i < |out| => 1 - out[|out| - 1 - i])
  }

  /** Meeting being mutual, a tour can be gone the other way round. */
  lemma TourReversed(links: seq<Link>, order: seq<nat>, out: seq<nat>)
    requires Mutual(links) && Tour(links, order, out)
    ensures Tour(links, Reversed(order), OtherEnds(out))
  {
    var n, order', out' := |order|, Reversed(order), OtherEnds(out);
    forall t | 0 <= t < n ensures Linked(links, order', out', t) {
      var s := n - 1 - Succ(t, n);
      assert Succ(s, n) == n - 1 - t;
      assert Linked(links, order, out, s);
    }
  }

  /** Some tour leaves edge 0 first, by its end 0. */
  lemma TourFromStart(links: seq<Link>, order: seq<nat>, out: seq<nat>) returns (order': seq<nat>, out': seq<nat>)
    requires Mutual(links) && Tour(links, order, out)
    ensures Tour(links, order', out') && order'[0] == 0 && out'[0] == 0
  {
    PermutationHits(order, 0);
    var k :| 0 <= k < |order| && order[k] == 0;
    order', out' := order, out;
    if out[k] == 1 {
      TourReversed(links, order, out);
      order', out', k := Reversed(order), OtherEnds(out), |order| - 1 - k;
    }
    TourRotated(links, order', out', k);
    order', out' := Rotated(order', k), Rotated(out', k);
  }

  // ---------------------------------------------------------------- from the order of edges to the order of slots

  /** Each edge's end left by, then the end of the next edge entered by. */
  function SlotsOf(order: seq<nat>, out: seq<nat>): (w: seq<nat>)
    requires |order| == |out| && forall t :: 0 <= t < |out| ==> out[t] < 2
    ensures |w| == 2 * |order|
  {
    seq(2 * |order|, k requires 0 <= k < 2 * |order| => SlotOf(order, out, k))
  }

  function SlotOf(order: seq<nat>, out: seq<nat>, k: nat): nat
    requires |order| == |out| && k < 2 * |order| && forall t :: 0 <= t < |out| ==> out[t] < 2
  {
    var t, u := k / 2, Succ(k / 2, |order|);
    if k % 2 == 0 then 2 * order[t] + out[t] else 2 * order[u] + 1 - out[u]
  }

  /** The edge a slot of the order belongs to tells its place, and so does the end. */
  lemma SlotsDiffer(order: seq<nat>, out: seq<nat>, j: nat, k: nat)
    requires IsOrder(order, out, |order|) && j < k < 2 * |order|
    ensures SlotOf(order, out, j) != SlotOf(order, out, k)
  {
    var n := |order|;
    var t, u := if j % 2 == 0 then j / 2 else Succ(j / 2, n), if k % 2 == 0 then k / 2 else Succ(k / 2, n);
    if t == u {
      assert j % 2 != k % 2;
    } else {
      assert order[t] != order[u];
    }
  }

  lemma SlotsMeet(links: seq<Link>, order: seq<nat>, out: seq<nat>, t: nat)
    requires Tour(links, order, out) && t < |order|
    ensures Meets(links, SlotsOf(order, out), t)
  {
    assert Linked(links, order, out, t);
  }

  lemma TourIsCycle(links: seq<Link>, order: seq<nat>, out: seq<nat>)
    requires Tour(links, order, out) && |order| > 0 && order[0] == 0 && out[0] == 0
    ensures FullCycle(links, SlotsOf(order, out))
  {
    var w := SlotsOf(order, out);
    forall j, k | 0 <= j < k < |w| ensures w[j] != w[k] {
      SlotsDiffer(order, out, j, k);
    }
    forall t | 0 <= t && 2 * t + 1 < |w| ensures Meets(links, w, t) {
      SlotsMeet(links, order, out, t);
    }
  }

  /** The cycle the walk finds is a tour of all edges, wherever and whichever way round one starts it. */
  lemma CycleIsTour(links: seq<Link>)
    requires Mutual(links)
    ensures IsOneCycle(links) <==> HasTour(links)
  {
    if IsOneCycle(links) {
      var w :| FullCycle(links, w);
      CycleHasTour(links, w);
    }
    if HasTour(links) {
      var order, out :| Tour(links, order, out);
      order, out := TourFromStart(links, order, out);
      TourIsCycle(links, order, out);
    }
  }

  // ---------------------------------------------------------------- over the endpoints

  /** The end edge `t` is left by has the key of the end the next edge is entered by, and of no other. */
  ghost predicate Joined(keys: seq<Key>, ends: seq<nat>, twist: bool, order: seq<nat>, out: seq<nat>, t: nat)
    requires IsOrder(order, out, |order|) && |keys| == |ends| == 2 * |order| && t < |order|
  {
    var u := Succ(t, |order|);
    var i, j := 2 * order[t] + out[t], 2 * order[u] + 1 - out[u];
    OnlyMatch(keys, i, j) && !(twist && ends[j] == ends[i])
  }

  lemma TourOfKeys(keys: seq<Key>, ends: seq<nat>, twist: bool, order: seq<nat>, out: seq<nat>)
    requires |keys| == |ends| == 2 * |order|
    ensures Tour(Links(keys, ends, twist), order, out) <==>
            IsOrder(order, out, |order|) && forall t :: 0 <= t < |order| ==> Joined(keys, ends, twist, order, out, t)
  {
    if IsOrder(order, out, |order|) {
      forall t | 0 <= t < |order|
        ensures Linked(Links(keys, ends, twist), order, out, t) <==> Joined(keys, ends, twist, order, out, t)
      {
        var u := Succ(t, |order|);
        LinkMeaning(keys, ends, twist, 2 * order[t] + out[t], 2 * order[u] + 1 - out[u]);
      }
    }
  }

  // ---------------------------------------------------------------- two sides

  /** Keys that tell the sides apart: `values` are those of side `s`, one an edge. */
  ghost predicate SideKeys(keys: seq<Key>, values: seq<nat>, s: nat) {
    && |keys| == 2 * |values|
    && forall c :: 0 <= c < |values| ==> SideKey(keys, values, s, c)
  }

  ghost predicate SideKey(keys: seq<Key>, values: seq<nat>, s: nat, c: nat)
    requires c < |values|
  {
    2 * c + s < |keys| && keys[2 * c + s] == (s, values[c])
  }

  /** `a` and `b` are the only two with their value. */
  ghost predicate OnlyTwo(values: seq<nat>, a: nat, b: nat) {
    && a < |values| && b < |values| && a != b && values[a] == values[b]
    && forall c :: 0 <= c < |values| && c != a && c != b ==> values[c] != values[a]
  }

  /** Slots with the same key are on the same side; there they are the only two with their value. */
  lemma MatchOnSide(keys: seq<Key>, values: seq<nat>, others: seq<nat>, s: nat, r: nat, a: nat, b: nat)
    requires s < 2 && r < 2 && a < |values| && b < |values| && |others| == |values|
    requires SideKeys(keys, values, s) && SideKeys(keys, others, 1 - s)
    ensures OnlyMatch(keys, 2 * a + s, 2 * b + r) <==> r == s && OnlyTwo(values, a, b)
  {
    assert SideKey(keys, values, s, a) && SideKey(keys, values, s, b) && SideKey(keys, others, 1 - s, b);
    if r == s {
      if OnlyTwo(values, a, b) { OnlyTwoMatch(keys, values, others, s, a, b); }
      if OnlyMatch(keys, 2 * a + s, 2 * b + r) { MatchIsOnlyTwo(keys, values, s, a, b); }
    }
  }

  lemma OnlyTwoMatch(keys: seq<Key>, values: seq<nat>, others: seq<nat>, s: nat, a: nat, b: nat)
    requires s < 2 && |others| == |values| && OnlyTwo(values, a, b)
    requires SideKeys(keys, values, s) && SideKeys(keys, others, 1 - s)
    ensures OnlyMatch(keys, 2 * a + s, 2 * b + s)
  {
    assert SideKey(keys, values, s, a) && SideKey(keys, values, s, b);
    forall k | 0 <= k < |keys| && k != 2 * a + s && k != 2 * b + s ensures keys[k] != keys[2 * a + s] {
      var c := k / 2;
      assert SideKey(keys, values, s, c) && SideKey(keys, others, 1 - s, c);
      assert k == 2 * c + s || k == 2 * c + (1 - s);
    }
  }

  lemma MatchIsOnlyTwo(keys: seq<Key>, values: seq<nat>, s: nat, a: nat, b: nat)
    requires a < |values| && b < |values| && SideKeys(keys, values, s) && OnlyMatch(keys, 2 * a + s, 2 * b + s)
    ensures OnlyTwo(values, a, b)
  {
    assert SideKey(keys, values, s, a) && SideKey(keys, values, s, b);
    forall c | 0 <= c < |values| && c != a && c != b ensures values[c] != values[a] {
      assert SideKey(keys, values, s, c);
      assert keys[2 * c + s] != keys[2 * a + s];
    }
  }
}
