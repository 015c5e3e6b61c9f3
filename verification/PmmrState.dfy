/**
  The state of a PMMR as a value: stored hashes, leaf data, pruned leaf numbers.
  Each function is one public operation of mimblewimble/mmr/pmmr.py on that value.
*/
module PmmrState {
  import opened Bits
  import opened PostOrder
  import opened MmrIndex
  import opened Hashing

  datatype State = State(hashes: seq<Digest>, data: seq<Bytes>, pruned: set<nat>)

  // ---------------------------------------------------------------- push

  /** The first leaf position that is not below `size`. */
  lemma LeafAhead(size: nat)
    ensures size <= InsertionToPmmrIndex(LeafCount(size))
    ensures Height(size) > 0 ==> LeafCount(size + 1) == LeafCount(size) && size < InsertionToPmmrIndex(LeafCount(size))
  {
    var next := InsertionToPmmrIndex(LeafCount(size));
    LeafPosMeaning(LeafCount(size));
    if next < size { LeafCountSeparates(next, size); }
    LeafCountStep(size);
  }

  /** How far the next leaf position is. */
  function MergesAhead(size: nat): nat {
    LeafAhead(size);
    InsertionToPmmrIndex(LeafCount(size)) - size
  }

  /** A merge finds its left child behind it and brings the next leaf position nearer. */
  lemma MergeAhead(right: nat)
    requires Height(right + 1) == Height(right) + 1
    ensures Pow2(Height(right) + 1) <= right + 1
    ensures MergesAhead(right + 2) < MergesAhead(right + 1)
  {
    Children(right + 1);
    LeafAhead(right + 1);
  }

  lemma MergesNearer(hashes: seq<Digest>, parent: Digest)
    requires hashes != [] && Height(|hashes|) == Height(|hashes| - 1) + 1
    ensures MergesAhead(|hashes + [parent]|) < MergesAhead(|hashes|)
  {
    MergeAhead(|hashes| - 1);
  }

  /** Appends parents for as long as the next position is one. */
  function MergeUp(H: HashFn, hashes: seq<Digest>): (r: seq<Digest>)
    requires hashes != []
    ensures |r| >= |hashes| && r[..|hashes|] == hashes
    decreases MergesAhead(|hashes|)
  {
    var right := |hashes| - 1;
    var h := Height(right);
    if Height(right + 1) != h + 1 then hashes
    else
      MergeAhead(right);
      var left: Bytes := hashes[right + 1 - Pow2(h + 1)];
      MergeUp(H, hashes + [H(|hashes|, left + hashes[right])])
  }

  /** One merge, with the left child named. */
  lemma MergeUpStep(H: HashFn, hashes: seq<Digest>, h: nat, l: nat)
    requires hashes != [] && Height(|hashes| - 1) == h && Height(|hashes|) == h + 1
    requires |hashes| == l + Pow2(h + 1)
    ensures var left: Bytes := hashes[l];
            MergeUp(H, hashes) == MergeUp(H, hashes + [H(|hashes|, left + hashes[|hashes| - 1])])
  {
    assert |hashes| - 1 + 1 - Pow2(h + 1) == l;
  }

  /** The same with both children's hashes named. */
  lemma MergeUpOnto(H: HashFn, hashes: seq<Digest>, h: nat, l: nat, left: Bytes, right: Bytes)
    requires hashes != [] && Height(|hashes| - 1) == h && Height(|hashes|) == h + 1
    requires |hashes| == l + Pow2(h + 1) && left == hashes[l] && right == hashes[|hashes| - 1]
    ensures MergeUp(H, hashes + [H(|hashes|, left + right)]) == MergeUp(H, hashes)
  {
    MergeUpStep(H, hashes, h, l);
  }

  lemma MergeUpStops(H: HashFn, hashes: seq<Digest>)
    requires hashes != [] && Height(|hashes|) == 0
    ensures MergeUp(H, hashes) == hashes
  {
  }

  function Push(H: HashFn, s: State, leaf: Bytes): State {
    State(MergeUp(H, s.hashes + [H(|s.hashes|, leaf)]), s.data + [leaf], s.pruned)
  }

  // ---------------------------------------------------------------- prune

  /** Recursion of _subtree_pruned. */
  predicate SubtreePruned(pruned: set<nat>, pos0: nat)
    decreases pos0
  {
    if IsLeaf(pos0) then LeafCount(pos0) in pruned
    else
      Children(pos0);
      SubtreePruned(pruned, pos0 - Pow2(Height(pos0))) && SubtreePruned(pruned, pos0 - 1)
  }

  /** Overwrites ancestors of `current` with zeros while the sibling's subtree is pruned as well. */
  function CompactAncestors(hashes: seq<Digest>, pruned: set<nat>, current: nat): (r: seq<Digest>)
    ensures |r| == |hashes|
    decreases |hashes| - current
  {
    var (parent, sibling) := Family(current);
    if parent >= |hashes| || !SubtreePruned(pruned, sibling) then hashes
    else CompactAncestors(hashes[parent := ZERO], pruned, parent)
  }

  /** Pruning the leaf at `pos0`; no check that it is in range is made. */
  function Prune(s: State, pos0: nat): State
    requires IsLeaf(pos0)
  {
    var i := LeafCount(pos0);
    if i in s.pruned then s
    else State(CompactAncestors(s.hashes, s.pruned + {i}, pos0), s.data, s.pruned + {i})
  }

  // ---------------------------------------------------------------- rewind

  function Cut<T>(s: seq<T>, n: nat): seq<T> {
    if n < |s| then s[..n] else s
  }

  function Rewind(s: State, targetSize: nat): State {
    if targetSize >= |s.hashes| then s
    else
      var n := LeafCount(targetSize);
      State(s.hashes[..targetSize], Cut(s.data, n), set i | i in s.pruned && i < n)
  }

  // ---------------------------------------------------------------- validate

  /** The check validate makes at one position. */
  predicate NodeChecks(H: HashFn, hashes: seq<Digest>, p: nat)
    requires p < |hashes|
  {
    Height(p) > 0 ==>
      (Children(p);
       var left: Bytes, right: Bytes := hashes[p - Pow2(Height(p))], hashes[p - 1];
       left == ZERO || right == ZERO || hashes[p] == H(p, left + right))
  }

  ghost predicate Validates(H: HashFn, hashes: seq<Digest>) {
    forall p :: 0 <= p < |hashes| ==> NodeChecks(H, hashes, p)
  }

  // ---------------------------------------------------------------- enumerations

  /** Unpruned leaf positions from `from` on, as a scan of all positions finds them. */
  function LeafPositions(pruned: set<nat>, from: nat, size: nat): seq<nat>
    decreases size - from
  {
    if from >= size then []
    else if Height(from) == 0 && LeafCount(from) !in pruned then [from] + LeafPositions(pruned, from + 1, size)
    else LeafPositions(pruned, from + 1, size)
  }

  /** (leaf number, position) of the unpruned leaves from number `from` on. */
  function LeafNumbers(pruned: set<nat>, from: nat, n: nat): seq<(nat, nat)>
    decreases n - from
  {
    if from >= n then []
    else if from in pruned then LeafNumbers(pruned, from + 1, n)
    else [(from, InsertionToPmmrIndex(from))] + LeafNumbers(pruned, from + 1, n)
  }

  lemma LeafNumbersStep(pruned: set<nat>, from: nat, n: nat)
    requires from < n
    ensures LeafNumbers(pruned, from, n) ==
            (if from in pruned then [] else [(from, InsertionToPmmrIndex(from))]) + LeafNumbers(pruned, from + 1, n)
  {
  }

  /** Every unpruned leaf from number `from` on is listed with its own position, and nothing else is. */
  lemma {:induction false} NumbersListed(pruned: set<nat>, from: nat, n: nat, i: nat, p: nat)
    ensures (i, p) in LeafNumbers(pruned, from, n) <==>
            from <= i < n && i !in pruned && Height(p) == 0 && LeafCount(p) == i
    decreases n - from
  {
    if from >= n {
    } else {
      NumbersListed(pruned, from + 1, n, i, p);
      LeafPosMeaning(from);
      if Height(p) == 0 { LeafPosUnique(p); }
    }
  }

  function Positions(s: seq<(nat, nat)>): seq<nat> {
    seq(|s|, i requires 0 <= i < |s| => s[i].1)
  }

  /** From a leaf position on, a scan of positions meets the leaves in the order of their numbers. */
  lemma {:induction false} LeafScan(pruned: set<nat>, p: nat, n: nat)
    requires p <= MmrSize(n)
    ensures LeafPositions(pruned, p, MmrSize(n)) == Positions(LeafNumbers(pruned, LeafCount(p), n))
    decreases MmrSize(n) - p
  {
    LeafPosMeaning(n);
    if p == MmrSize(n) {
    } else {
      LeafInRange(n, p);
      LeafCountStep(p);
      LeafScan(pruned, p + 1, n);
      if Height(p) == 0 { LeafPosUnique(p); }
    }
  }

  lemma {:induction false} LeafTally(pruned: set<nat>, from: nat, n: nat)
    requires from <= n
    ensures |LeafNumbers(pruned, from, n)| + |set i | i in pruned && from <= i < n| == n - from
    decreases n - from
  {
    var here := set i | i in pruned && from <= i < n;
    if from == n {
      assert here == {};
    } else {
      LeafTally(pruned, from + 1, n);
      var rest := set i | i in pruned && from + 1 <= i < n;
      assert here == if from in pruned then rest + {from} else rest;
    }
  }

  /** Both iterators list the same positions, and there are as many as the count of unpruned leaves says. */
  lemma IteratorsAgree(pruned: set<nat>, n: nat)
    requires forall i :: i in pruned ==> i < n
    ensures LeafPositions(pruned, 0, MmrSize(n)) == Positions(LeafNumbers(pruned, 0, n))
    ensures |LeafPositions(pruned, 0, MmrSize(n))| == n - |pruned|
  {
    LeafScan(pruned, 0, n);
    LeafTally(pruned, 0, n);
    assert (set i | i in pruned && 0 <= i < n) == pruned;
  }

  /** The count n_unpruned_leaves takes from the sizes, for sets of leaves in range. */
  lemma UnprunedTally(pruned: set<nat>, size: nat)
    ensures var n := LeafCount(size);
            size == MmrSize(n) && (forall i :: i in pruned ==> i < n) ==>
              && |LeafPositions(pruned, 0, size)| == n - |pruned|
              && |LeafNumbers(pruned, 0, n)| == n - |pruned|
  {
    var n := LeafCount(size);
    if size == MmrSize(n) && (forall i :: i in pruned ==> i < n) {
      IteratorsAgree(pruned, n);
    }
  }
}
