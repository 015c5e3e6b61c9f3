/** Whole runs of push, prune and rewind, and what they keep. */
module Runs {
  import opened Bits
  import opened PostOrder
  import opened MmrIndex
  import opened Hashing
  import opened PmmrState
  import opened Forests

  // ---------------------------------------------------------------- prune

  function PruneForest(f: Forest, i: nat): Forest {
    f.(pruned := f.pruned + {i})
  }

  lemma PrunedElsewhere(pruned: set<nat>, i: nat, p: nat)
    requires !Covers(p, i)
    ensures FullyPruned(pruned + {i}, p) <==> FullyPruned(pruned, p)
  {
  }

  lemma StoredAfterPrune(H: HashFn, f: Forest, i: nat, p: nat)
    requires i < |f.leaves| && i !in f.pruned && p < MmrSize(|f.leaves|)
    ensures Stored(H, PruneForest(f, i), p) ==
            if Covers(p, i) && Height(p) > 0 && FullyPruned(f.pruned + {i}, p) then ZERO else Stored(H, f, p)
  {
    if !Covers(p, i) { PrunedElsewhere(f.pruned, i, p); }
  }

  /** prune of an in-range leaf turns the state of a forest into the state of the pruned forest. */
  lemma PruneRefines(H: HashFn, f: Forest, pos0: nat)
    requires WellFormed(f) && IsLeaf(pos0) && pos0 < MmrSize(|f.leaves|)
    ensures LeafCount(pos0) < |f.leaves| && WellFormed(PruneForest(f, LeafCount(pos0)))
    ensures Prune(Abs(H, f), pos0) == Abs(H, PruneForest(f, LeafCount(pos0)))
  {
    var i := LeafCount(pos0);
    var size := MmrSize(|f.leaves|);
    LeafInRange(|f.leaves|, pos0);
    PruneKeepsWellFormed(f, i);
    if i in f.pruned {
      assert f.pruned + {i} == f.pruned;
    } else {
      var pruned' := f.pruned + {i};
      LeafCovers(pos0, i);
      assert FullyPruned(pruned', pos0) by {
        forall j | Covers(pos0, j) ensures j == i { LeafCovers(pos0, j); }
      }
      var before, after := StoredUpTo(H, f, size), StoredUpTo(H, PruneForest(f, i), size);
      forall p | 0 <= p < size ensures CompactAncestors(before, pruned', pos0)[p] == after[p] {
        CompactMeaning(before, pruned', pos0, i, p);
        StoredAfterPrune(H, f, i, p);
      }
      assert CompactAncestors(before, pruned', pos0) == after;
    }
  }

  lemma PruneKeepsWellFormed(f: Forest, i: nat)
    requires WellFormed(f) && i < |f.leaves|
    ensures WellFormed(PruneForest(f, i))
  {
    forall p | p in f.blind ensures ZeroedLeft(f.pruned + {i}, p) {
      assert ZeroedLeft(f.pruned, p);
    }
  }

  // ---------------------------------------------------------------- rewind

  ghost function RewindForest(f: Forest, m: nat): Forest {
    if m >= |f.leaves| then f
    else Forest(f.leaves[..m], set i | i in f.pruned && i < m, set p | p in f.blind && p < MmrSize(m))
  }

  /** Whatever a surviving node covers survives. */
  lemma CoversBelow(m: nat, p: nat, i: nat)
    requires p < MmrSize(m) && Covers(p, i)
    ensures i < m
  {
    LeafInRange(m, p);
  }

  lemma PrunedAfterRewind(pruned: set<nat>, m: nat, p: nat)
    requires p < MmrSize(m)
    ensures var pruned' := set i | i in pruned && i < m; FullyPruned(pruned', p) <==> FullyPruned(pruned, p)
  {
    forall i: nat | Covers(p, i) ensures i < m { CoversBelow(m, p, i); }
  }

  /** rewind to a valid size turns the state of a forest into the state of the rewound forest. */
  lemma RewindRefines(H: HashFn, f: Forest, m: nat)
    requires WellFormed(f)
    ensures WellFormed(RewindForest(f, m))
    ensures Rewind(Abs(H, f), MmrSize(m)) == Abs(H, RewindForest(f, m))
  {
    if m >= |f.leaves| {
      SizeGrows(|f.leaves|, m);
    } else {
      var g := RewindForest(f, m);
      LeafPosGrows(m, |f.leaves|);
      LeafPosMeaning(m);
      RewindKeepsWellFormed(f, m);
      forall p | 0 <= p < MmrSize(m) ensures Stored(H, g, p) == Stored(H, f, p) {
        PrunedAfterRewind(f.pruned, m, p);
        BornStable(H, f.leaves, f.blind, g.leaves, g.blind, p);
      }
      assert StoredUpTo(H, f, MmrSize(|f.leaves|))[..MmrSize(m)] == StoredUpTo(H, g, MmrSize(m));
    }
  }

  lemma RewindKeepsWellFormed(f: Forest, m: nat)
    requires WellFormed(f) && m < |f.leaves|
    ensures WellFormed(RewindForest(f, m))
  {
    var g := RewindForest(f, m);
    forall p | p in g.blind ensures ZeroedLeft(g.pruned, p) {
      assert ZeroedLeft(f.pruned, p);
      PrunedAfterRewind(f.pruned, m, p - Pow2(Height(p)));
    }
  }

  // ---------------------------------------------------------------- runs

  datatype Op = OpPush(leaf: Bytes) | OpPrune(pos0: nat) | OpRewind(targetSize: nat)

  /** Prunes name a leaf in range, rewinds a valid size. */
  predicate Applicable(s: State, op: Op) {
    match op
    case OpPush(_) => true
    case OpPrune(pos0) => IsLeaf(pos0) && pos0 < |s.hashes|
    case OpRewind(targetSize) => Height(targetSize) == 0
  }

  function Apply(H: HashFn, s: State, op: Op): State
    requires Applicable(s, op)
  {
    match op
    case OpPush(leaf) => Push(H, s, leaf)
    case OpPrune(pos0) => Prune(s, pos0)
    case OpRewind(targetSize) => Rewind(s, targetSize)
  }

  /** The same step on the forest. */
  ghost function ApplyForest(f: Forest, op: Op): Forest {
    match op
    case OpPush(leaf) => PushForest(f, leaf)
    case OpPrune(pos0) => PruneForest(f, LeafCount(pos0))
    case OpRewind(targetSize) => RewindForest(f, LeafCount(targetSize))
  }

  lemma StepRefines(H: HashFn, f: Forest, op: Op)
    requires WellFormed(f) && Applicable(Abs(H, f), op)
    ensures WellFormed(ApplyForest(f, op))
    ensures Apply(H, Abs(H, f), op) == Abs(H, ApplyForest(f, op))
  {
    match op
    case OpPush(leaf) => PushRefines(H, f, leaf);
    case OpPrune(pos0) => PruneRefines(H, f, pos0);
    case OpRewind(targetSize) =>
      LeafPosUnique(targetSize);
      RewindRefines(H, f, LeafCount(targetSize));
  }

  const EMPTY: State := State([], [], {})
  const NO_FOREST: Forest := Forest([], {}, {})

  /** Every operation is applicable when its turn comes. */
  ghost predicate CanRun(H: HashFn, s: State, ops: seq<Op>)
    decreases |ops|
  {
    ops != [] ==> Applicable(s, ops[0]) && CanRun(H, Apply(H, s, ops[0]), ops[1..])
  }

  ghost function Run(H: HashFn, s: State, ops: seq<Op>): State
    requires CanRun(H, s, ops)
    decreases |ops|
  {
    if ops == [] then s else Run(H, Apply(H, s, ops[0]), ops[1..])
  }

  ghost function RunForest(f: Forest, ops: seq<Op>): Forest
    decreases |ops|
  {
    if ops == [] then f else RunForest(ApplyForest(f, ops[0]), ops[1..])
  }

  /**
    After every run the stored hashes are those of the run's forest: an internal hash has been
    overwritten exactly when every leaf under it is pruned, and is what push computed otherwise.
  */
  lemma {:induction false} RunRefines(H: HashFn, f: Forest, ops: seq<Op>)
    requires WellFormed(f) && CanRun(H, Abs(H, f), ops)
    ensures WellFormed(RunForest(f, ops))
    ensures Run(H, Abs(H, f), ops) == Abs(H, RunForest(f, ops))
    decreases |ops|
  {
    if ops == [] {
    } else {
      StepRefines(H, f, ops[0]);
      RunRefines(H, ApplyForest(f, ops[0]), ops[1..]);
    }
  }

  lemma StartsEmpty(H: HashFn)
    ensures WellFormed(NO_FOREST) && Abs(H, NO_FOREST) == EMPTY
  {
  }

  /** `d` is the hash of some input at position `p`. */
  ghost predicate HashedAt(H: HashFn, p: nat, d: Digest) {
    exists data: Bytes :: H(p, data) == d
  }

  /**
    In terms of the state alone: after every run a leaf's hash is that of its data, whether pruned or not,
    and an internal position holds zeros if every leaf under it is pruned and a hash made at that position if not.
  */
  lemma OverwrittenExactly(H: HashFn, ops: seq<Op>, p: nat)
    requires CanRun(H, EMPTY, ops) && p < |Run(H, EMPTY, ops).hashes|
    ensures var s := Run(H, EMPTY, ops);
            && |s.hashes| == MmrSize(|s.data|) && (forall i :: i in s.pruned ==> i < |s.data|)
            && (Height(p) == 0 ==> LeafCount(p) < |s.data| && s.hashes[p] == H(p, s.data[LeafCount(p)]))
            && (Height(p) > 0 && FullyPruned(s.pruned, p) ==> s.hashes[p] == ZERO)
            && (Height(p) > 0 && !FullyPruned(s.pruned, p) ==> HashedAt(H, p, s.hashes[p]))
  {
    StartsEmpty(H);
    RunRefines(H, NO_FOREST, ops);
    var f := RunForest(NO_FOREST, ops);
    LeafInRange(|f.leaves|, p);
    var x := BornInput(H, f.leaves, f.blind, p);
    assert H(p, x.1) == Born(H, f.leaves, f.blind, p);
  }

  // ---------------------------------------------------------------- rewind undoes

  /** Operations that do not touch the first `m` leaves. */
  ghost predicate StaysAbove(H: HashFn, s: State, ops: seq<Op>, m: nat)
    requires CanRun(H, s, ops)
    decreases |ops|
  {
    ops != [] ==>
      && (match ops[0]
          case OpPush(_) => true
          case OpPrune(pos0) => pos0 >= MmrSize(m)
          case OpRewind(targetSize) => targetSize >= MmrSize(m))
      && StaysAbove(H, Apply(H, s, ops[0]), ops[1..], m)
  }

  /** `g` extends `f` without changing what `f` says about its own leaves and nodes. */
  ghost predicate Extends(f: Forest, g: Forest) {
    && |f.leaves| <= |g.leaves|
    && RewindForest(g, |f.leaves|) == f
  }

  lemma StepExtends(H: HashFn, f: Forest, g: Forest, op: Op)
    requires WellFormed(f) && WellFormed(g) && Extends(f, g) && Applicable(Abs(H, g), op)
    requires match op
             case OpPush(_) => true
             case OpPrune(pos0) => pos0 >= MmrSize(|f.leaves|)
             case OpRewind(targetSize) => targetSize >= MmrSize(|f.leaves|)
    ensures Extends(f, ApplyForest(g, op))
  {
    var m := |f.leaves|;
    LeafPosMeaning(m);
    SizeGrows(m, |g.leaves|);
    match op
    case OpPush(leaf) =>
      var g' := PushForest(g, leaf);
      assert RewindForest(g', m).leaves == f.leaves;
      assert RewindForest(g', m).pruned == f.pruned;
      assert RewindForest(g', m).blind == f.blind;
    case OpPrune(pos0) =>
      LeafCountGrows(MmrSize(m), pos0);
      var g' := PruneForest(g, LeafCount(pos0));
      LeafInRange(|g.leaves|, pos0);
      assert RewindForest(g', m).pruned == f.pruned;
    case OpRewind(targetSize) =>
      LeafCountGrows(MmrSize(m), targetSize);
      var k := LeafCount(targetSize);
      SizeGrows(m, k);
      RewindTwice(g, k, m);
  }

  lemma RewindTwice(g: Forest, k: nat, m: nat)
    requires m <= k && WellFormed(g) && m <= |g.leaves|
    ensures RewindForest(RewindForest(g, k), m) == RewindForest(g, m)
  {
    SizeGrows(m, k);
    if k < |g.leaves| {
      var a, b := RewindForest(RewindForest(g, k), m), RewindForest(g, m);
      assert a.leaves == b.leaves;
      assert a.pruned == b.pruned;
      assert a.blind == b.blind;
    }
  }

  lemma {:induction false} RunExtends(H: HashFn, f: Forest, g: Forest, ops: seq<Op>)
    requires WellFormed(f) && WellFormed(g) && Extends(f, g)
    requires CanRun(H, Abs(H, g), ops) && StaysAbove(H, Abs(H, g), ops, |f.leaves|)
    ensures Extends(f, RunForest(g, ops))
    decreases |ops|
  {
    if ops == [] {
    } else {
      StepExtends(H, f, g, ops[0]);
      StepRefines(H, g, ops[0]);
      RunExtends(H, f, ApplyForest(g, ops[0]), ops[1..]);
    }
  }

  /**
    Rewinding to an earlier size undoes any run of pushes, prunes of newer leaves and shorter rewinds
    made since: hashes, leaf data and prune set come back exactly, and with them the root.
  */
  lemma RewindUndoes(H: HashFn, f: Forest, ops: seq<Op>)
    requires WellFormed(f) && CanRun(H, Abs(H, f), ops) && StaysAbove(H, Abs(H, f), ops, |f.leaves|)
    ensures Rewind(Run(H, Abs(H, f), ops), |Abs(H, f).hashes|) == Abs(H, f)
  {
    RunExtends(H, f, f, ops);
    RunRefines(H, f, ops);
    RewindRefines(H, RunForest(f, ops), |f.leaves|);
  }
}
