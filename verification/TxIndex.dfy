/** The TxHashSet of mimblewimble/mmr/txhashset.py as a value: three PMMR states and the commitment index. */
module TxIndex {
  import opened PostOrder
  import opened MmrIndex
  import opened MmrPeaks
  import opened Hashing
  import opened MerkleProofs
  import opened PmmrState
  import opened Forests
  import opened Runs
  import opened PrunedRoot

  /** Serialized outputs with their range proofs, kernels, and the commitments spent. */
  datatype Block = Block(outputs: seq<(Bytes, Bytes)>, kernels: seq<Bytes>, inputs: seq<Bytes>)

  datatype TxState = TxState(output: State, rangeproof: State, kernel: State, commitToPos: map<Bytes, nat>)

  const NO_TX: TxState := TxState(EMPTY, EMPTY, EMPTY, map[])

  // ---------------------------------------------------------------- operations

  function AddOutput(H: HashFn, t: TxState, out: (Bytes, Bytes)): TxState {
    TxState(Push(H, t.output, out.0), Push(H, t.rangeproof, out.1), t.kernel,
            t.commitToPos[out.0 := |t.output.hashes|])
  }

  function AddOutputs(H: HashFn, t: TxState, outs: seq<(Bytes, Bytes)>): TxState {
    if outs == [] then t else AddOutput(H, AddOutputs(H, t, outs[..|outs| - 1]), outs[|outs| - 1])
  }

  lemma AddOutputsStep(H: HashFn, t: TxState, outs: seq<(Bytes, Bytes)>, i: nat)
    requires i < |outs|
    ensures AddOutputs(H, t, outs[..i + 1]) == AddOutput(H, AddOutputs(H, t, outs[..i]), outs[i])
  {
    assert outs[..i + 1][..i] == outs[..i];
  }

  function AddKernels(H: HashFn, t: TxState, kernels: seq<Bytes>): TxState {
    if kernels == [] then t
    else
      var before := AddKernels(H, t, kernels[..|kernels| - 1]);
      before.(kernel := Push(H, before.kernel, kernels[|kernels| - 1]))
  }

  /** prune as a caller sees it: nothing happens at a position that is no leaf. */
  function PruneAt(s: State, pos: nat): State {
    if IsLeaf(pos) then Prune(s, pos) else s
  }

  /** A commitment without an entry is skipped; a spent one keeps its entry. */
  function Spend(t: TxState, commit: Bytes): TxState {
    if commit !in t.commitToPos then t
    else
      var pos := t.commitToPos[commit];
      t.(output := PruneAt(t.output, pos), rangeproof := PruneAt(t.rangeproof, pos))
  }

  function SpendAll(t: TxState, inputs: seq<Bytes>): TxState {
    if inputs == [] then t else Spend(SpendAll(t, inputs[..|inputs| - 1]), inputs[|inputs| - 1])
  }

  function ApplyBlock(H: HashFn, t: TxState, b: Block): TxState {
    SpendAll(AddKernels(H, AddOutputs(H, t, b.outputs), b.kernels), b.inputs)
  }

  /** Leaf data as get_data finds it. */
  function DataAt(s: State, pos: nat): Option<Bytes> {
    if IsLeaf(pos) && LeafCount(pos) !in s.pruned && LeafCount(pos) < |s.data| then Some(s.data[LeafCount(pos)]) else None
  }

  /** The index over `positions`, later positions winning. */
  function IndexOver(s: State, positions: seq<nat>): map<Bytes, nat> {
    if positions == [] then map[]
    else
      var last := positions[|positions| - 1];
      var before := IndexOver(s, positions[..|positions| - 1]);
      match DataAt(s, last)
      case None => before
      case Some(data) => before[data := last]
  }

  function RewindTx(t: TxState, outputSize: nat, kernelSize: nat): TxState {
    var output := Rewind(t.output, outputSize);
    TxState(output, Rewind(t.rangeproof, outputSize), Rewind(t.kernel, kernelSize),
            IndexOver(output, LeafPositions(output.pruned, 0, |output.hashes|)))
  }

  // ---------------------------------------------------------------- the invariant

  /** Every entry names a leaf in range that stores the commitment; every unpruned leaf's commitment has an entry. */
  ghost predicate Indexed(index: map<Bytes, nat>, f: Forest) {
    && (forall c :: c in index ==> NamesLeaf(index[c], c, f))
    && (forall i :: 0 <= i < |f.leaves| && i !in f.pruned ==> f.leaves[i] in index)
  }

  ghost predicate NamesLeaf(pos: nat, c: Bytes, f: Forest) {
    && Height(pos) == 0 && pos < MmrSize(|f.leaves|)
    && LeafCount(pos) < |f.leaves| && f.leaves[LeafCount(pos)] == c
  }

  /** The two output-side PMMRs run in step, and the index describes them. */
  ghost predicate InStep(H: HashFn, t: TxState, out: Forest, rp: Forest) {
    && WellFormed(out) && WellFormed(rp)
    && t.output == Abs(H, out) && t.rangeproof == Abs(H, rp)
    && |out.leaves| == |rp.leaves| && out.pruned == rp.pruned
    && Indexed(t.commitToPos, out)
  }

  lemma AddOutputInStep(H: HashFn, t: TxState, out: Forest, rp: Forest, o: (Bytes, Bytes))
    requires InStep(H, t, out, rp)
    ensures InStep(H, AddOutput(H, t, o), PushForest(out, o.0), PushForest(rp, o.1))
  {
    var n := |out.leaves|;
    PushRefines(H, out, o.0);
    PushRefines(H, rp, o.1);
    var f, index := PushForest(out, o.0), t.commitToPos[o.0 := MmrSize(n)];
    LeafPosMeaning(n);
    LeafPosGrows(n, n + 1);
    forall c | c in index ensures NamesLeaf(index[c], c, f) {
      if c != o.0 { assert NamesLeaf(t.commitToPos[c], c, out); }
    }
    forall i | 0 <= i < n + 1 && i !in f.pruned ensures f.leaves[i] in index {
    }
  }

  lemma {:induction false} AddOutputsInStep(H: HashFn, t: TxState, out: Forest, rp: Forest, outs: seq<(Bytes, Bytes)>)
      returns (out': Forest, rp': Forest)
    requires InStep(H, t, out, rp)
    ensures InStep(H, AddOutputs(H, t, outs), out', rp')
  {
    if outs == [] {
      return out, rp;
    }
    out', rp' := AddOutputsInStep(H, t, out, rp, outs[..|outs| - 1]);
    AddOutputInStep(H, AddOutputs(H, t, outs[..|outs| - 1]), out', rp', outs[|outs| - 1]);
    out', rp' := PushForest(out', outs[|outs| - 1].0), PushForest(rp', outs[|outs| - 1].1);
  }

  lemma {:induction false} KernelsLeaveRest(H: HashFn, t: TxState, kernels: seq<Bytes>)
    ensures AddKernels(H, t, kernels) == t.(kernel := AddKernels(H, t, kernels).kernel)
  {
    if kernels == [] {
    } else {
      KernelsLeaveRest(H, t, kernels[..|kernels| - 1]);
    }
  }

  lemma SpendInStep(H: HashFn, t: TxState, out: Forest, rp: Forest, commit: Bytes) returns (out': Forest, rp': Forest)
    requires InStep(H, t, out, rp)
    ensures InStep(H, Spend(t, commit), out', rp')
  {
    if commit !in t.commitToPos {
      return out, rp;
    }
    var pos := t.commitToPos[commit];
    assert NamesLeaf(pos, commit, out);
    PruneRefines(H, out, pos);
    PruneRefines(H, rp, pos);
    out', rp' := PruneForest(out, LeafCount(pos)), PruneForest(rp, LeafCount(pos));
    forall c | c in t.commitToPos ensures NamesLeaf(t.commitToPos[c], c, out') {
      assert NamesLeaf(t.commitToPos[c], c, out);
    }
  }

  lemma {:induction false} SpendAllInStep(H: HashFn, t: TxState, out: Forest, rp: Forest, inputs: seq<Bytes>)
      returns (out': Forest, rp': Forest)
    requires InStep(H, t, out, rp)
    ensures InStep(H, SpendAll(t, inputs), out', rp')
  {
    if inputs == [] {
      return out, rp;
    }
    out', rp' := SpendAllInStep(H, t, out, rp, inputs[..|inputs| - 1]);
    out', rp' := SpendInStep(H, SpendAll(t, inputs[..|inputs| - 1]), out', rp', inputs[|inputs| - 1]);
  }

  lemma ApplyBlockInStep(H: HashFn, t: TxState, out: Forest, rp: Forest, b: Block) returns (out': Forest, rp': Forest)
    requires InStep(H, t, out, rp)
    ensures InStep(H, ApplyBlock(H, t, b), out', rp')
  {
    out', rp' := AddOutputsInStep(H, t, out, rp, b.outputs);
    var added := AddOutputs(H, t, b.outputs);
    KernelsLeaveRest(H, added, b.kernels);
    out', rp' := SpendAllInStep(H, AddKernels(H, added, b.kernels), out', rp', b.inputs);
  }

  // ---------------------------------------------------------------- rebuilding the index

  lemma {:induction false} IndexOverMeaning(s: State, positions: seq<nat>)
    ensures forall c :: c in IndexOver(s, positions) ==>
              IndexOver(s, positions)[c] in positions && DataAt(s, IndexOver(s, positions)[c]) == Some(c)
    ensures forall k :: 0 <= k < |positions| && DataAt(s, positions[k]).Some? ==>
              DataAt(s, positions[k]).value in IndexOver(s, positions)
  {
    if positions == [] {
    } else {
      IndexOverMeaning(s, positions[..|positions| - 1]);
    }
  }

  lemma {:induction false} PositionsListed(pruned: set<nat>, from: nat, size: nat, p: nat)
    ensures p in LeafPositions(pruned, from, size) <==>
            from <= p < size && Height(p) == 0 && LeafCount(p) !in pruned
    decreases size - from
  {
    if from >= size {
    } else {
      PositionsListed(pruned, from + 1, size, p);
    }
  }

  ghost predicate Ascending(positions: seq<nat>) {
    forall i, j :: 0 <= i < j < |positions| ==> positions[i] < positions[j]
  }

  lemma {:induction false} PositionsAscend(pruned: set<nat>, from: nat, size: nat)
    ensures var r := LeafPositions(pruned, from, size); Ascending(r) && (r != [] ==> from <= r[0])
    decreases size - from
  {
    if from >= size {
    } else {
      PositionsAscend(pruned, from + 1, size);
    }
  }

  /** Over ascending positions an entry is never before a position that stores its commitment. */
  lemma {:induction false} LaterWins(s: State, positions: seq<nat>, k: nat)
    requires Ascending(positions) && k < |positions| && DataAt(s, positions[k]).Some?
    ensures var c := DataAt(s, positions[k]).value;
            c in IndexOver(s, positions) && positions[k] <= IndexOver(s, positions)[c]
  {
    if k < |positions| - 1 {
      LaterWins(s, positions[..|positions| - 1], k);
    }
  }

  lemma RebuiltIndex(H: HashFn, f: Forest)
    requires WellFormed(f)
    ensures var s := Abs(H, f); Indexed(IndexOver(s, LeafPositions(s.pruned, 0, |s.hashes|)), f)
  {
    var s := Abs(H, f);
    var positions := LeafPositions(s.pruned, 0, |s.hashes|);
    var index := IndexOver(s, positions);
    IndexOverMeaning(s, positions);
    forall c | c in index ensures NamesLeaf(index[c], c, f) {
      PositionsListed(s.pruned, 0, |s.hashes|, index[c]);
    }
    forall i | 0 <= i < |f.leaves| && i !in f.pruned ensures f.leaves[i] in index {
      var p := InsertionToPmmrIndex(i);
      LeafPosMeaning(i);
      LeafPosGrows(i, |f.leaves|);
      PositionsListed(s.pruned, 0, |s.hashes|, p);
      var k :| 0 <= k < |positions| && positions[k] == p;
      assert DataAt(s, positions[k]) == Some(f.leaves[i]);
    }
  }

  lemma RewindInStep(H: HashFn, t: TxState, out: Forest, rp: Forest, outputSize: nat, kernelSize: nat)
    requires InStep(H, t, out, rp) && Height(outputSize) == 0
    ensures InStep(H, RewindTx(t, outputSize, kernelSize),
                   RewindForest(out, LeafCount(outputSize)), RewindForest(rp, LeafCount(outputSize)))
  {
    var m := LeafCount(outputSize);
    LeafPosUnique(outputSize);
    RewindRefines(H, out, m);
    RewindRefines(H, rp, m);
    RebuiltIndex(H, RewindForest(out, m));
  }

  // ---------------------------------------------------------------- consistent states

  /** Some histories of outputs and range proofs in step explain the state. */
  ghost predicate Consistent(H: HashFn, t: TxState) {
    exists out, rp :: InStep(H, t, out, rp)
  }

  lemma NothingConsistent(H: HashFn)
    ensures Consistent(H, NO_TX)
  {
    StartsEmpty(H);
    assert InStep(H, NO_TX, NO_FOREST, NO_FOREST);
  }

  /** The two output-side PMMRs have equal sizes, whatever outputs were added. */
  lemma AddOutputsConsistent(H: HashFn, t: TxState, outs: seq<(Bytes, Bytes)>)
    requires Consistent(H, t)
    ensures var t' := AddOutputs(H, t, outs);
            Consistent(H, t') && |t'.output.hashes| == |t'.rangeproof.hashes|
  {
    var out, rp :| InStep(H, t, out, rp);
    out, rp := AddOutputsInStep(H, t, out, rp, outs);
  }

  lemma ApplyBlockConsistent(H: HashFn, t: TxState, b: Block)
    requires Consistent(H, t)
    ensures Consistent(H, ApplyBlock(H, t, b))
  {
    var out, rp :| InStep(H, t, out, rp);
    out, rp := ApplyBlockInStep(H, t, out, rp, b);
  }

  lemma RewindConsistent(H: HashFn, t: TxState, outputSize: nat, kernelSize: nat)
    requires Consistent(H, t) && Height(outputSize) == 0
    ensures Consistent(H, RewindTx(t, outputSize, kernelSize))
  {
    var out, rp :| InStep(H, t, out, rp);
    RewindInStep(H, t, out, rp, outputSize, kernelSize);
  }

  lemma SameSpent(H: HashFn, t: TxState)
    requires Consistent(H, t)
    ensures t.output.pruned == t.rangeproof.pruned
  {
  }

  /** The leaf at `pos` is in range and stores `c`. */
  predicate Stores(s: State, pos: nat, c: Bytes) {
    IsLeaf(pos) && pos < |s.hashes| && LeafCount(pos) < |s.data| && s.data[LeafCount(pos)] == c
  }

  lemma EntryNamesLeaf(H: HashFn, t: TxState, c: Bytes)
    requires Consistent(H, t) && c in t.commitToPos
    ensures Stores(t.output, t.commitToPos[c], c)
  {
    var out, rp :| InStep(H, t, out, rp);
    assert NamesLeaf(t.commitToPos[c], c, out);
  }

  // ---------------------------------------------------------------- runs

  datatype TxOp = Apply(block: Block) | RewindTo(outputSize: nat, kernelSize: nat)

  ghost function RunTx(H: HashFn, t: TxState, ops: seq<TxOp>): TxState
    decreases |ops|
  {
    if ops == [] then t
    else
      var t' := match ops[0]
                case Apply(b) => ApplyBlock(H, t, b)
                case RewindTo(o, k) => RewindTx(t, o, k);
      RunTx(H, t', ops[1..])
  }

  /** Output sizes rewound to are valid ones. */
  predicate ValidRewinds(ops: seq<TxOp>) {
    forall i :: 0 <= i < |ops| && ops[i].RewindTo? ==> Height(ops[i].outputSize) == 0
  }

  lemma {:induction false} RunFrom(H: HashFn, t: TxState, out: Forest, rp: Forest, ops: seq<TxOp>)
      returns (out': Forest, rp': Forest)
    requires InStep(H, t, out, rp) && ValidRewinds(ops)
    ensures InStep(H, RunTx(H, t, ops), out', rp')
    decreases |ops|
  {
    if ops == [] {
      return out, rp;
    }
    match ops[0] {
      case Apply(b) =>
        out', rp' := ApplyBlockInStep(H, t, out, rp, b);
        out', rp' := RunFrom(H, ApplyBlock(H, t, b), out', rp', ops[1..]);
      case RewindTo(o, k) =>
        RewindInStep(H, t, out, rp, o, k);
        out', rp' := RunFrom(H, RewindTx(t, o, k), RewindForest(out, LeafCount(o)), RewindForest(rp, LeafCount(o)), ops[1..]);
    }
  }

  /**
    After every run of blocks and rewinds to valid sizes: outputs and range proofs have equal sizes and prune
    sets, so their positions never differ; every index entry names an in-range leaf storing its commitment;
    and the commitment of every unpruned output has an entry.
  */
  lemma RunKeepsIndex(H: HashFn, ops: seq<TxOp>)
    requires ValidRewinds(ops)
    ensures var t := RunTx(H, NO_TX, ops);
            && |t.output.hashes| == |t.rangeproof.hashes| && |t.output.data| == |t.rangeproof.data|
            && t.output.pruned == t.rangeproof.pruned
            && (forall c :: c in t.commitToPos ==> Stores(t.output, t.commitToPos[c], c))
            && (forall i :: 0 <= i < |t.output.data| && i !in t.output.pruned ==> t.output.data[i] in t.commitToPos)
  {
    StartsEmpty(H);
    assert InStep(H, NO_TX, NO_FOREST, NO_FOREST);
    var out, rp := RunFrom(H, NO_TX, NO_FOREST, NO_FOREST, ops);
    var t := RunTx(H, NO_TX, ops);
    forall c | c in t.commitToPos ensures Stores(t.output, t.commitToPos[c], c) {
      assert NamesLeaf(t.commitToPos[c], c, out);
    }
  }

  // ---------------------------------------------------------------- commitments not reused

  /** Some unspent output stores the commitment. */
  ghost predicate Unspent(s: State, c: Bytes) {
    exists i :: 0 <= i < |s.data| && i !in s.pruned && s.data[i] == c
  }

  /** No output of the block repeats the commitment of one unspent at that moment. */
  ghost predicate FreshOutputs(H: HashFn, t: TxState, outs: seq<(Bytes, Bytes)>) {
    outs != [] ==>
      && FreshOutputs(H, t, outs[..|outs| - 1])
      && !Unspent(AddOutputs(H, t, outs[..|outs| - 1]).output, outs[|outs| - 1].0)
  }

  ghost predicate FreshRun(H: HashFn, t: TxState, ops: seq<TxOp>)
    decreases |ops|
  {
    ops != [] ==>
      match ops[0]
      case Apply(b) => FreshOutputs(H, t, b.outputs) && FreshRun(H, ApplyBlock(H, t, b), ops[1..])
      case RewindTo(o, k) => FreshRun(H, RewindTx(t, o, k), ops[1..])
  }

  /** The entry of every unspent output is that output's own position. */
  ghost predicate PointsAtUnspent(t: TxState) {
    forall i :: 0 <= i < |t.output.data| && i !in t.output.pruned ==> OwnEntry(t, i)
  }

  ghost predicate OwnEntry(t: TxState, i: nat)
    requires i < |t.output.data|
  {
    t.output.data[i] in t.commitToPos && t.commitToPos[t.output.data[i]] == InsertionToPmmrIndex(i)
  }

  lemma AddOutputPoints(H: HashFn, t: TxState, o: (Bytes, Bytes))
    requires PointsAtUnspent(t) && !Unspent(t.output, o.0) && |t.output.hashes| == MmrSize(|t.output.data|)
    ensures PointsAtUnspent(AddOutput(H, t, o))
  {
    var t' := AddOutput(H, t, o);
    forall i | 0 <= i < |t'.output.data| && i !in t'.output.pruned ensures OwnEntry(t', i) {
      if i < |t.output.data| { assert OwnEntry(t, i); }
    }
  }

  lemma {:induction false} AddOutputsPoint(H: HashFn, t: TxState, out: Forest, rp: Forest, outs: seq<(Bytes, Bytes)>)
    requires InStep(H, t, out, rp) && PointsAtUnspent(t) && FreshOutputs(H, t, outs)
    ensures PointsAtUnspent(AddOutputs(H, t, outs))
  {
    if outs == [] {
    } else {
      var k := |outs| - 1;
      AddOutputsPoint(H, t, out, rp, outs[..k]);
      var out', rp' := AddOutputsInStep(H, t, out, rp, outs[..k]);
      AddOutputPoints(H, AddOutputs(H, t, outs[..k]), outs[k]);
    }
  }

  lemma {:induction false} SpendAllPoints(t: TxState, inputs: seq<Bytes>)
    requires PointsAtUnspent(t)
    ensures PointsAtUnspent(SpendAll(t, inputs))
  {
    if inputs == [] {
    } else {
      var before := SpendAll(t, inputs[..|inputs| - 1]);
      var after := SpendAll(t, inputs);
      SpendAllPoints(t, inputs[..|inputs| - 1]);
      forall i | 0 <= i < |after.output.data| && i !in after.output.pruned ensures OwnEntry(after, i) {
        assert OwnEntry(before, i);
      }
    }
  }

  lemma ApplyBlockPoints(H: HashFn, t: TxState, out: Forest, rp: Forest, b: Block)
    requires InStep(H, t, out, rp) && PointsAtUnspent(t) && FreshOutputs(H, t, b.outputs)
    ensures PointsAtUnspent(ApplyBlock(H, t, b))
  {
    var added := AddOutputs(H, t, b.outputs);
    AddOutputsPoint(H, t, out, rp, b.outputs);
    KernelsLeaveRest(H, added, b.kernels);
    var all := AddKernels(H, added, b.kernels);
    forall i | 0 <= i < |all.output.data| && i !in all.output.pruned ensures OwnEntry(all, i) {
      assert OwnEntry(added, i);
    }
    SpendAllPoints(all, b.inputs);
  }

  /** After a rewind the rebuilt index still tells unspent outputs apart, since their commitments differ. */
  lemma RewindPoints(H: HashFn, t: TxState, out: Forest, rp: Forest, outputSize: nat, kernelSize: nat)
    requires InStep(H, t, out, rp) && PointsAtUnspent(t) && Height(outputSize) == 0
    ensures PointsAtUnspent(RewindTx(t, outputSize, kernelSize))
  {
    var t' := RewindTx(t, outputSize, kernelSize);
    var f := RewindForest(out, LeafCount(outputSize));
    RewindInStep(H, t, out, rp, outputSize, kernelSize);
    forall i | 0 <= i < |t'.output.data| && i !in t'.output.pruned ensures OwnEntry(t', i) {
      var c := t'.output.data[i];
      assert f.leaves[i] == c && OwnEntry(t, i);
      var j := RebuiltEntry(t'.output, c);
      assert OwnEntry(t, j);
      LeafPosMeaning(i);
      LeafPosMeaning(j);
    }
  }

  lemma RebuiltEntry(s: State, c: Bytes) returns (j: nat)
    requires c in IndexOver(s, LeafPositions(s.pruned, 0, |s.hashes|))
    ensures j < |s.data| && j !in s.pruned && s.data[j] == c
    ensures IndexOver(s, LeafPositions(s.pruned, 0, |s.hashes|))[c] == InsertionToPmmrIndex(j)
  {
    var positions := LeafPositions(s.pruned, 0, |s.hashes|);
    IndexOverMeaning(s, positions);
    var p := IndexOver(s, positions)[c];
    j := LeafCount(p);
    LeafPosUnique(p);
  }

  lemma {:induction false} RunPoints(H: HashFn, t: TxState, out: Forest, rp: Forest, ops: seq<TxOp>)
    requires InStep(H, t, out, rp) && PointsAtUnspent(t) && ValidRewinds(ops) && FreshRun(H, t, ops)
    ensures PointsAtUnspent(RunTx(H, t, ops))
    decreases |ops|
  {
    if ops == [] {
    } else {
      match ops[0] {
        case Apply(b) =>
          ApplyBlockPoints(H, t, out, rp, b);
          var out', rp' := ApplyBlockInStep(H, t, out, rp, b);
          RunPoints(H, ApplyBlock(H, t, b), out', rp', ops[1..]);
        case RewindTo(o, k) =>
          RewindPoints(H, t, out, rp, o, k);
          RewindInStep(H, t, out, rp, o, k);
          RunPoints(H, RewindTx(t, o, k), RewindForest(out, LeafCount(o)), RewindForest(rp, LeafCount(o)), ops[1..]);
      }
    }
  }

  /**
    If no output ever repeats the commitment of an output unspent at that moment, then after every run of blocks
    and rewinds to valid sizes the entry of each unspent output is exactly its own position.
  */
  lemma RunIndexExact(H: HashFn, ops: seq<TxOp>)
    requires ValidRewinds(ops) && FreshRun(H, NO_TX, ops)
    ensures var t := RunTx(H, NO_TX, ops);
            forall i :: 0 <= i < |t.output.data| && i !in t.output.pruned ==>
              t.output.data[i] in t.commitToPos && t.commitToPos[t.output.data[i]] == InsertionToPmmrIndex(i)
  {
    StartsEmpty(H);
    assert InStep(H, NO_TX, NO_FOREST, NO_FOREST);
    RunPoints(H, NO_TX, NO_FOREST, NO_FOREST, ops);
    var t := RunTx(H, NO_TX, ops);
    forall i | 0 <= i < |t.output.data| && i !in t.output.pruned
      ensures t.output.data[i] in t.commitToPos && t.commitToPos[t.output.data[i]] == InsertionToPmmrIndex(i)
    {
      assert OwnEntry(t, i);
    }
  }

  /**
    The Merkle proof of an indexed, unspent output convinces the verifier that the commitment itself is under
    the current root, as long as no sibling on its branch was overwritten after its parent was formed.
  */
  lemma OutputProofAccepted(H: HashFn, t: TxState, out: Forest, rp: Forest, c: Bytes)
    requires InStep(H, t, out, rp) && c in t.commitToPos
    requires LeafCount(t.commitToPos[c]) !in t.output.pruned && SiblingsUsable(out, t.commitToPos[c])
    ensures var pos := t.commitToPos[c];
            Accepts(H, ProofFor(H, t.output.hashes, pos), H(pos, c), pos, BaggedRoot(H, t.output.hashes))
  {
    var pos := t.commitToPos[c];
    assert NamesLeaf(pos, c, out);
    LeafCovers(pos, LeafCount(pos));
    UsableIntact(H, out, pos);
    BranchEndsAtPeak(|out.leaves|, pos);
    ProofAccepted(H, t.output.hashes, pos);
    assert BornInput(H, out.leaves, out.blind, pos) == (pos, c);
  }

  /** The same under a condition on the state alone: no internal sibling on the branch is fully pruned. */
  lemma AliveOutputProofAccepted(H: HashFn, t: TxState, c: Bytes)
    requires Consistent(H, t) && c in t.commitToPos && LeafCount(t.commitToPos[c]) !in t.output.pruned
    requires SiblingsAlive(t.output.pruned, t.commitToPos[c], |t.output.hashes|)
    ensures var pos := t.commitToPos[c];
            Accepts(H, ProofFor(H, t.output.hashes, pos), H(pos, c), pos, BaggedRoot(H, t.output.hashes))
  {
    var out, rp :| InStep(H, t, out, rp);
    AliveIsUsable(out, t.commitToPos[c]);
    OutputProofAccepted(H, t, out, rp, c);
  }
}
