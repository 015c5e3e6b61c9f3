/** What blocks and rewinds do to the TxHashSet, told by the states before and after them and by a plain ledger. */
module Blocks {
  import opened PostOrder
  import opened MmrIndex
  import opened Hashing
  import opened PmmrState
  import opened Forests
  import opened Runs
  import opened Pushes
  import opened TxIndex

  function Commitments(outs: seq<(Bytes, Bytes)>): (r: seq<Bytes>)
    ensures |r| == |outs| && forall k :: 0 <= k < |outs| ==> r[k] == outs[k].0
  {
    seq(|outs|, k requires 0 <= k < |outs| => outs[k].0)
  }

  function RangeProofs(outs: seq<(Bytes, Bytes)>): (r: seq<Bytes>)
    ensures |r| == |outs| && forall k :: 0 <= k < |outs| ==> r[k] == outs[k].1
  {
    seq(|outs|, k requires 0 <= k < |outs| => outs[k].1)
  }

  // ---------------------------------------------------------------- what a block appends

  /** Output number `k` is the block's last one with commitment `c`. */
  ghost predicate LastOutput(outs: seq<(Bytes, Bytes)>, c: Bytes, k: nat) {
    && k < |outs| && outs[k].0 == c
    && forall j :: k < j < |outs| ==> outs[j].0 != c
  }

  /** The entry of `c`: at the block's last output with that commitment, else where it was. */
  ghost predicate EntryAfter(before: map<Bytes, nat>, after: map<Bytes, nat>, n: nat, outs: seq<(Bytes, Bytes)>, c: Bytes) {
    && (forall k :: LastOutput(outs, c, k) ==> c in after && after[c] == InsertionToPmmrIndex(n + k))
    && (c !in Commitments(outs) ==> (c in after <==> c in before) && (c in before ==> c in after && after[c] == before[c]))
  }

  lemma {:induction false} OutputsAppended(H: HashFn, t: TxState, outs: seq<(Bytes, Bytes)>)
    ensures var t' := AddOutputs(H, t, outs);
            && t'.output.data == t.output.data + Commitments(outs) && t'.output.pruned == t.output.pruned
            && t'.rangeproof.data == t.rangeproof.data + RangeProofs(outs) && t'.rangeproof.pruned == t.rangeproof.pruned
            && t'.kernel == t.kernel
  {
    if outs == [] {
    } else {
      var m := |outs| - 1;
      OutputsAppended(H, t, outs[..m]);
      assert Commitments(outs) == Commitments(outs[..m]) + [outs[m].0];
      assert RangeProofs(outs) == RangeProofs(outs[..m]) + [outs[m].1];
    }
  }

  lemma {:induction false} OutputsIndexed(H: HashFn, t: TxState, outs: seq<(Bytes, Bytes)>, c: Bytes)
    requires Consistent(H, t)
    ensures EntryAfter(t.commitToPos, AddOutputs(H, t, outs).commitToPos, |t.output.data|, outs, c)
  {
    if outs == [] {
    } else {
      var m := |outs| - 1;
      var before := AddOutputs(H, t, outs[..m]);
      OutputsIndexed(H, t, outs[..m], c);
      SizeAfter(H, t, outs[..m]);
      EntryMoves(t.commitToPos, before.commitToPos, AddOutputs(H, t, outs).commitToPos, |t.output.data|, outs, c);
    }
  }

  lemma SizeAfter(H: HashFn, t: TxState, outs: seq<(Bytes, Bytes)>)
    requires Consistent(H, t)
    ensures |AddOutputs(H, t, outs).output.hashes| == InsertionToPmmrIndex(|t.output.data| + |outs|)
  {
    OutputsAppended(H, t, outs);
    AddOutputsConsistent(H, t, outs);
  }

  lemma EntryMoves(first: map<Bytes, nat>, before: map<Bytes, nat>, after: map<Bytes, nat>, n: nat,
                   outs: seq<(Bytes, Bytes)>, c: Bytes)
    requires outs != [] && EntryAfter(first, before, n, outs[..|outs| - 1], c)
    requires after == before[outs[|outs| - 1].0 := InsertionToPmmrIndex(n + |outs| - 1)]
    ensures EntryAfter(first, after, n, outs, c)
  {
    var m := |outs| - 1;
    if c == outs[m].0 {
      assert Commitments(outs)[m] == c;
    } else {
      forall k | LastOutput(outs, c, k) ensures c in after && after[c] == InsertionToPmmrIndex(n + k) {
        assert LastOutput(outs[..m], c, k);
      }
      if c !in Commitments(outs) {
        forall k | 0 <= k < m ensures Commitments(outs[..m])[k] != c {
          assert Commitments(outs)[k] == outs[k].0;
        }
      }
    }
  }

  lemma {:induction false} KernelsAppended(H: HashFn, t: TxState, kernels: seq<Bytes>)
    ensures AddKernels(H, t, kernels).kernel.data == t.kernel.data + kernels
    ensures AddKernels(H, t, kernels).kernel.pruned == t.kernel.pruned
    ensures GrownOnly(H, t.kernel) ==> GrownOnly(H, AddKernels(H, t, kernels).kernel)
  {
    if kernels == [] {
    } else {
      var m := |kernels| - 1;
      KernelsAppended(H, t, kernels[..m]);
      PushUnpruned(H, t.kernel.data + kernels[..m], kernels[m]);
      assert t.kernel.data + kernels[..m] + [kernels[m]] == t.kernel.data + kernels;
    }
  }

  /** Nothing was ever pruned: every stored hash is the tree hash of the leaves. */
  ghost predicate GrownOnly(H: HashFn, s: State) {
    s == State(NodeHashes(H, s.data), s.data, {})
  }

  // ---------------------------------------------------------------- what a block spends

  /** The numbers of the leaves that the inputs name. */
  ghost function Named(index: map<Bytes, nat>, inputs: seq<Bytes>): set<nat> {
    set c | c in inputs && c in index :: LeafCount(index[c])
  }

  lemma {:induction false} InputsPruned(t: TxState, inputs: seq<Bytes>)
    requires forall c :: c in t.commitToPos ==> Height(t.commitToPos[c]) == 0
    ensures var t' := SpendAll(t, inputs);
            && t'.output.data == t.output.data && t'.output.pruned == t.output.pruned + Named(t.commitToPos, inputs)
            && t'.rangeproof.data == t.rangeproof.data
            && t'.rangeproof.pruned == t.rangeproof.pruned + Named(t.commitToPos, inputs)
            && t'.kernel == t.kernel && t'.commitToPos == t.commitToPos
  {
    if inputs == [] {
    } else {
      var m := |inputs| - 1;
      InputsPruned(t, inputs[..m]);
      assert Named(t.commitToPos, inputs) ==
             Named(t.commitToPos, inputs[..m]) + (if inputs[m] in t.commitToPos then {LeafCount(t.commitToPos[inputs[m]])} else {});
    }
  }

  lemma EntriesAreLeaves(H: HashFn, t: TxState)
    requires Consistent(H, t)
    ensures forall c :: c in t.commitToPos ==> Height(t.commitToPos[c]) == 0
  {
    forall c | c in t.commitToPos ensures Height(t.commitToPos[c]) == 0 {
      EntryNamesLeaf(H, t, c);
    }
  }

  /**
    A block appends its outputs' commitments to the outputs, their range proofs to the range proofs and its
    kernels to the kernels. The entry of a commitment is the position of the block's last output with it, and
    stays as it was if there is none. Then exactly those leaves are pruned, among outputs and range proofs
    alike, that an input's commitment has an entry for; the entries stay.
  */
  lemma BlockMeaning(H: HashFn, t: TxState, b: Block)
    requires Consistent(H, t)
    ensures var t' := ApplyBlock(H, t, b);
            && t'.output.data == t.output.data + Commitments(b.outputs)
            && t'.rangeproof.data == t.rangeproof.data + RangeProofs(b.outputs)
            && t'.kernel.data == t.kernel.data + b.kernels && t'.kernel.pruned == t.kernel.pruned
    ensures var t' := ApplyBlock(H, t, b);
            forall c :: EntryAfter(t.commitToPos, t'.commitToPos, |t.output.data|, b.outputs, c)
    ensures var t' := ApplyBlock(H, t, b);
            && t'.output.pruned == t.output.pruned + Named(t'.commitToPos, b.inputs)
            && t'.rangeproof.pruned == t.rangeproof.pruned + Named(t'.commitToPos, b.inputs)
    ensures GrownOnly(H, t.kernel) ==> GrownOnly(H, ApplyBlock(H, t, b).kernel)
  {
    var added := AddOutputs(H, t, b.outputs);
    var all := AddKernels(H, added, b.kernels);
    OutputsAppended(H, t, b.outputs);
    forall c ensures EntryAfter(t.commitToPos, added.commitToPos, |t.output.data|, b.outputs, c) {
      OutputsIndexed(H, t, b.outputs, c);
    }
    AddOutputsConsistent(H, t, b.outputs);
    EntriesAreLeaves(H, added);
    KernelsLeaveRest(H, added, b.kernels);
    KernelsAppended(H, added, b.kernels);
    InputsPruned(all, b.inputs);
  }

  lemma SpendingKeepsIndex(H: HashFn, t: TxState, b: Block)
    requires Consistent(H, t)
    ensures ApplyBlock(H, t, b).commitToPos == AddOutputs(H, t, b.outputs).commitToPos
  {
    var added := AddOutputs(H, t, b.outputs);
    AddOutputsConsistent(H, t, b.outputs);
    EntriesAreLeaves(H, added);
    KernelsLeaveRest(H, added, b.kernels);
    InputsPruned(AddKernels(H, added, b.kernels), b.inputs);
  }

  /** Every input whose commitment has an entry is spent afterwards: the entry names a pruned leaf storing it. */
  lemma InputSpent(H: HashFn, t: TxState, b: Block, c: Bytes)
    requires Consistent(H, t) && c in b.inputs
    requires c in t.commitToPos || c in Commitments(b.outputs)
    ensures var t' := ApplyBlock(H, t, b);
            c in t'.commitToPos && Stores(t'.output, t'.commitToPos[c], c)
            && LeafCount(t'.commitToPos[c]) in t'.output.pruned && LeafCount(t'.commitToPos[c]) in t'.rangeproof.pruned
  {
    var t' := ApplyBlock(H, t, b);
    BlockMeaning(H, t, b);
    ApplyBlockConsistent(H, t, b);
    assert EntryAfter(t.commitToPos, t'.commitToPos, |t.output.data|, b.outputs, c);
    if c in Commitments(b.outputs) { var k := LastOne(b.outputs, c); }
    EntryNamesLeaf(H, t', c);
  }

  lemma {:induction false} LastOne(outs: seq<(Bytes, Bytes)>, c: Bytes) returns (k: nat)
    requires c in Commitments(outs)
    ensures LastOutput(outs, c, k)
  {
    var m := |outs| - 1;
    if outs[m].0 == c { return m; }
    var i :| 0 <= i < |outs| && Commitments(outs)[i] == c;
    assert Commitments(outs[..m])[i] == c;
    k := LastOne(outs[..m], c);
  }

  // ---------------------------------------------------------------- what a rewind keeps

  lemma KernelRewound(H: HashFn, s: State, size: nat)
    requires GrownOnly(H, s) && Height(size) == 0
    ensures GrownOnly(H, Rewind(s, size)) && Rewind(s, size).data == Cut(s.data, LeafCount(size))
  {
    var m := LeafCount(size);
    LeafPosUnique(size);
    UnprunedState(H, s.data);
    RewindRefines(H, Unpruned(s.data), m);
    if m < |s.data| {
      LeafPosGrows(m, |s.data|);
      assert RewindForest(Unpruned(s.data), m) == Unpruned(s.data[..m]);
      UnprunedState(H, s.data[..m]);
    } else {
      SizeGrows(|s.data|, m);
    }
  }

  /** The unpruned leaf number `i` stores `c`, and no later one does. */
  ghost predicate LastUnspent(s: State, c: Bytes, i: nat) {
    && i < |s.data| && i !in s.pruned && s.data[i] == c
    && forall j :: i < j < |s.data| && j !in s.pruned ==> s.data[j] != c
  }

  lemma EntryNotBefore(H: HashFn, f: Forest, c: Bytes, i: nat)
    requires WellFormed(f) && LastUnspent(Abs(H, f), c, i)
    ensures var s := Abs(H, f);
            var index := IndexOver(s, LeafPositions(s.pruned, 0, |s.hashes|));
            c in index && InsertionToPmmrIndex(i) <= index[c]
  {
    var s, p := Abs(H, f), InsertionToPmmrIndex(i);
    var positions := LeafPositions(s.pruned, 0, |s.hashes|);
    LeafPosMeaning(i);
    LeafPosGrows(i, |s.data|);
    PositionsListed(s.pruned, 0, |s.hashes|, p);
    PositionsAscend(s.pruned, 0, |s.hashes|);
    var k :| 0 <= k < |positions| && positions[k] == p;
    LaterWins(s, positions, k);
  }

  /** The rebuilt index holds the commitments of the unspent outputs, each at the last one that has it. */
  lemma RebuiltExactly(H: HashFn, f: Forest, c: Bytes)
    requires WellFormed(f)
    ensures var s := Abs(H, f);
            var index := IndexOver(s, LeafPositions(s.pruned, 0, |s.hashes|));
            && (c in index <==> Unspent(s, c))
            && forall i :: LastUnspent(s, c, i) ==> c in index && index[c] == InsertionToPmmrIndex(i)
  {
    var s := Abs(H, f);
    var index := IndexOver(s, LeafPositions(s.pruned, 0, |s.hashes|));
    RebuiltIndex(H, f);
    if c in index { var j := RebuiltEntry(s, c); }
    forall i | LastUnspent(s, c, i) ensures c in index && index[c] == InsertionToPmmrIndex(i) {
      EntryNotBefore(H, f, c, i);
      var j := RebuiltEntry(s, c);
      if j < i { LeafPosGrows(j, i); }
    }
  }

  lemma RewoundForest(H: HashFn, s: State, f: Forest, size: nat)
    requires WellFormed(f) && s == Abs(H, f) && Height(size) == 0
    ensures var s', n := Rewind(s, size), LeafCount(size);
            && WellFormed(RewindForest(f, n)) && s' == Abs(H, RewindForest(f, n))
            && s'.data == Cut(s.data, n) && forall i :: i in s'.pruned <==> i in s.pruned && i < n
  {
    LeafPosUnique(size);
    RewindRefines(H, f, LeafCount(size));
  }

  /**
    A rewind to a valid output size keeps the leaves before that size in both output-side PMMRs, with what is
    pruned of them, and cuts the kernels the same way at a valid kernel size. The index then holds the
    commitments of the unspent outputs and no others, each at the last output that has it.
  */
  lemma RewindMeaning(H: HashFn, t: TxState, outputSize: nat, kernelSize: nat)
    requires Consistent(H, t) && Height(outputSize) == 0
    ensures var t', n := RewindTx(t, outputSize, kernelSize), LeafCount(outputSize);
            && t'.output.data == Cut(t.output.data, n) && t'.rangeproof.data == Cut(t.rangeproof.data, n)
            && (forall i :: i in t'.output.pruned <==> i in t.output.pruned && i < n)
            && t'.rangeproof.pruned == t'.output.pruned
    ensures var t' := RewindTx(t, outputSize, kernelSize);
            && (forall c :: c in t'.commitToPos <==> Unspent(t'.output, c))
            && (forall c, i :: LastUnspent(t'.output, c, i) ==> c in t'.commitToPos && t'.commitToPos[c] == InsertionToPmmrIndex(i))
    ensures GrownOnly(H, t.kernel) && Height(kernelSize) == 0 ==>
              var t' := RewindTx(t, outputSize, kernelSize);
              GrownOnly(H, t'.kernel) && t'.kernel.data == Cut(t.kernel.data, LeafCount(kernelSize))
  {
    var out, rp :| InStep(H, t, out, rp);
    var t' := RewindTx(t, outputSize, kernelSize);
    RewoundForest(H, t.output, out, outputSize);
    RewoundForest(H, t.rangeproof, rp, outputSize);
    forall c ensures (c in t'.commitToPos <==> Unspent(t'.output, c)) {
      RebuiltExactly(H, RewindForest(out, LeafCount(outputSize)), c);
    }
    forall c, i | LastUnspent(t'.output, c, i) ensures c in t'.commitToPos && t'.commitToPos[c] == InsertionToPmmrIndex(i) {
      RebuiltExactly(H, RewindForest(out, LeafCount(outputSize)), c);
    }
    if GrownOnly(H, t.kernel) && Height(kernelSize) == 0 {
      KernelRewound(H, t.kernel, kernelSize);
    }
  }
}
