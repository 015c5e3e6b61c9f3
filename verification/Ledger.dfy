/** The history of a TxHashSet as a plain ledger, which every run of blocks and rewinds follows. */
module Ledgers {
  import opened PostOrder
  import opened MmrIndex
  import opened Hashing
  import opened PmmrState
  import opened TxIndex
  import opened Blocks

  /** Commitments with their range proofs, kernels, and the numbers of the spent outputs. */
  datatype Ledger = Ledger(outputs: seq<(Bytes, Bytes)>, kernels: seq<Bytes>, spent: set<nat>)

  const NO_LEDGER: Ledger := Ledger([], [], {})

  /** A block adds its outputs and kernels and spends every output whose commitment is among its inputs. */
  ghost function Record(l: Ledger, op: TxOp): Ledger {
    match op
    case Apply(b) =>
      var all := l.outputs + b.outputs;
      Ledger(all, l.kernels + b.kernels, l.spent + SpentBy(all, b.inputs))
    case RewindTo(o, k) =>
      Ledger(Cut(l.outputs, LeafCount(o)), Cut(l.kernels, LeafCount(k)), set i | i in l.spent && i < LeafCount(o))
  }

  ghost function SpentBy(all: seq<(Bytes, Bytes)>, inputs: seq<Bytes>): set<nat> {
    set i: nat | i < |all| && all[i].0 in inputs
  }

  ghost function Recorded(l: Ledger, ops: seq<TxOp>): Ledger
    decreases |ops|
  {
    if ops == [] then l else Recorded(Record(l, ops[0]), ops[1..])
  }

  /** No new output has the commitment of one that is unspent at that moment, earlier ones of the block included. */
  ghost predicate NoReuse(l: Ledger, outs: seq<(Bytes, Bytes)>) {
    forall k, i :: 0 <= k < |outs| && 0 <= i < |l.outputs| + k && i !in l.spent ==> (l.outputs + outs)[i].0 != outs[k].0
  }

  /** Commitments are not reused, and rewinds go to valid sizes. */
  ghost predicate Proper(l: Ledger, ops: seq<TxOp>)
    decreases |ops|
  {
    ops != [] ==>
      && (match ops[0]
          case Apply(b) => NoReuse(l, b.outputs)
          case RewindTo(o, k) => Height(o) == 0 && Height(k) == 0)
      && Proper(Record(l, ops[0]), ops[1..])
  }

  /** The TxHashSet holds what the ledger says. */
  ghost predicate Holds(H: HashFn, t: TxState, l: Ledger) {
    StoresHold(H, t, l) && IndexHolds(t.commitToPos, l.outputs, l.spent)
  }

  ghost predicate StoresHold(H: HashFn, t: TxState, l: Ledger) {
    && t.output.data == Commitments(l.outputs) && t.rangeproof.data == RangeProofs(l.outputs)
    && t.output.pruned == l.spent && t.rangeproof.pruned == l.spent
    && t.kernel == State(NodeHashes(H, l.kernels), l.kernels, {})
  }

  ghost predicate IndexHolds(index: map<Bytes, nat>, outs: seq<(Bytes, Bytes)>, spent: set<nat>) {
    forall i :: 0 <= i < |outs| && i !in spent ==> EntryIs(index, outs[i].0, InsertionToPmmrIndex(i))
  }

  ghost predicate EntryIs(index: map<Bytes, nat>, c: Bytes, pos: nat) {
    c in index && index[c] == pos
  }

  lemma HoldsPoints(H: HashFn, t: TxState, l: Ledger)
    requires Holds(H, t, l)
    ensures PointsAtUnspent(t)
  {
    forall i | 0 <= i < |t.output.data| && i !in t.output.pruned ensures OwnEntry(t, i) {
      assert EntryIs(t.commitToPos, l.outputs[i].0, InsertionToPmmrIndex(i));
    }
  }

  lemma {:induction false} StaysFresh(H: HashFn, t: TxState, l: Ledger, outs: seq<(Bytes, Bytes)>)
    requires t.output.data == Commitments(l.outputs) && t.output.pruned == l.spent && NoReuse(l, outs)
    ensures FreshOutputs(H, t, outs)
  {
    if outs == [] {
    } else {
      var m := |outs| - 1;
      assert NoReuse(l, outs[..m]) by {
        forall k, i | 0 <= k < m && 0 <= i < |l.outputs| + k && i !in l.spent
          ensures (l.outputs + outs[..m])[i].0 != outs[..m][k].0
        {
          assert (l.outputs + outs)[i].0 != outs[k].0;
        }
      }
      StaysFresh(H, t, l, outs[..m]);
      var s := AddOutputs(H, t, outs[..m]).output;
      OutputsAppended(H, t, outs[..m]);
      forall i | 0 <= i < |s.data| && i !in s.pruned ensures s.data[i] != outs[m].0 {
        assert (l.outputs + outs)[i].0 != outs[m].0;
      }
    }
  }

  /** The entry names an output that has the commitment. */
  ghost predicate NamesOutput(index: map<Bytes, nat>, all: seq<(Bytes, Bytes)>, c: Bytes) {
    c in index ==> LeafCount(index[c]) < |all| && all[LeafCount(index[c])].0 == c
  }

  /** Inputs name exactly the unspent outputs that have their commitments. */
  lemma NamedIsSpent(index: map<Bytes, nat>, all: seq<(Bytes, Bytes)>, spent: set<nat>, inputs: seq<Bytes>)
    requires forall c :: NamesOutput(index, all, c)
    requires IndexHolds(index, all, spent)
    ensures spent + Named(index, inputs) == spent + SpentBy(all, inputs)
  {
    forall i: nat | i in SpentBy(all, inputs) && i !in spent ensures i in Named(index, inputs) {
      assert EntryIs(index, all[i].0, InsertionToPmmrIndex(i));
      LeafPosMeaning(i);
    }
    forall i: nat | i in Named(index, inputs) ensures i in SpentBy(all, inputs) {
      var c :| c in inputs && c in index && i == LeafCount(index[c]);
      assert NamesOutput(index, all, c);
    }
  }

  lemma EntriesNameOutputs(H: HashFn, t: TxState, all: seq<(Bytes, Bytes)>)
    requires Consistent(H, t) && t.output.data == Commitments(all)
    ensures forall c :: NamesOutput(t.commitToPos, all, c)
  {
    forall c ensures NamesOutput(t.commitToPos, all, c) {
      if c in t.commitToPos { EntryNamesLeaf(H, t, c); }
    }
  }

  lemma PointsHoldAll(t: TxState, all: seq<(Bytes, Bytes)>)
    requires PointsAtUnspent(t) && t.output.data == Commitments(all)
    ensures IndexHolds(t.commitToPos, all, t.output.pruned)
  {
    forall i | 0 <= i < |all| && i !in t.output.pruned ensures EntryIs(t.commitToPos, all[i].0, InsertionToPmmrIndex(i)) {
      assert OwnEntry(t, i);
    }
  }

  /** The index a block leaves, which it already had when it spent its inputs. */
  lemma IndexWhenSpending(H: HashFn, t: TxState, l: Ledger, b: Block)
    requires Consistent(H, t) && Holds(H, t, l) && NoReuse(l, b.outputs)
    ensures var index, all := ApplyBlock(H, t, b).commitToPos, l.outputs + b.outputs;
            (forall c :: NamesOutput(index, all, c)) && IndexHolds(index, all, l.spent)
  {
    var added, all := AddOutputs(H, t, b.outputs), l.outputs + b.outputs;
    OutputsAppended(H, t, b.outputs);
    AddOutputsConsistent(H, t, b.outputs);
    SpendingKeepsIndex(H, t, b);
    AddedPoints(H, t, l, b.outputs);
    assert Commitments(all) == Commitments(l.outputs) + Commitments(b.outputs);
    EntriesNameOutputs(H, added, all);
    PointsHoldAll(added, all);
  }

  lemma AddedPoints(H: HashFn, t: TxState, l: Ledger, outs: seq<(Bytes, Bytes)>)
    requires Consistent(H, t) && Holds(H, t, l) && NoReuse(l, outs)
    ensures PointsAtUnspent(AddOutputs(H, t, outs))
  {
    var out, rp :| InStep(H, t, out, rp);
    HoldsPoints(H, t, l);
    StaysFresh(H, t, l, outs);
    AddOutputsPoint(H, t, out, rp, outs);
  }

  lemma BlockStores(H: HashFn, t: TxState, l: Ledger, b: Block)
    requires Consistent(H, t) && StoresHold(H, t, l)
    ensures var t', all := ApplyBlock(H, t, b), l.outputs + b.outputs;
            StoresHold(H, t', Ledger(all, l.kernels + b.kernels, l.spent + Named(t'.commitToPos, b.inputs)))
  {
    BlockMeaning(H, t, b);
  }

  lemma BlockRecorded(H: HashFn, t: TxState, l: Ledger, b: Block)
    requires Consistent(H, t) && Holds(H, t, l) && NoReuse(l, b.outputs)
    ensures Consistent(H, ApplyBlock(H, t, b)) && Holds(H, ApplyBlock(H, t, b), Record(l, Apply(b)))
  {
    IndexWhenSpending(H, t, l, b);
    NamedIsSpent(ApplyBlock(H, t, b).commitToPos, l.outputs + b.outputs, l.spent, b.inputs);
    BlockStores(H, t, l, b);
    ApplyBlockConsistent(H, t, b);
  }

  lemma RewindRecorded(H: HashFn, t: TxState, l: Ledger, o: nat, k: nat)
    requires Consistent(H, t) && Holds(H, t, l) && Height(o) == 0 && Height(k) == 0
    ensures Consistent(H, RewindTx(t, o, k)) && Holds(H, RewindTx(t, o, k), Record(l, RewindTo(o, k)))
  {
    var out, rp :| InStep(H, t, out, rp);
    HoldsPoints(H, t, l);
    RewindMeaning(H, t, o, k);
    RewindPoints(H, t, out, rp, o, k);
    RewindConsistent(H, t, o, k);
    PointsHoldAll(RewindTx(t, o, k), Cut(l.outputs, LeafCount(o)));
  }

  lemma {:induction false} RunRecorded(H: HashFn, t: TxState, l: Ledger, ops: seq<TxOp>)
    requires Consistent(H, t) && Holds(H, t, l) && Proper(l, ops)
    ensures Holds(H, RunTx(H, t, ops), Recorded(l, ops))
    decreases |ops|
  {
    if ops == [] {
    } else {
      match ops[0] {
        case Apply(b) =>
          BlockRecorded(H, t, l, b);
          RunRecorded(H, ApplyBlock(H, t, b), Record(l, ops[0]), ops[1..]);
        case RewindTo(o, k) =>
          RewindRecorded(H, t, l, o, k);
          RunRecorded(H, RewindTx(t, o, k), Record(l, ops[0]), ops[1..]);
      }
    }
  }

  /**
    After every run of blocks and rewinds to valid sizes in which no output reuses the commitment of an unspent
    one, the TxHashSet holds the plain ledger of that run: the outputs in order with their range proofs, exactly
    the spent ones pruned in both, the kernels with all their tree hashes, and every unspent output's own
    position under its commitment.
  */
  lemma RunIsLedger(H: HashFn, ops: seq<TxOp>)
    requires Proper(NO_LEDGER, ops)
    ensures Holds(H, RunTx(H, NO_TX, ops), Recorded(NO_LEDGER, ops))
  {
    NothingConsistent(H);
    RunRecorded(H, NO_TX, NO_LEDGER, ops);
  }
}
