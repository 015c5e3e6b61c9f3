/** The TxHashSet of mimblewimble/mmr/txhashset.py over its three PMMRs, refining TxIndex. */
module TxHashSets {
  import opened PostOrder
  import opened MmrIndex
  import opened Hashing
  import opened MerkleProofs
  import opened PmmrState
  import opened Forests
  import opened Pmmrs
  import opened Runs
  import TxIndex

  /** An empty PMMR that shares nothing with what is there. */
  method NewPmmr(H: HashFn, prunable: bool, ghost taken: set<object>) returns (p: PMMR)
    ensures fresh(p.Stores()) && p.Stores() !! taken
    ensures p.Valid() && p.H == H && (p.pruneBm != null) == prunable && p.View() == EMPTY
  {
    p := new PMMR(H, prunable);
  }

  /** Three empty PMMRs that share nothing. */
  method NewPmmrs(H: HashFn) returns (output: PMMR, rangeproof: PMMR, kernel: PMMR)
    ensures fresh(output.Stores()) && fresh(rangeproof.Stores()) && fresh(kernel.Stores())
    ensures output.Stores() !! rangeproof.Stores() && output.Stores() !! kernel.Stores()
    ensures rangeproof.Stores() !! kernel.Stores()
    ensures output.Valid() && output.H == H && output.pruneBm != null && output.View() == EMPTY
    ensures rangeproof.Valid() && rangeproof.H == H && rangeproof.pruneBm != null && rangeproof.View() == EMPTY
    ensures kernel.Valid() && kernel.H == H && kernel.pruneBm == null && kernel.View() == EMPTY
  {
    output := NewPmmr(H, true, {});
    rangeproof := NewPmmr(H, true, output.Stores());
    kernel := NewPmmr(H, false, output.Stores() + rangeproof.Stores());
  }

  /** A TxHashSet in an empty directory. */
  method NewTxHashSet(H: HashFn) returns (t: TxHashSet)
    ensures t.Valid() && fresh(t) && fresh(t.Stores()) && t.H == H
    ensures t.View() == TxIndex.NO_TX && TxIndex.Consistent(H, t.View())
  {
    var output, rangeproof, kernel := NewPmmrs(H);
    t := new TxHashSet(H, output, rangeproof, kernel, map[]);
    TxIndex.NothingConsistent(H);
  }

  class TxHashSet {
    const H: HashFn
    const output: PMMR
    const rangeproof: PMMR
    const kernel: PMMR
    var commitToPos: map<Bytes, nat>

    ghost function Stores(): set<object> {
      output.Stores() + rangeproof.Stores() + kernel.Stores()
    }

    /** The three PMMRs share nothing and are sound; only the kernel MMR cannot be pruned. */
    ghost predicate Valid()
      reads this, Stores()
    {
      && output.Stores() !! rangeproof.Stores() && output.Stores() !! kernel.Stores()
      && rangeproof.Stores() !! kernel.Stores() && this !in Stores()
      && output.Valid() && rangeproof.Valid() && kernel.Valid()
      && output.H == H && rangeproof.H == H && kernel.H == H
      && output.pruneBm != null && rangeproof.pruneBm != null && kernel.pruneBm == null
    }

    function View(): TxIndex.TxState
      requires Valid()
      reads this, Stores()
    {
      TxIndex.TxState(output.View(), rangeproof.View(), kernel.View(), commitToPos)
    }

    /** Over the three PMMRs and the index found in its directory. */
    constructor (H: HashFn, output: PMMR, rangeproof: PMMR, kernel: PMMR, index: map<Bytes, nat>)
      requires output.Stores() !! rangeproof.Stores() && output.Stores() !! kernel.Stores()
      requires rangeproof.Stores() !! kernel.Stores()
      requires output.Valid() && rangeproof.Valid() && kernel.Valid()
      requires output.H == rangeproof.H == kernel.H == H
      requires output.pruneBm != null && rangeproof.pruneBm != null && kernel.pruneBm == null
      ensures Valid() && this.H == H && this.output == output && this.rangeproof == rangeproof && this.kernel == kernel
      ensures View() == TxIndex.TxState(output.View(), rangeproof.View(), kernel.View(), index)
    {
      this.H := H;
      this.output, this.rangeproof, this.kernel, commitToPos := output, rangeproof, kernel, index;
    }

    /** Outputs, then kernels, then spent inputs. The two position counters never part. */
    method ApplyBlock(b: TxIndex.Block)
      requires Valid() && TxIndex.Consistent(H, View())
      modifies this, Stores()
      ensures Valid() && View() == TxIndex.ApplyBlock(H, old(View()), b)
      ensures TxIndex.Consistent(H, View())
    {
      ghost var before := View();
      AddOutputs(b.outputs);
      AddKernels(b.kernels);
      SpendAll(b.inputs);
      TxIndex.ApplyBlockConsistent(H, before, b);
    }

    method AddOutputs(outs: seq<(Bytes, Bytes)>)
      requires Valid() && TxIndex.Consistent(H, View())
      modifies this, Stores()
      ensures Valid() && View() == TxIndex.AddOutputs(H, old(View()), outs)
    {
      ghost var before := View();
      var i := 0;
      while i < |outs|
        invariant 0 <= i <= |outs| && Valid()
        invariant View() == TxIndex.AddOutputs(H, before, outs[..i])
      {
        TxIndex.AddOutputsConsistent(H, before, outs[..i]);
        AddOutput(outs[i]);
        TxIndex.AddOutputsStep(H, before, outs, i);
        i := i + 1;
      }
      assert outs[..i] == outs;
    }

    method AddOutput(out: (Bytes, Bytes))
      requires Valid() && |View().output.hashes| == |View().rangeproof.hashes|
      modifies this, Stores()
      ensures Valid() && View() == TxIndex.AddOutput(H, old(View()), out)
    {
      var outPos := output.Push(out.0);
      var rpPos := rangeproof.Push(out.1);
      assert outPos == rpPos;
      commitToPos := commitToPos[out.0 := outPos];
    }

    method AddKernels(kernels: seq<Bytes>)
      requires Valid()
      modifies Stores()
      ensures Valid() && View() == TxIndex.AddKernels(H, old(View()), kernels)
    {
      var i := 0;
      while i < |kernels|
        invariant 0 <= i <= |kernels| && Valid()
        invariant View() == TxIndex.AddKernels(H, old(View()), kernels[..i])
      {
        var pos := kernel.Push(kernels[i]);
        assert kernels[..i + 1][..i] == kernels[..i];
        i := i + 1;
      }
      assert kernels[..i] == kernels;
    }

    method SpendAll(inputs: seq<Bytes>)
      requires Valid()
      modifies Stores()
      ensures Valid() && View() == TxIndex.SpendAll(old(View()), inputs)
    {
      var i := 0;
      while i < |inputs|
        invariant 0 <= i <= |inputs| && Valid()
        invariant View() == TxIndex.SpendAll(old(View()), inputs[..i])
      {
        Spend(inputs[i]);
        assert inputs[..i + 1][..i] == inputs[..i];
        i := i + 1;
      }
      assert inputs[..i] == inputs;
    }

    /** A commitment without an entry is skipped; a spent one keeps its entry. */
    method Spend(commit: Bytes)
      requires Valid()
      modifies Stores()
      ensures Valid() && View() == TxIndex.Spend(old(View()), commit)
    {
      if commit in commitToPos {
        var leafPos := commitToPos[commit];
        var r := output.Prune(leafPos);
        r := rangeproof.Prune(leafPos);
      }
    }

    /** Rewinds the PMMRs and rebuilds the index; valid target sizes keep the whole consistent. */
    method Rewind(targetOutputSize: nat, targetKernelSize: nat)
      requires Valid()
      modifies this, Stores()
      ensures Valid() && View() == TxIndex.RewindTx(old(View()), targetOutputSize, targetKernelSize)
      ensures old(TxIndex.Consistent(H, View())) && Height(targetOutputSize) == 0 ==> TxIndex.Consistent(H, View())
    {
      ghost var before := View();
      output.Rewind(targetOutputSize);
      rangeproof.Rewind(targetOutputSize);
      kernel.Rewind(targetKernelSize);
      RebuildCommitIdx();
      if TxIndex.Consistent(H, before) && Height(targetOutputSize) == 0 {
        TxIndex.RewindConsistent(H, before, targetOutputSize, targetKernelSize);
      }
    }

    method RebuildCommitIdx()
      requires Valid()
      modifies this
      ensures Valid() && commitToPos == TxIndex.IndexOver(output.View(), LeafPositions(output.View().pruned, 0, |output.View().hashes|))
    {
      commitToPos := map[];
      var positions := output.LeafPosIter();
      var i := 0;
      while i < |positions|
        invariant 0 <= i <= |positions| && Valid()
        invariant commitToPos == TxIndex.IndexOver(output.View(), positions[..i])
      {
        var leafData := output.GetData(positions[i]);
        if leafData.Some? {
          commitToPos := commitToPos[leafData.value := positions[i]];
        }
        assert positions[..i + 1][..i] == positions[..i];
        i := i + 1;
      }
      assert positions[..i] == positions;
    }

    /** Prunes among the range proofs whatever is pruned among the outputs: nothing, in a consistent state. */
    method CutThrough()
      requires Valid()
      modifies rangeproof.Stores()
      ensures Valid() && View() == old(View()).(rangeproof := View().rangeproof)
      ensures View().rangeproof.pruned == old(View()).rangeproof.pruned + old(View()).output.pruned
      ensures View().rangeproof.data == old(View()).rangeproof.data
      ensures Overwritten(old(View()).rangeproof.hashes, View().rangeproof.hashes,
                          old(View()).rangeproof.pruned, View().rangeproof.pruned)
      ensures old(View()).output.pruned <= old(View()).rangeproof.pruned ==> View() == old(View())
    {
      rangeproof.PruneMissing(output.pruneBm.bm);
    }

    /** In a consistent state the two prune sets are the same, so there is nothing to cut through. */
    method CutThroughConsistent()
      requires Valid() && TxIndex.Consistent(H, View())
      modifies rangeproof.Stores()
      ensures Valid() && View() == old(View())
    {
      TxIndex.SameSpent(H, View());
      CutThrough();
    }

    /** The leaf position of a commitment: always a leaf in range that stores it. */
    method CommitToOutputPos(commit: Bytes) returns (r: Option<nat>)
      requires Valid() && TxIndex.Consistent(H, View())
      ensures r.Some? <==> commit in commitToPos
      ensures r.Some? ==> r.value == commitToPos[commit] && TxIndex.Stores(output.View(), r.value, commit)
    {
      if commit !in commitToPos {
        return None;
      }
      TxIndex.EntryNamesLeaf(H, View(), commit);
      return Some(commitToPos[commit]);
    }

    /** The inclusion proof of an indexed commitment. */
    method MerkleProofForOutput(commit: Bytes) returns (r: Option<MerkleProof>)
      requires Valid() && TxIndex.Consistent(H, View())
      ensures r == if commit in commitToPos
                   then Some(ProofFor(H, output.View().hashes, commitToPos[commit])) else None
    {
      if commit !in commitToPos {
        return None;
      }
      TxIndex.EntryNamesLeaf(H, View(), commit);
      r := output.MerkleProofOf(commitToPos[commit]);
    }
  }
}
