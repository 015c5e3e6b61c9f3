/** Pushing on a PMMR that was never pruned: every stored hash is the tree hash of the leaves. */
module Pushes {
  import opened Bits
  import opened MmrIndex
  import opened Hashing
  import opened MerkleProofs
  import opened PmmrState
  import opened Forests
  import opened PrunedRoot

  /** The forest of a run without prunes. */
  function Unpruned(leaves: seq<Bytes>): Forest {
    Forest(leaves, {}, {})
  }

  lemma NothingPruned(p: nat)
    ensures !FullyPruned({}, p)
  {
    CoversLast(p);
  }

  lemma UnprunedState(H: HashFn, leaves: seq<Bytes>)
    ensures WellFormed(Unpruned(leaves)) && PeaksAlive(Unpruned(leaves)) && NoPrunedTwins(Unpruned(leaves))
    ensures Abs(H, Unpruned(leaves)) == State(NodeHashes(H, leaves), leaves, {})
  {
    forall p: nat ensures !FullyPruned({}, p) { NothingPruned(p); }
    forall p | 0 <= p < MmrSize(|leaves|) ensures Stored(H, Unpruned(leaves), p) == NodeHash(H, leaves, p) {
      SightedIsGenuine(H, leaves, p);
    }
    assert StoredUpTo(H, Unpruned(leaves), MmrSize(|leaves|)) == NodeHashes(H, leaves);
  }

  /** The number of ones at the low end of `n`. */
  function TrailingOnes(n: nat): nat {
    if n % 2 == 0 then 0 else 1 + TrailingOnes(n / 2)
  }

  lemma {:induction false} PopcountNext(n: nat)
    ensures Popcount(n + 1) + TrailingOnes(n) == Popcount(n) + 1
  {
    if n % 2 == 1 {
      PopcountNext(n / 2);
      assert (n + 1) / 2 == n / 2 + 1 && (n + 1) % 2 == 0;
    } else {
      assert (n + 1) / 2 == n / 2 && (n + 1) % 2 == 1;
    }
  }

  /**
    push on `n` leaves puts the new leaf at position `2n - popcount(n)`, appends one parent per trailing
    one of `n`, and leaves every stored hash equal to the tree hash of the `n + 1` leaves.
  */
  lemma PushUnpruned(H: HashFn, leaves: seq<Bytes>, leaf: Bytes)
    ensures var n := |leaves|;
            var after := Push(H, State(NodeHashes(H, leaves), leaves, {}), leaf);
            && after == State(NodeHashes(H, leaves + [leaf]), leaves + [leaf], {})
            && |after.hashes| == InsertionToPmmrIndex(n) + 1 + TrailingOnes(n)
  {
    UnprunedState(H, leaves);
    UnprunedState(H, leaves + [leaf]);
    PushRefines(H, Unpruned(leaves), leaf);
    PushStaysSighted(Unpruned(leaves), leaf);
    PopcountNext(|leaves|);
  }

  /** After pushes alone, validate passes and root is the root of the leaves. */
  lemma PushesValidate(H: HashFn, leaves: seq<Bytes>)
    ensures Validates(H, NodeHashes(H, leaves))
    ensures BaggedRoot(H, NodeHashes(H, leaves)) == Root(H, leaves)
  {
    UnprunedState(H, leaves);
    NoTwinsValidates(H, Unpruned(leaves));
    RootIsBagged(H, leaves);
  }
}
