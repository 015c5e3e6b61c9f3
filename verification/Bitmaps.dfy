/** BitmapChunk and BitmapAccumulator of mimblewimble/mmr/bitmap.py. */
module Bitmaps {
  import opened Bits
  import opened PostOrder
  import opened MmrIndex
  import opened MmrPeaks
  import opened Hashing
  import opened MerkleProofs
  import opened PmmrState
  import opened Pushes
  import opened Binding

  const CHUNK_BITS: nat := 512
  const CHUNK_BYTES: nat := 64

  /** A chunk is its 64 bytes. */
  type Chunk = d: Bytes | |d| == CHUNK_BYTES witness ZERO_BYTES + ZERO_BYTES

  const NO_BITS: Chunk := ZERO_BYTES + ZERO_BYTES

  // ---------------------------------------------------------------- chunks

  predicate BitAt(chunk: Chunk, bit: nat)
    requires bit < CHUNK_BITS
  {
    Bit(chunk[bit / 8], bit % 8)
  }

  /** is_set: nothing, for the source's IndexError, when the bit is out of range. */
  function IsSet(chunk: Chunk, bit: int): Option<bool> {
    if bit < 0 || bit >= CHUNK_BITS then None else Some(BitAt(chunk, bit))
  }

  /** Bit `b` is the bit of weight `2^(b % 8)` in byte `b / 8`. */
  lemma IsSetMeaning(chunk: Chunk, bit: int)
    ensures IsSet(chunk, bit).Some? <==> 0 <= bit < 512
    ensures 0 <= bit < 512 ==> IsSet(chunk, bit) == Some(chunk[bit / 8] / Pow2(bit % 8) % 2 == 1)
  {
    if 0 <= bit < 512 { BitQuotient(chunk[bit / 8], bit % 8); }
  }

  lemma WithBitIsByte(byte: Byte, k: nat)
    requires k < 8
    ensures BitOr(byte, Pow2(k)) < 256
  {
    assert Pow2(4) == 16 && Pow2(8) == 256;
    forall j | 8 <= j ensures !Bit(BitOr(byte, Pow2(k)), j) {
      OrShiftedBit(byte, true, k, j);
      ClearAbove(byte, 8, j);
    }
    ClearMeansBelow(BitOr(byte, Pow2(k)), 8);
  }

  /** set_bit: a new chunk. */
  function SetBit(chunk: Chunk, bit: int): Option<Chunk> {
    if bit < 0 || bit >= CHUNK_BITS then None
    else
      WithBitIsByte(chunk[bit / 8], bit % 8);
      Some(chunk[bit / 8 := BitOr(chunk[bit / 8], Pow2(bit % 8))])
  }

  /** The new chunk differs in the one bit. */
  lemma SetBitMeaning(chunk: Chunk, bit: nat, other: nat)
    requires bit < CHUNK_BITS && other < CHUNK_BITS
    ensures SetBit(chunk, bit).Some?
    ensures BitAt(SetBit(chunk, bit).value, other) == (BitAt(chunk, other) || other == bit)
  {
    OrShiftedBit(chunk[bit / 8], true, bit % 8, other % 8);
  }

  /** Setting a clear bit adds its weight to its byte; every other byte stays. */
  lemma SetBitAdds(chunk: Chunk, bit: int)
    ensures SetBit(chunk, bit).Some? <==> 0 <= bit < 512
    ensures 0 <= bit < 512 ==>
              var i, w := bit / 8, Pow2(bit % 8);
              chunk[i] + w < 256 || chunk[i] / w % 2 == 1
    ensures 0 <= bit < 512 ==>
              var i, w := bit / 8, Pow2(bit % 8);
              SetBit(chunk, bit) == Some(if chunk[i] / w % 2 == 1 then chunk else chunk[i := chunk[i] + w])
  {
    if 0 <= bit < 512 {
      OrAdds(chunk[bit / 8], bit % 8);
      BitQuotient(chunk[bit / 8], bit % 8);
      WithBitIsByte(chunk[bit / 8], bit % 8);
      assert chunk[bit / 8 := chunk[bit / 8]] == chunk;
    }
  }

  ghost function BitsOf(chunk: Chunk): set<nat> {
    set b: nat | b < CHUNK_BITS && BitAt(chunk, b)
  }

  /** iter_set_bits: all set bits, in ascending order. */
  method IterSetBits(chunk: Chunk) returns (bits: seq<nat>)
    ensures forall b: nat :: b in bits <==> b in BitsOf(chunk)
    ensures forall i, j :: 0 <= i < j < |bits| ==> bits[i] < bits[j]
  {
    bits := [];
    var byteIdx := 0;
    while byteIdx < CHUNK_BYTES
      invariant 0 <= byteIdx <= CHUNK_BYTES
      invariant forall b: nat :: b in bits <==> b in BitsOf(chunk) && b < 8 * byteIdx
      invariant forall i, j :: 0 <= i < j < |bits| ==> bits[i] < bits[j]
    {
      var byteVal := chunk[byteIdx];
      if byteVal == 0 {
        forall k: nat ensures !Bit(0, k) { ZeroBit(k); }
      } else {
        bits := IterByte(chunk, byteIdx, bits);
      }
      byteIdx := byteIdx + 1;
    }
  }

  method IterByte(chunk: Chunk, byteIdx: nat, found: seq<nat>) returns (bits: seq<nat>)
    requires byteIdx < CHUNK_BYTES
    requires forall b: nat :: b in found <==> b in BitsOf(chunk) && b < 8 * byteIdx
    requires forall i, j :: 0 <= i < j < |found| ==> found[i] < found[j]
    ensures forall b: nat :: b in bits <==> b in BitsOf(chunk) && b < 8 * (byteIdx + 1)
    ensures forall i, j :: 0 <= i < j < |bits| ==> bits[i] < bits[j]
  {
    bits := found;
    var bitIdx := 0;
    while bitIdx < 8
      invariant 0 <= bitIdx <= 8
      invariant forall b: nat :: b in bits <==> b in BitsOf(chunk) && b < 8 * byteIdx + bitIdx
      invariant forall i, j :: 0 <= i < j < |bits| ==> bits[i] < bits[j]
    {
      var here := byteIdx * 8 + bitIdx;
      assert here / 8 == byteIdx && here % 8 == bitIdx;
      if Bit(chunk[byteIdx], bitIdx) {
        assert forall i :: 0 <= i < |bits| ==> bits[i] in bits;
        bits := bits + [here];
      }
      bitIdx := bitIdx + 1;
    }
  }

  // ---------------------------------------------------------------- the accumulator

  /** Leaf numbers whose bit is set in some chunk. */
  ghost predicate Spent(chunks: map<nat, Chunk>, leaf: nat) {
    leaf / CHUNK_BITS in chunks && BitAt(chunks[leaf / CHUNK_BITS], leaf % CHUNK_BITS)
  }

  /** Leaf hashes of the chunks' own PMMR: missing chunks count as all clear. */
  function ChunkLeaves(H: HashFn, chunks: map<nat, Chunk>, n: nat): (r: seq<Bytes>)
    ensures |r| == n
  {
    if n == 0 then []
    else
      var chunk: Chunk := if n - 1 in chunks then chunks[n - 1] else NO_BITS;
      ChunkLeaves(H, chunks, n - 1) + [H(InsertionToPmmrIndex(n - 1), chunk)]
  }

  /** `leaf` is the hash of chunk `i`, or of 64 zero bytes, at the position of leaf number `i`. */
  ghost predicate HashesChunk(H: HashFn, chunks: map<nat, Chunk>, i: nat, leaf: Bytes) {
    exists p: nat, data: Bytes ::
      && Height(p) == 0 && LeafCount(p) == i
      && (if i in chunks then data == chunks[i] else |data| == 64 && forall j :: 0 <= j < 64 ==> data[j] == 0)
      && leaf == H(p, data)
  }

  /** The leaves are the hashes of chunks 0, 1, and so on. */
  ghost predicate HashesChunks(H: HashFn, chunks: map<nat, Chunk>, leaves: seq<Bytes>) {
    forall i :: 0 <= i < |leaves| ==> HashesChunk(H, chunks, i, leaves[i])
  }

  lemma OneHash(H: HashFn, chunks: map<nat, Chunk>, i: nat, leaf: Bytes)
    ensures HashesChunk(H, chunks, i, leaf) <==>
            leaf == H(InsertionToPmmrIndex(i), if i in chunks then chunks[i] else NO_BITS)
  {
    LeafPosMeaning(i);
    if HashesChunk(H, chunks, i, leaf) {
      var p: nat, data: Bytes :|
        && Height(p) == 0 && LeafCount(p) == i
        && (if i in chunks then data == chunks[i] else |data| == 64 && forall j :: 0 <= j < 64 ==> data[j] == 0)
        && leaf == H(p, data);
      LeafPosUnique(p);
      assert i !in chunks ==> data == NO_BITS;
    }
  }

  lemma {:induction false} ChunkLeafAt(H: HashFn, chunks: map<nat, Chunk>, n: nat, i: nat)
    requires i < n
    ensures ChunkLeaves(H, chunks, n)[i] == H(InsertionToPmmrIndex(i), if i in chunks then chunks[i] else NO_BITS)
  {
    if i < n - 1 { ChunkLeafAt(H, chunks, n - 1, i); }
  }

  /** There is exactly one such list of each length. */
  lemma ChunkLeavesExact(H: HashFn, chunks: map<nat, Chunk>, leaves: seq<Bytes>)
    ensures HashesChunks(H, chunks, leaves) <==> leaves == ChunkLeaves(H, chunks, |leaves|)
  {
    var own := ChunkLeaves(H, chunks, |leaves|);
    forall i | 0 <= i < |leaves| ensures HashesChunk(H, chunks, i, leaves[i]) <==> leaves[i] == own[i] {
      ChunkLeafAt(H, chunks, |leaves|, i);
      OneHash(H, chunks, i, leaves[i]);
    }
  }

  /** Leaf numbers of the set bits of one chunk. */
  function LeavesOfChunk(chunkIdx: nat, bits: seq<nat>): set<nat> {
    set b | b in bits :: chunkIdx * CHUNK_BITS + b
  }

  lemma ChunkLeaf(chunkIdx: nat, bits: seq<nat>, leaf: nat)
    requires forall b :: b in bits ==> b < CHUNK_BITS
    ensures leaf in LeavesOfChunk(chunkIdx, bits) <==> leaf / CHUNK_BITS == chunkIdx && leaf % CHUNK_BITS in bits
  {
    if leaf in LeavesOfChunk(chunkIdx, bits) {
      var b :| b in bits && leaf == chunkIdx * CHUNK_BITS + b;
    }
    if leaf / CHUNK_BITS == chunkIdx {
      assert leaf == chunkIdx * CHUNK_BITS + leaf % CHUNK_BITS;
    }
  }

  class BitmapAccumulator {
    var chunks: map<nat, Chunk>
    var finalized: Option<set<nat>>

    /** A finalized bitmap is never stale. */
    ghost predicate Valid()
      reads this
    {
      finalized.Some? ==> forall leaf: nat :: leaf in finalized.value <==> Spent(chunks, leaf)
    }

    constructor ()
      ensures Valid() && chunks == map[]
    {
      chunks, finalized := map[], None;
    }

    method ApplyChunk(chunkIdx: nat, chunk: Chunk)
      modifies this
      ensures Valid() && chunks == old(chunks)[chunkIdx := chunk]
    {
      chunks := chunks[chunkIdx := chunk];
      finalized := None;
    }

    /** Replaces everything by the bits of a prune bitmap; `pruned` is absent for a PMMR that is not prunable. */
    method BuildFromPmmr(pruned: Option<set<nat>>)
      modifies this
      ensures Valid()
      ensures forall leaf: nat :: Spent(chunks, leaf) <==> pruned.Some? && leaf in pruned.value
    {
      chunks := map[];
      finalized := None;
      if pruned == None {
        return;
      }
      var left: set<nat> := pruned.value;
      while left != {}
        invariant left <= pruned.value && finalized == None
        invariant forall leaf: nat :: Spent(chunks, leaf) <==> leaf in pruned.value - left
        decreases |left|
      {
        var leafIdx: nat :| leafIdx in left;
        var chunkIdx, bitInChunk := leafIdx / CHUNK_BITS, leafIdx % CHUNK_BITS;
        var existing: Chunk := if chunkIdx in chunks then chunks[chunkIdx] else NO_BITS;
        ghost var before := chunks;
        chunks := chunks[chunkIdx := SetBit(existing, bitInChunk).value];
        forall leaf: nat ensures Spent(chunks, leaf) <==> Spent(before, leaf) || leaf == leafIdx {
          SetBitMeaning(existing, bitInChunk, leaf % CHUNK_BITS);
          NoBitsClear(leaf % CHUNK_BITS);
        }
        left := left - {leafIdx};
      }
    }

    /** The set of spent leaf numbers, computed once and kept until the chunks change. */
    method Finalize() returns (bm: set<nat>)
      requires Valid()
      modifies this
      ensures Valid() && chunks == old(chunks)
      ensures forall leaf: nat :: leaf in bm <==> Spent(chunks, leaf)
    {
      if finalized.Some? {
        return finalized.value;
      }
      bm := {};
      var left: set<nat> := chunks.Keys;
      while left != {}
        invariant left <= chunks.Keys && chunks == old(chunks)
        invariant forall leaf: nat :: leaf in bm <==> Spent(chunks, leaf) && leaf / CHUNK_BITS !in left
        decreases |left|
      {
        var chunkIdx: nat :| chunkIdx in left;
        var bits := IterSetBits(chunks[chunkIdx]);
        ghost var before := bm;
        bm := bm + LeavesOfChunk(chunkIdx, bits);
        forall leaf: nat ensures leaf in bm <==> leaf in before || (leaf / CHUNK_BITS == chunkIdx && Spent(chunks, leaf)) {
          ChunkLeaf(chunkIdx, bits, leaf);
        }
        left := left - {chunkIdx};
      }
      finalized := Some(bm);
    }

    method IsSpent(leafInsertionIdx: nat) returns (r: bool)
      requires Valid()
      modifies this
      ensures Valid() && chunks == old(chunks)
      ensures r <==> Spent(chunks, leafInsertionIdx)
    {
      var bm := Finalize();
      r := leafInsertionIdx in bm;
    }
  }

  // ---------------------------------------------------------------- the root over the chunks

  /** The accumulator's own push loop appends what PMMR.push would. */
  method PushLeaf(H: HashFn, hashes: seq<Digest>, dataHash: Bytes) returns (r: seq<Digest>)
    ensures r == MergeUp(H, hashes + [H(|hashes|, dataHash)])
  {
    var pos := |hashes|;
    r := hashes + [H(pos, dataHash)];
    ghost var merged := MergeUp(H, r);
    var cur: nat := pos;
    while true
      invariant cur + 1 == |r| && MergeUp(H, r) == merged
      decreases MergesAhead(|r|)
    {
      var height := Height(cur);
      var nxt := cur + 1;
      var parentHeight, nextHeight := height + 1, Height(nxt);
      if nxt < |r| && nextHeight == parentHeight {
        break;
      }
      if Height(|r|) != parentHeight {
        break;
      }
      MergeAhead(cur);
      var leftPos := cur + 1 - Pow2(height + 1);
      var parentPos := |r|;
      var left: Bytes := r[leftPos];
      MergeUpOnto(H, r, height, leftPos, left, r[cur]);
      MergesNearer(r, H(parentPos, left + r[cur]));
      r := r + [H(parentPos, left + r[cur])];
      cur := parentPos;
    }
  }

  /** Hashes of the PMMR whose leaves are the hashes of the first `n` chunks. */
  method PushChunks(H: HashFn, chunks: map<nat, Chunk>, n: nat) returns (hashes: seq<Digest>)
    ensures hashes == NodeHashes(H, ChunkLeaves(H, chunks, n))
  {
    hashes := [];
    var i := 0;
    while i < n
      invariant 0 <= i <= n
      invariant hashes == NodeHashes(H, ChunkLeaves(H, chunks, i))
    {
      var chunk: Chunk := if i in chunks then chunks[i] else NO_BITS;
      var leafHash := H(InsertionToPmmrIndex(i), chunk);
      PushUnpruned(H, ChunkLeaves(H, chunks, i), leafHash);
      hashes := PushLeaf(H, hashes, leafHash);
      i := i + 1;
    }
  }

  ghost predicate IsMaxKey(chunks: map<nat, Chunk>, top: nat) {
    top in chunks && forall k :: k in chunks ==> k <= top
  }

  lemma OneMaxKey(chunks: map<nat, Chunk>, top: nat, top': nat)
    requires IsMaxKey(chunks, top) && IsMaxKey(chunks, top')
    ensures top == top'
  {
  }

  method MaxKey(chunks: map<nat, Chunk>) returns (top: nat)
    requires chunks != map[]
    ensures IsMaxKey(chunks, top)
  {
    top :| top in chunks;
    var left: set<nat> := chunks.Keys;
    while left != {}
      invariant left <= chunks.Keys && top in chunks
      invariant forall k :: k in chunks && k !in left ==> k <= top
      decreases |left|
    {
      var k: nat :| k in left;
      if k > top {
        top := k;
      }
      left := left - {k};
    }
  }

  method RootOfChunks(H: HashFn, chunks: map<nat, Chunk>, n: nat) returns (acc: Digest)
    requires n > 0
    ensures acc == Root(H, ChunkLeaves(H, chunks, n))
  {
    ghost var leaves := ChunkLeaves(H, chunks, n);
    var hashes := PushChunks(H, chunks, n);
    SomePeak(|leaves|);
    RootIsBagged(H, leaves);
    acc := BagPeaks(H, hashes);
  }

  /** Bags the peaks from right to left. */
  method BagPeaks(H: HashFn, hashes: seq<Digest>) returns (acc: Digest)
    requires Peaks(|hashes|) != []
    ensures acc == Bag(H, |hashes|, PeakEntries(hashes))
  {
    var mmrSize := |hashes|;
    var allPeaks := ComputePeaks(mmrSize);
    ghost var entries := PeakEntries(hashes);
    var k := |allPeaks| - 1;
    PeakEntryAt(hashes, k);
    BagStep(H, mmrSize, entries, k);
    acc := hashes[allPeaks[k]];
    while k > 0
      invariant 0 <= k < |allPeaks|
      invariant acc == Bag(H, mmrSize, entries[k..])
    {
      k := k - 1;
      PeakEntryAt(hashes, k);
      var left: Bytes := hashes[allPeaks[k]];
      BagOnto(H, mmrSize, entries, k, left, acc);
      acc := H(mmrSize, left + acc);
    }
    assert entries[0..] == entries;
  }

  /** root of the accumulator: the PMMR root over the hashes of all chunks up to the last one present. */
  method BitmapRoot(H: HashFn, chunks: map<nat, Chunk>) returns (r: Option<Digest>)
    ensures r.Some? <==> chunks != map[]
    ensures forall top: nat, leaves: seq<Bytes> ::
              IsMaxKey(chunks, top) && |leaves| == top + 1 && HashesChunks(H, chunks, leaves) ==> r == Some(Root(H, leaves))
  {
    if chunks == map[] {
      return None;
    }
    var maxChunk := MaxKey(chunks);
    var acc := RootOfChunks(H, chunks, maxChunk + 1);
    forall top: nat, leaves: seq<Bytes> |
      IsMaxKey(chunks, top) && |leaves| == top + 1 && HashesChunks(H, chunks, leaves)
      ensures Root(H, leaves) == acc
    {
      OneMaxKey(chunks, top, maxChunk);
      ChunkLeavesExact(H, chunks, leaves);
    }
    return Some(acc);
  }

  /** What is hashed for the first `n` chunks. */
  ghost function ChunkInputs(chunks: map<nat, Chunk>, n: nat): set<Input> {
    set i: nat | i < n :: ChunkInput(chunks, i)
  }

  ghost function ChunkInput(chunks: map<nat, Chunk>, i: nat): Input {
    (InsertionToPmmrIndex(i), if i in chunks then chunks[i] else NO_BITS)
  }

  lemma ChunkBinding(H: HashFn, A: map<nat, Chunk>, B: map<nat, Chunk>, n: nat, leaves: seq<Bytes>, leaf: nat)
    requires |leaves| == n && HashesChunks(H, A, leaves) && HashesChunks(H, B, leaves)
    requires leaf / CHUNK_BITS < n && !Collide(H, ChunkInputs(A, n), ChunkInputs(B, n))
    ensures Spent(A, leaf) <==> Spent(B, leaf)
  {
    var i := leaf / CHUNK_BITS;
    OneHash(H, A, i, leaves[i]);
    OneHash(H, B, i, leaves[i]);
    assert ChunkInput(A, i) in ChunkInputs(A, n) && ChunkInput(B, i) in ChunkInputs(B, n);
    SameInput(H, ChunkInputs(A, n), ChunkInputs(B, n), ChunkInput(A, i), ChunkInput(B, i));
    NoBitsClear(leaf % CHUNK_BITS);
  }

  /**
    Accumulators with the same root have their last chunk at the same number and the same spent leaves, unless
    two inputs hashed for the two roots collide or one of them hashes to 32 zero bytes.
  */
  lemma BitmapBinding(H: HashFn, A: map<nat, Chunk>, B: map<nat, Chunk>, m: nat, n: nat, la: seq<Bytes>, lb: seq<Bytes>)
    requires IsMaxKey(A, m) && |la| == m + 1 && HashesChunks(H, A, la)
    requires IsMaxKey(B, n) && |lb| == n + 1 && HashesChunks(H, B, lb)
    requires Root(H, la) == Root(H, lb)
    ensures || (m == n && forall leaf :: Spent(A, leaf) <==> Spent(B, leaf))
            || Collide(H, RootInputs(H, la), RootInputs(H, lb))
            || HitsZero(H, RootInputs(H, la) + RootInputs(H, lb))
            || Collide(H, ChunkInputs(A, m + 1), ChunkInputs(B, n + 1))
  {
    RootBinding(H, la, lb);
    if la == lb && !Collide(H, ChunkInputs(A, m + 1), ChunkInputs(B, n + 1)) {
      forall leaf: nat ensures Spent(A, leaf) <==> Spent(B, leaf) {
        if leaf / CHUNK_BITS <= m { ChunkBinding(H, A, B, m + 1, la, leaf); }
      }
    }
  }

  lemma NoBitsClear(bit: nat)
    requires bit < CHUNK_BITS
    ensures !BitAt(NO_BITS, bit)
  {
    ZeroBit(bit % 8);
  }
}
