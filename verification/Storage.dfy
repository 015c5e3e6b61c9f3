/** The disk-backed stores of mimblewimble/mmr/storage.py; a file is the sequence of what it holds. */
module Storage {
  import opened MmrIndex
  import opened Hashing

  // ---------------------------------------------------------------- hash records

  /** The first `n` records of a flat file of 32-byte hashes. */
  function Records(file: Bytes, n: nat): (r: seq<Digest>)
    requires HASH_SIZE * n <= |file|
    ensures |r| == n
  {
    seq(n, i requires 0 <= i < n => file[HASH_SIZE * i..HASH_SIZE * i + HASH_SIZE])
  }

  lemma RecordsAppend(file: Bytes, n: nat, h: Digest)
    requires HASH_SIZE * n == |file|
    ensures Records(file + h, n + 1) == Records(file, n) + [h]
  {
    forall i | 0 <= i < n + 1 ensures Records(file + h, n + 1)[i] == (Records(file, n) + [h])[i] {
      var lo := HASH_SIZE * i;
      if i < n {
        assert (file + h)[lo..lo + HASH_SIZE] == file[lo..lo + HASH_SIZE];
      } else {
        assert (file + h)[lo..lo + HASH_SIZE] == h;
      }
    }
  }

  lemma RecordsTruncate(file: Bytes, n: nat, m: nat)
    requires HASH_SIZE * n == |file| && m <= n
    ensures Records(file[..HASH_SIZE * m], m) == Records(file, n)[..m]
  {
    forall i | 0 <= i < m ensures Records(file[..HASH_SIZE * m], m)[i] == Records(file, n)[i] {
      var lo := HASH_SIZE * i;
      assert file[..HASH_SIZE * m][lo..lo + HASH_SIZE] == file[lo..lo + HASH_SIZE];
    }
  }

  lemma RecordsOverwrite(file: Bytes, n: nat, pos: nat, h: Digest)
    requires HASH_SIZE * n == |file| && pos < n
    ensures var file' := file[..HASH_SIZE * pos] + h + file[HASH_SIZE * pos + HASH_SIZE..];
            |file'| == |file| && Records(file', n) == Records(file, n)[pos := h]
  {
    var at := HASH_SIZE * pos;
    var file' := file[..at] + h + file[at + HASH_SIZE..];
    forall i | 0 <= i < n ensures Records(file', n)[i] == Records(file, n)[pos := h][i] {
      var lo := HASH_SIZE * i;
      if i < pos {
        assert file'[lo..lo + HASH_SIZE] == file[lo..lo + HASH_SIZE];
      } else if i == pos {
        assert file'[lo..lo + HASH_SIZE] == h;
      } else {
        assert file'[lo..lo + HASH_SIZE] == file[lo..lo + HASH_SIZE];
      }
    }
  }

  /** Hashes on disk followed by hashes still in the write buffer, behaving as one sequence. */
  class MMRHashFile {
    var file: Bytes
    var writeBuf: seq<Digest>
    var diskSize: nat

    ghost predicate Valid()
      reads this
    {
      |file| == HASH_SIZE * diskSize
    }

    function Contents(): seq<Digest>
      requires Valid()
      reads this
    {
      Records(file, diskSize) + writeBuf
    }

    constructor ()
      ensures Valid() && Contents() == []
    {
      file, writeBuf, diskSize := [], [], 0;
    }

    /** Over a file that exists; a record cut short at its end is not counted. */
    constructor Open(file: Bytes)
      ensures this.file == file && writeBuf == [] && diskSize == |file| / HASH_SIZE
      ensures |file| % HASH_SIZE == 0 ==> Valid() && Contents() == Records(file, |file| / HASH_SIZE)
    {
      this.file, writeBuf, diskSize := file, [], |file| / HASH_SIZE;
    }

    function Size(): (n: nat)
      requires Valid()
      reads this
      ensures n == |Contents()|
    {
      diskSize + |writeBuf|
    }

    method Get(pos0: int) returns (r: Option<Digest>)
      requires Valid()
      ensures r == if 0 <= pos0 < |Contents()| then Some(Contents()[pos0]) else None
    {
      var bufStart := diskSize;
      var total := diskSize + |writeBuf|;
      if pos0 < 0 || pos0 >= total {
        return None;
      }
      if pos0 >= bufStart {
        return Some(writeBuf[pos0 - bufStart]);
      }
      var offset := pos0 * HASH_SIZE;
      var h: Digest := file[offset..offset + HASH_SIZE];
      assert h == Records(file, diskSize)[pos0];
      return Some(h);
    }

    method Append(h: Digest)
      requires Valid()
      modifies this
      ensures Valid() && Contents() == old(Contents()) + [h]
    {
      writeBuf := writeBuf + [h];
    }

    /** Overwrites an entry; past the end nothing happens. */
    method Set(pos0: nat, h: Digest)
      requires Valid()
      modifies this
      ensures Valid()
      ensures Contents() == if pos0 < |old(Contents())| then old(Contents())[pos0 := h] else old(Contents())
    {
      if pos0 < diskSize {
        RecordsOverwrite(file, diskSize, pos0, h);
        file := file[..HASH_SIZE * pos0] + h + file[HASH_SIZE * pos0 + HASH_SIZE..];
      } else {
        var idx := pos0 - diskSize;
        if idx < |writeBuf| {
          writeBuf := writeBuf[idx := h];
        }
      }
    }

    method Flush()
      requires Valid()
      modifies this
      ensures Valid() && writeBuf == [] && Contents() == old(Contents())
    {
      if writeBuf == [] {
        return;
      }
      ghost var disk := Records(file, diskSize);
      var k := 0;
      while k < |writeBuf|
        invariant 0 <= k <= |writeBuf|
        invariant writeBuf == old(writeBuf) && diskSize == old(diskSize)
        invariant |file| == HASH_SIZE * (diskSize + k)
        invariant Records(file, diskSize + k) == disk + writeBuf[..k]
      {
        RecordsAppend(file, diskSize + k, writeBuf[k]);
        file := file + writeBuf[k];
        k := k + 1;
      }
      diskSize := diskSize + |writeBuf|;
      writeBuf := [];
    }

    /** Truncates to `newSize` entries, buffered ones included. */
    method Rewind(newSize: nat)
      requires Valid()
      modifies this
      ensures Valid()
      ensures Contents() == if newSize < |old(Contents())| then old(Contents())[..newSize] else old(Contents())
    {
      Flush();
      if newSize >= diskSize {
        return;
      }
      RecordsTruncate(file, diskSize, newSize);
      file := file[..newSize * HASH_SIZE];
      diskSize := newSize;
      writeBuf := [];
    }
  }

  // ---------------------------------------------------------------- leaf data

  /** Where a leaf's bytes start in the data file, and how many there are. */
  type Entry = (nat, nat)

  /** A read of `e.1` bytes at `e.0`: short, like a file read, when the file ends before. */
  function ReadAt(file: Bytes, e: Entry): Bytes {
    if e.0 >= |file| then [] else if e.0 + e.1 > |file| then file[e.0..] else file[e.0..e.0 + e.1]
  }

  /** The entry's bytes are all in the first `size` bytes. */
  predicate Inside(e: Entry, size: nat) {
    e.1 == 0 || e.0 + e.1 <= size
  }

  predicate AllInside(idx: seq<Entry>, size: nat) {
    forall i :: 0 <= i < |idx| ==> Inside(idx[i], size)
  }

  function ReadAll(file: Bytes, idx: seq<Entry>): (r: seq<Bytes>)
    ensures |r| == |idx|
  {
    seq(|idx|, i requires 0 <= i < |idx| => ReadAt(file, idx[i]))
  }

  /** Bytes appended to the data file are invisible to the entries already there. */
  lemma ReadAllAppend(file: Bytes, idx: seq<Entry>, data: Bytes)
    requires AllInside(idx, |file|)
    ensures ReadAll(file + data, idx) == ReadAll(file, idx)
    ensures ReadAll(file + data, idx + [(|file|, |data|)]) == ReadAll(file, idx) + [data]
    ensures AllInside(idx + [(|file|, |data|)], |file + data|)
  {
    forall i | 0 <= i < |idx| ensures ReadAt(file + data, idx[i]) == ReadAt(file, idx[i]) {
      assert Inside(idx[i], |file|);
    }
    assert ReadAt(file + data, (|file|, |data|)) == data;
  }

  /** Bytes the data file keeps when it is cut back to `n` entries. */
  function CutSize(idx: seq<Entry>, n: nat): nat
    requires n <= |idx|
  {
    if n == 0 then 0 else idx[n - 1].0 + idx[n - 1].1
  }

  /** The cut made for `n` entries leaves every kept entry whole. */
  predicate CutKeepsAll(idx: seq<Entry>, n: nat)
    requires n <= |idx|
  {
    AllInside(idx[..n], CutSize(idx, n))
  }

  function Zeros(n: nat): Bytes {
    seq(n, _ => 0)
  }

  /** A file cut, or padded with zeros, to `size` bytes. */
  function Resized(file: Bytes, size: nat): Bytes {
    if size <= |file| then file[..size] else file + Zeros(size - |file|)
  }

  lemma ReadCut(file: Bytes, e: Entry, size: nat)
    requires Inside(e, |file|) && size <= |file|
    ensures ReadAt(file[..size], e) == ReadAt(file, e) <==> Inside(e, size)
  {
    if Inside(e, size) {
      if e.1 > 0 { assert file[..size][e.0..e.0 + e.1] == file[e.0..e.0 + e.1]; }
    } else {
      assert |ReadAt(file, e)| == e.1 && |ReadAt(file[..size], e)| < e.1;
    }
  }

  lemma ReadAllCut(file: Bytes, idx: seq<Entry>, n: nat, size: nat)
    requires AllInside(idx, |file|) && n <= |idx| && size <= |file|
    ensures ReadAll(file[..size], idx[..n]) == ReadAll(file, idx)[..n] <==> AllInside(idx[..n], size)
  {
    forall i | 0 <= i < n
      ensures ReadAll(file[..size], idx[..n])[i] == ReadAll(file, idx)[..n][i] <==> Inside(idx[..n][i], size)
    {
      ReadCut(file, idx[i], size);
    }
    var cut, kept := ReadAll(file[..size], idx[..n]), ReadAll(file, idx)[..n];
    if AllInside(idx[..n], size) {
      assert forall i :: 0 <= i < n ==> cut[i] == kept[i];
    } else {
      var i :| 0 <= i < n && !Inside(idx[..n][i], size);
      assert cut[i] != kept[i];
    }
  }

  /** After the file is cut for `n` entries, those entries read as before exactly when the cut keeps them whole. */
  lemma CutExact(file: Bytes, idx: seq<Entry>, n: nat)
    requires AllInside(idx, |file|) && n <= |idx|
    ensures var file' := Resized(file, CutSize(idx, n));
            && |file'| == CutSize(idx, n)
            && (ReadAll(file', idx[..n]) == ReadAll(file, idx)[..n] <==> CutKeepsAll(idx, n))
  {
    var size := CutSize(idx, n);
    if size <= |file| {
      ReadAllCut(file, idx, n, size);
    } else {
      ReadAllAppend(file, idx, Zeros(size - |file|));
      assert ReadAll(Resized(file, size), idx[..n]) == ReadAll(Resized(file, size), idx)[..n];
    }
  }

  /** Entries in the order their bytes were appended. */
  predicate Ordered(idx: seq<Entry>) {
    forall i, j :: 0 <= i < j < |idx| ==> idx[i].0 + idx[i].1 <= idx[j].0 + idx[j].1
  }

  /** Entries as appending alone leaves them. */
  predicate InAppendOrder(file: Bytes, idx: seq<Entry>) {
    && AllInside(idx, |file|) && Ordered(idx)
    && forall i :: 0 <= i < |idx| ==> idx[i].0 + idx[i].1 <= |file|
  }

  /** Cutting an ordered index keeps every entry whole, and so does cutting inside its last, ordered part. */
  lemma OrderedCut(idx: seq<Entry>, n: nat)
    requires n <= |idx| && Ordered(idx)
    ensures CutKeepsAll(idx, n)
  {
    forall i | 0 <= i < n ensures Inside(idx[..n][i], CutSize(idx, n)) {
      if i < n - 1 { assert idx[i].0 + idx[i].1 <= idx[n - 1].0 + idx[n - 1].1; }
    }
  }

  /** The bytes of all leaves of a buffer, one after the other. */
  function Joined(buf: seq<Bytes>): Bytes {
    if buf == [] then [] else Joined(buf[..|buf| - 1]) + buf[|buf| - 1]
  }

  /** The entries of the leaves of a buffer written from offset `at` on. */
  function EntriesFrom(at: nat, buf: seq<Bytes>): (r: seq<Entry>)
    ensures |r| == |buf|
  {
    if buf == [] then []
    else
      var front := buf[..|buf| - 1];
      EntriesFrom(at, front) + [(at + |Joined(front)|, |buf[|buf| - 1]|)]
  }

  lemma EntriesStep(at: nat, buf: seq<Bytes>, k: nat)
    requires k < |buf|
    ensures Joined(buf[..k + 1]) == Joined(buf[..k]) + buf[k]
    ensures EntriesFrom(at, buf[..k + 1]) == EntriesFrom(at, buf[..k]) + [(at + |Joined(buf[..k])|, |buf[k]|)]
  {
    assert buf[..k + 1][..k] == buf[..k];
  }

  /** Leaves written behind what is there: old entries read as before, new ones as written, and cuts among them keep everything. */
  lemma {:induction false} AppendedLeaves(file: Bytes, idx: seq<Entry>, buf: seq<Bytes>)
    requires AllInside(idx, |file|)
    ensures var file', idx' := file + Joined(buf), idx + EntriesFrom(|file|, buf);
            && AllInside(idx', |file'|) && ReadAll(file', idx') == ReadAll(file, idx) + buf
            && (InAppendOrder(file, idx) ==> InAppendOrder(file', idx'))
            && forall n :: |idx| < n <= |idx'| ==> CutKeepsAll(idx', n)
    decreases |buf|
  {
    if buf == [] {
      assert file + [] == file && idx + [] == idx;
    } else {
      var k := |buf| - 1;
      AppendedLeaves(file, idx, buf[..k]);
      var file', idx' := file + Joined(buf[..k]), idx + EntriesFrom(|file|, buf[..k]);
      assert buf[..k + 1] == buf;
      EntriesStep(|file|, buf, k);
      assert file + Joined(buf) == file' + buf[k];
      assert idx + EntriesFrom(|file|, buf) == idx' + [(|file'|, |buf[k]|)];
      ReadAllAppend(file', idx', buf[k]);
      CutAfterAppend(idx', |file'|, |buf[k]|, |idx|);
      assert ReadAll(file, idx) + buf[..k] + [buf[k]] == ReadAll(file, idx) + buf;
    }
  }

  /** Leaf bytes addressed by an (offset, length) index, plus a buffer, behaving as one sequence. */
  class MMRDataFile {
    var dataFile: Bytes
    var idxFile: seq<Entry>
    var diskLeafCount: nat
    var diskDataSize: nat
    var dataBuf: seq<Bytes>

    ghost predicate Valid()
      reads this
    {
      diskLeafCount == |idxFile| && diskDataSize == |dataFile|
    }

    /** Every index entry points at bytes that are there. */
    predicate Whole()
      reads this
    {
      AllInside(idxFile, |dataFile|)
    }

    /** Nothing on disk was ever repointed: entries lie in the order they were appended. */
    predicate AppendOnly()
      reads this
    {
      InAppendOrder(dataFile, idxFile)
    }

    function Contents(): seq<Bytes>
      reads this
    {
      ReadAll(dataFile, idxFile) + dataBuf
    }

    constructor ()
      ensures Valid() && AppendOnly() && Contents() == []
    {
      dataFile, idxFile, diskLeafCount, diskDataSize, dataBuf := [], [], 0, 0, [];
    }

    /** Over files that exist. */
    constructor Open(dataFile: Bytes, idxFile: seq<Entry>)
      ensures this.dataFile == dataFile && this.idxFile == idxFile && dataBuf == []
      ensures Valid() && Contents() == ReadAll(dataFile, idxFile)
    {
      this.dataFile, this.idxFile, dataBuf := dataFile, idxFile, [];
      diskLeafCount, diskDataSize := |idxFile|, |dataFile|;
    }

    function DataSize(): (n: nat)
      requires Valid()
      reads this
      ensures n == |Contents()|
    {
      diskLeafCount + |dataBuf|
    }

    method GetData(leafIdx: int) returns (r: Option<Bytes>)
      requires Valid()
      ensures r == if 0 <= leafIdx < |Contents()| then Some(Contents()[leafIdx]) else None
    {
      var total := DataSize();
      if leafIdx < 0 || leafIdx >= total {
        return None;
      }
      if leafIdx >= diskLeafCount {
        return Some(dataBuf[leafIdx - diskLeafCount]);
      }
      return Some(ReadAt(dataFile, idxFile[leafIdx]));
    }

    method AppendData(data: Bytes) returns (idx: nat)
      requires Valid()
      modifies this
      ensures Valid() && idx == |old(Contents())| && Contents() == old(Contents()) + [data]
      ensures old(Whole()) ==> Whole()
      ensures old(AppendOnly()) ==> AppendOnly()
      ensures idxFile == old(idxFile) && dataFile == old(dataFile)
    {
      idx := DataSize();
      dataBuf := dataBuf + [data];
    }

    /** Overwrites a leaf, on disk by appending its new bytes and repointing its entry; past the end it pads. */
    method SetData(leafIdx: nat, data: Bytes)
      requires Valid() && Whole()
      modifies this
      ensures Valid() && Whole()
      ensures Contents() ==
              if leafIdx < |old(Contents())| then old(Contents())[leafIdx := data]
              else old(Contents()) + seq(leafIdx - |old(Contents())|, _ => []) + [data]
      ensures old(diskLeafCount) <= leafIdx ==> idxFile == old(idxFile) && dataFile == old(dataFile)
      ensures old(diskLeafCount) <= leafIdx && old(AppendOnly()) ==> AppendOnly()
      ensures leafIdx < old(diskLeafCount) ==>
                && idxFile == old(idxFile)[leafIdx := (|old(dataFile)|, |data|)]
                && dataFile == old(dataFile) + data
    {
      var total := DataSize();
      if leafIdx < diskLeafCount {
        var newOffset := |dataFile|;
        ReadAllAppend(dataFile, idxFile, data);
        dataFile := dataFile + data;
        ghost var read := ReadAll(dataFile, idxFile);
        idxFile := idxFile[leafIdx := (newOffset, |data|)];
        diskDataSize := newOffset + |data|;
        assert ReadAt(dataFile, (newOffset, |data|)) == data;
        assert ReadAll(dataFile, idxFile) == read[leafIdx := data];
      } else if leafIdx < total {
        dataBuf := dataBuf[leafIdx - diskLeafCount := data];
      } else {
        var pad := 0;
        ghost var was := Contents();
        while pad < leafIdx - total
          invariant 0 <= pad <= leafIdx - total
          invariant Valid() && Whole() && idxFile == old(idxFile) && dataFile == old(dataFile)
          invariant Contents() == was + seq(pad, _ => [])
        {
          assert was + seq(pad, _ => []) + [[]] == was + seq(pad + 1, _ => []);
          dataBuf := dataBuf + [[]];
          pad := pad + 1;
        }
        dataBuf := dataBuf + [data];
      }
    }

    /** Writes the buffer behind what is in the files. */
    method WriteOut() returns (currentOffset: nat)
      requires Valid()
      modifies this`dataFile, this`idxFile
      ensures idxFile == old(idxFile) + EntriesFrom(|old(dataFile)|, dataBuf)
      ensures dataFile == old(dataFile) + Joined(dataBuf) && currentOffset == |dataFile|
    {
      ghost var file, idx := dataFile, idxFile;
      currentOffset := diskDataSize;
      var k := 0;
      while k < |dataBuf|
        invariant 0 <= k <= |dataBuf| && currentOffset == |dataFile|
        invariant idxFile == idx + EntriesFrom(|file|, dataBuf[..k])
        invariant dataFile == file + Joined(dataBuf[..k])
      {
        EntriesStep(|file|, dataBuf, k);
        dataFile := dataFile + dataBuf[k];
        idxFile := idxFile + [(currentOffset, |dataBuf[k]|)];
        currentOffset := currentOffset + |dataBuf[k]|;
        k := k + 1;
      }
      assert dataBuf[..k] == dataBuf;
    }

    method Flush()
      requires Valid() && Whole()
      modifies this
      ensures Valid() && Whole() && dataBuf == [] && Contents() == old(Contents())
      ensures old(AppendOnly()) ==> AppendOnly()
      ensures |idxFile| == |old(Contents())|
      ensures idxFile == old(idxFile) + EntriesFrom(|old(dataFile)|, old(dataBuf))
      ensures dataFile == old(dataFile) + Joined(old(dataBuf))
      ensures forall n :: |old(idxFile)| < n <= |idxFile| ==> CutKeepsAll(idxFile, n)
    {
      if dataBuf == [] {
        return;
      }
      ghost var file, idx, buf := dataFile, idxFile, dataBuf;
      AppendedLeaves(file, idx, buf);
      var currentOffset := WriteOut();
      diskLeafCount := diskLeafCount + |dataBuf|;
      diskDataSize := currentOffset;
      dataBuf := [];
    }

    /**
      Keeps the first `newLeafCount` leaves. What is kept reads as before exactly when the last kept
      entry ends no earlier than the other kept ones; an index never repointed always satisfies this.
    */
    method Rewind(newLeafCount: nat)
      requires Valid() && Whole()
      modifies this
      ensures Valid()
      ensures newLeafCount >= |old(Contents())| ==> Contents() == old(Contents()) && Whole()
      ensures newLeafCount < |old(Contents())| ==>
                && |Contents()| == newLeafCount
                && (Contents() == old(Contents())[..newLeafCount] <==>
                    newLeafCount > |old(idxFile)| || CutKeepsAll(old(idxFile), newLeafCount))
                && (Contents() == old(Contents())[..newLeafCount] ==> Whole())
      ensures old(AppendOnly()) ==> AppendOnly()
      ensures old(AppendOnly()) && newLeafCount < |old(Contents())| ==> Contents() == old(Contents())[..newLeafCount]
    {
      Flush();
      if newLeafCount >= diskLeafCount {
        return;
      }
      var newDataSize := if newLeafCount == 0 then 0 else idxFile[newLeafCount - 1].0 + idxFile[newLeafCount - 1].1;
      ghost var flushed := idxFile;
      assert ReadAll(dataFile, idxFile) == old(Contents());
      assert newLeafCount > |old(idxFile)| ==> CutKeepsAll(flushed, newLeafCount);
      CutExact(dataFile, idxFile, newLeafCount);
      CutOfPrefix(idxFile, |old(idxFile)|, newLeafCount);
      if old(AppendOnly()) { OrderedCut(idxFile, newLeafCount); }
      dataFile := Resized(dataFile, newDataSize);
      idxFile := idxFile[..newLeafCount];
      diskLeafCount := newLeafCount;
      diskDataSize := newDataSize;
      assert Contents() == ReadAll(dataFile, flushed[..newLeafCount]);
    }
  }

  /** Repointed past the others, an entry does not survive a cut that drops the last of three leaves. */
  lemma RepointedCut(file: Bytes, idx: seq<Entry>, len: nat)
    requires |idx| >= 2 && InAppendOrder(file, idx) && len > 0
    ensures !CutKeepsAll(idx[0 := (|file|, len)], 2)
  {
    var idx' := idx[0 := (|file|, len)];
    assert idx'[1] == idx[1] && idx[1].0 + idx[1].1 <= |file|;
    assert idx'[..2][0] == (|file|, len);
    assert !Inside(idx'[..2][0], CutSize(idx', 2));
  }

  method ThreeLeaves(a: Bytes, b: Bytes, c: Bytes) returns (store: MMRDataFile)
    ensures fresh(store) && store.Valid() && store.AppendOnly()
    ensures store.Contents() == [a, b, c] && store.diskLeafCount == 3
  {
    store := new MMRDataFile();
    var number := store.AppendData(a);
    number := store.AppendData(b);
    number := store.AppendData(c);
    store.Flush();
  }

  /** A rewind that loses bytes: the first of three leaves is repointed behind the others, then the third is dropped. */
  method RewindAfterRepoint(a: Bytes, b: Bytes, c: Bytes, a': Bytes) returns (store: MMRDataFile)
    requires a' != []
    ensures fresh(store) && |store.Contents()| == 2 && store.Contents() != [a', b]
  {
    store := ThreeLeaves(a, b, c);
    RepointedCut(store.dataFile, store.idxFile, |a'|);
    store.SetData(0, a');
    ghost var before := store.Contents();
    assert before == [a', b, c] && before[..2] == [a', b];
    store.Rewind(2);
  }

  /** A write to a leaf still in the buffer leaves the index alone: a later rewind keeps the prefix. */
  method RewindAfterBufferedWrite(a: Bytes, b: Bytes, c: Bytes, c': Bytes) returns (store: MMRDataFile)
    ensures fresh(store) && store.Contents() == [a, b]
  {
    store := new MMRDataFile();
    var number := store.AppendData(a);
    number := store.AppendData(b);
    store.Flush();
    number := store.AppendData(c);
    store.SetData(2, c');
    assert store.Contents() == [a, b, c'];
    store.Rewind(2);
    assert [a, b, c'][..2] == [a, b];
  }

  // ---------------------------------------------------------------- prune bitmap

  /** Leaf numbers marked as pruned, and those the file holds since the last save. */
  class PruneBitmap {
    var bm: set<nat>
    var saved: set<nat>

    constructor ()
      ensures bm == {} && saved == {}
    {
      bm, saved := {}, {};
    }

    /** Over a file that exists. */
    constructor Load(saved: set<nat>)
      ensures bm == saved && this.saved == saved
    {
      bm, this.saved := saved, saved;
    }

    method Save()
      modifies this
      ensures saved == bm && bm == old(bm)
    {
      saved := bm;
    }

    method MarkPruned(leafIdx: nat)
      modifies this`bm
      ensures bm == old(bm) + {leafIdx}
    {
      bm := bm + {leafIdx};
    }

    predicate IsPruned(leafIdx: nat)
      reads this
    {
      leafIdx in bm
    }

    function Count(): nat
      reads this
    {
      |bm|
    }

    /** Forgets every leaf number from `maxLeafIdx` on. */
    method Rewind(maxLeafIdx: nat)
      modifies this`bm
      ensures bm == set i | i in old(bm) && i < maxLeafIdx
    {
      bm := set i | i in bm && i < maxLeafIdx;
    }
  }

  lemma CutOfPrefix(idx: seq<Entry>, m: nat, n: nat)
    requires m <= |idx| && n <= |idx|
    ensures n <= m ==> CutKeepsAll(idx, n) == CutKeepsAll(idx[..m], n)
  {
    if n <= m { assert idx[..m][..n] == idx[..n]; }
  }

  /** Entries appended after the first `from` end where the file ends, so a cut there keeps everything. */
  lemma CutAfterAppend(idx: seq<Entry>, size: nat, len: nat, from: nat)
    requires AllInside(idx, size) && from <= |idx|
    requires forall n :: from < n <= |idx| ==> CutKeepsAll(idx, n)
    ensures forall n :: from < n <= |idx| + 1 ==> CutKeepsAll(idx + [(size, len)], n)
  {
    var idx' := idx + [(size, len)];
    forall n | from < n <= |idx| + 1 ensures CutKeepsAll(idx', n) {
      if n <= |idx| {
        assert CutKeepsAll(idx, n);
        assert idx'[..n] == idx[..n];
      } else {
        assert idx'[..n] == idx';
      }
    }
  }
}
