/** The packed nonces of a proof of work: serializeCycle and deserializeProofNonces of mimblewimble/blockchain.py. */
module PowPacking {
  import opened Bits
  import opened Cycles

  /** What serializeCycle returns; writing a bit past the end of the buffer raises. */
  datatype Serialized = Serialized(bytes: seq<nat>) | PastEnd

  datatype Unpacked = Nonces(nonces: seq<nat>) | BadEdgeBits | OutOfBytes

  /** Bytes needed for all nonces. */
  function ByteLen(edgeBits: nat): nat {
    (edgeBits * PROOFSIZE + 7) / 8
  }

  // ---------------------------------------------------------------- bit strings, least significant bit first

  function LowBits(n: nat, width: nat): seq<bool> {
    seq(width, k requires 0 <= k < width => Bit(n, k))
  }

  function LowValue(bits: seq<bool>): nat {
    if bits == [] then 0 else (if bits[0] then 1 else 0) + 2 * LowValue(bits[1..])
  }

  lemma {:induction false} LowValueBit(bits: seq<bool>, k: nat)
    ensures Bit(LowValue(bits), k) == (k < |bits| && bits[k])
    ensures LowValue(bits) < Pow2(|bits|)
  {
    if bits == [] {
      ZeroBit(k);
    } else {
      Halve(LowValue(bits), if bits[0] then 1 else 0, LowValue(bits[1..]));
      LowValueBit(bits[1..], if k > 0 then k - 1 else 0);
      BitStep(LowValue(bits), if k > 0 then k - 1 else 0);
    }
  }

  lemma LowBitsOfValue(bits: seq<bool>)
    ensures LowBits(LowValue(bits), |bits|) == bits
  {
    forall k | 0 <= k < |bits| ensures Bit(LowValue(bits), k) == bits[k] {
      LowValueBit(bits, k);
    }
  }

  lemma ValueOfLowBits(n: nat, width: nat)
    requires n < Pow2(width)
    ensures LowValue(LowBits(n, width)) == n
  {
    forall k: nat ensures Bit(LowValue(LowBits(n, width)), k) == Bit(n, k) {
      LowValueBit(LowBits(n, width), k);
      if k >= width { ClearAbove(n, width, k); }
    }
    SameBits(LowValue(LowBits(n, width)), n);
  }

  /** The bits of a buffer. */
  function PackedBits(data: seq<nat>): seq<bool> {
    seq(8 * |data|, s requires 0 <= s < 8 * |data| => Bit(data[s / 8], s % 8))
  }

  /** The buffer that holds `bits`, eight to a byte. */
  function Packed(bits: seq<bool>, n: nat): (r: seq<nat>)
    requires |bits| == 8 * n
    ensures |r| == n
  {
    seq(n, i requires 0 <= i < n => LowValue(bits[8 * i..8 * i + 8]))
  }

  lemma PackedRoundTrip(bits: seq<bool>, n: nat)
    requires |bits| == 8 * n
    ensures Below(Packed(bits, n), 256) && PackedBits(Packed(bits, n)) == bits
  {
    assert Pow2(4) == 16 && Pow2(8) == 256;
    forall i | 0 <= i < n ensures Packed(bits, n)[i] < 256 {
      LowValueBit(bits[8 * i..8 * i + 8], 0);
    }
    forall s | 0 <= s < 8 * n ensures PackedBits(Packed(bits, n))[s] == bits[s] {
      LowValueBit(bits[8 * (s / 8)..8 * (s / 8) + 8], s % 8);
    }
  }

  lemma PackedBitsInjective(a: seq<nat>, b: seq<nat>)
    requires Below(a, 256) && Below(b, 256) && PackedBits(a) == PackedBits(b)
    ensures a == b
  {
    assert Pow2(4) == 16 && Pow2(8) == 256;
    assert |a| == |b|;
    forall i | 0 <= i < |a| ensures a[i] == b[i] {
      forall k: nat ensures Bit(a[i], k) == Bit(b[i], k) {
        if k < 8 {
          assert PackedBits(a)[8 * i + k] == PackedBits(b)[8 * i + k];
        } else {
          ClearAbove(a[i], 8, k);
          ClearAbove(b[i], 8, k);
        }
      }
      SameBits(a[i], b[i]);
    }
  }

  /** The nonces' low `width` bits, one nonce after the other. */
  function NonceBits(nonces: seq<nat>, width: nat): (r: seq<bool>)
    ensures |r| == |nonces| * width
  {
    if nonces == [] then [] else
      Distribute(|nonces| - 1, width);
      NonceBits(nonces[..|nonces| - 1], width) + LowBits(nonces[|nonces| - 1], width)
  }

  lemma Distribute(n: nat, width: nat)
    ensures (n + 1) * width == n * width + width
    ensures n * width >= 0
  {
  }

  lemma SliceFits(n: nat, m: nat, width: nat)
    requires n < m
    ensures n * width + width <= m * width
  {
    assert m * width == (n + 1) * width + (m - n - 1) * width;
    Distribute(n, width);
    Distribute(m - n - 1, width);
  }

  lemma SliceOfFront(front: seq<bool>, back: seq<bool>, from: nat, width: nat)
    requires from + width <= |front|
    ensures (front + back)[from..from + width] == front[from..from + width]
  {
  }

  lemma SliceOfBack(front: seq<bool>, back: seq<bool>)
    ensures (front + back)[|front|..|front| + |back|] == back
  {
  }

  /** The bits of nonce `n`. */
  lemma {:induction false} NonceSlice(nonces: seq<nat>, width: nat, n: nat, from: nat)
    requires n < |nonces| && from == n * width
    ensures from + width <= |NonceBits(nonces, width)|
    ensures NonceBits(nonces, width)[from..from + width] == LowBits(nonces[n], width)
    decreases |nonces|
  {
    var last := |nonces| - 1;
    var front, back := NonceBits(nonces[..last], width), LowBits(nonces[last], width);
    assert NonceBits(nonces, width) == front + back;
    if n == last {
      SliceOfBack(front, back);
    } else {
      NonceSlice(nonces[..last], width, n, from);
      SliceOfFront(front, back, from, width);
    }
  }

  /** A bit string cut, or padded with zeros, to `size` bits. */
  function Fitted(bits: seq<bool>, size: nat): (r: seq<bool>)
    ensures |r| == size
  {
    seq(size, s requires 0 <= s < size => s < |bits| && bits[s])
  }

  /** Some bit after the first `size` is set. */
  predicate Overruns(bits: seq<bool>, size: nat) {
    exists s :: size <= s < |bits| && bits[s]
  }

  // ---------------------------------------------------------------- what packing and unpacking mean

  lemma LengthFits(edgeBits: nat)
    ensures PROOFSIZE * edgeBits <= 8 * ByteLen(edgeBits) < PROOFSIZE * edgeBits + 8
  {
  }

  /** The buffer has room for PROOFSIZE nonces, however many there are. */
  function Pack(nonces: seq<nat>, edgeBits: nat): Serialized {
    var bits, size := NonceBits(nonces, edgeBits), ByteLen(edgeBits);
    if Overruns(bits, 8 * size) then PastEnd else Serialized(Packed(Fitted(bits, 8 * size), size))
  }

  lemma PackFits(nonces: seq<nat>, edgeBits: nat)
    requires |nonces| <= PROOFSIZE
    ensures |NonceBits(nonces, edgeBits)| <= 8 * ByteLen(edgeBits)
    ensures Pack(nonces, edgeBits).Serialized?
  {
    LengthFits(edgeBits);
    if |nonces| < PROOFSIZE { SliceFits(|nonces|, PROOFSIZE, edgeBits); }
  }

  /** The number in the `width` bits of nonce `n`. */
  function NonceAt(bits: seq<bool>, width: nat, m: nat, n: nat): nat
    requires n < m && m * width <= |bits|
  {
    SliceFits(n, m, width);
    Distribute(n, width);
    LowValue(bits[n * width..n * width + width])
  }

  function NoncesIn(bits: seq<bool>, width: nat, m: nat): (r: seq<nat>)
    requires m * width <= |bits|
    ensures |r| == m
  {
    seq(m, n requires 0 <= n < m => NonceAt(bits, width, m, n))
  }

  function Unpack(data: seq<nat>, edgeBits: nat): Unpacked {
    if edgeBits == 0 || edgeBits > 63 then BadEdgeBits
    else if |data| < ByteLen(edgeBits) then OutOfBytes
    else
      LengthFits(edgeBits);
      Nonces(NoncesIn(PackedBits(data), edgeBits, PROOFSIZE))
  }

  // ---------------------------------------------------------------- round trips

  lemma FittedNonce(nonces: seq<nat>, edgeBits: nat, bits: seq<bool>, padded: seq<bool>, n: nat)
    requires n < |nonces| == PROOFSIZE && bits == NonceBits(nonces, edgeBits)
    requires padded == Fitted(bits, 8 * ByteLen(edgeBits)) && PROOFSIZE * edgeBits <= |padded|
    ensures NonceAt(padded, edgeBits, PROOFSIZE, n) == LowValue(LowBits(nonces[n], edgeBits))
  {
    var from := n * edgeBits;
    Distribute(n, edgeBits);
    NonceSlice(nonces, edgeBits, n, from);
    SliceFits(n, PROOFSIZE, edgeBits);
    SliceOfFitted(bits, |padded|, from, edgeBits);
  }

  lemma SliceOfFitted(bits: seq<bool>, size: nat, from: nat, width: nat)
    requires from + width <= |bits| && from + width <= size
    ensures Fitted(bits, size)[from..from + width] == bits[from..from + width]
  {
  }

  /** Unpacking a packed proof gives every nonce's low bits back. */
  lemma UnpackPack(nonces: seq<nat>, edgeBits: nat)
    requires |nonces| == PROOFSIZE && 1 <= edgeBits <= 63
    ensures Pack(nonces, edgeBits).Serialized? && Unpack(Pack(nonces, edgeBits).bytes, edgeBits).Nonces?
    ensures var r := Unpack(Pack(nonces, edgeBits).bytes, edgeBits).nonces;
            && |r| == PROOFSIZE
            && forall n :: 0 <= n < PROOFSIZE ==> r[n] == LowValue(LowBits(nonces[n], edgeBits))
  {
    var bits := NonceBits(nonces, edgeBits);
    LengthFits(edgeBits);
    PackFits(nonces, edgeBits);
    var padded := Fitted(bits, 8 * ByteLen(edgeBits));
    PackedRoundTrip(padded, ByteLen(edgeBits));
    forall n: nat | n < PROOFSIZE
      ensures NonceAt(padded, edgeBits, PROOFSIZE, n) == LowValue(LowBits(nonces[n], edgeBits))
    {
      FittedNonce(nonces, edgeBits, bits, padded, n);
    }
  }

  /** Nonces that fit their edge bits come back unchanged. */
  lemma NoncesReturn(nonces: seq<nat>, edgeBits: nat)
    requires |nonces| == PROOFSIZE && 1 <= edgeBits <= 63
    requires forall n :: 0 <= n < PROOFSIZE ==> nonces[n] < Pow2(edgeBits)
    ensures Pack(nonces, edgeBits).Serialized?
    ensures Unpack(Pack(nonces, edgeBits).bytes, edgeBits) == Nonces(nonces)
  {
    UnpackPack(nonces, edgeBits);
    var r := Unpack(Pack(nonces, edgeBits).bytes, edgeBits).nonces;
    forall n | 0 <= n < PROOFSIZE ensures r[n] == nonces[n] {
      ValueOfLowBits(nonces[n], edgeBits);
    }
    assert r == nonces;
  }

  lemma NonceBitsStep(nonces: seq<nat>, next: nat, width: nat)
    ensures NonceBits(nonces + [next], width) == NonceBits(nonces, width) + LowBits(next, width)
  {
    assert (nonces + [next])[..|nonces|] == nonces;
  }

  /** Reading a slice back writes the same slice. */
  lemma SliceStep(bits: seq<bool>, from: nat, width: nat)
    requires from + width <= |bits|
    ensures bits[..from] + LowBits(LowValue(bits[from..from + width]), width) == bits[..from + width]
  {
    LowBitsOfValue(bits[from..from + width]);
  }

  lemma NonceIn(bits: seq<bool>, width: nat, m: nat, n: nat, from: nat)
    requires m * width <= |bits| && n < m && from == n * width
    ensures from + width <= m * width
    ensures NoncesIn(bits, width, m)[n] == LowValue(bits[from..from + width])
  {
    SliceFits(n, m, width);
  }

  lemma {:induction false} NonceBitsOfSlices(bits: seq<bool>, width: nat, m: nat, k: nat, end: nat)
    requires m * width <= |bits| && k <= m && end == k * width
    ensures end <= |bits|
    ensures NonceBits(NoncesIn(bits, width, m)[..k], width) == bits[..end]
    decreases k
  {
    var nonces := NoncesIn(bits, width, m);
    if k == 0 {
    } else {
      var from := (k - 1) * width;
      Distribute(k - 1, width);
      NonceIn(bits, width, m, k - 1, from);
      NonceBitsOfSlices(bits, width, m, k - 1, from);
      NonceBitsStep(nonces[..k - 1], nonces[k - 1], width);
      SliceStep(bits, from, width);
      assert nonces[..k] == nonces[..k - 1] + [nonces[k - 1]];
    }
  }

  ghost predicate PaddingClear(data: seq<nat>, edgeBits: nat) {
    forall s :: PROOFSIZE * edgeBits <= s < |PackedBits(data)| ==> !PackedBits(data)[s]
  }

  /** Packing what was unpacked from a buffer of the right length gives the buffer back exactly when its padding bits are zero. */
  lemma PackUnpack(data: seq<nat>, edgeBits: nat)
    requires Below(data, 256) && 1 <= edgeBits <= 63 && |data| == ByteLen(edgeBits)
    ensures Unpack(data, edgeBits).Nonces? && |Unpack(data, edgeBits).nonces| == PROOFSIZE
    ensures Pack(Unpack(data, edgeBits).nonces, edgeBits) == Serialized(data) <==> PaddingClear(data, edgeBits)
  {
    var bits := PackedBits(data);
    var used := PROOFSIZE * edgeBits;
    LengthFits(edgeBits);
    var nonces := NoncesIn(bits, edgeBits, PROOFSIZE);
    NonceBitsOfSlices(bits, edgeBits, PROOFSIZE, PROOFSIZE, used);
    assert nonces[..PROOFSIZE] == nonces;
    PackFits(nonces, edgeBits);
    var padded := Fitted(NonceBits(nonces, edgeBits), 8 * ByteLen(edgeBits));
    PackedRoundTrip(padded, ByteLen(edgeBits));
    assert NonceBits(nonces, edgeBits) == bits[..used];
    if PaddingClear(data, edgeBits) {
      assert padded == bits;
      PackedBitsInjective(Pack(nonces, edgeBits).bytes, data);
    }
    if Pack(nonces, edgeBits) == Serialized(data) {
      assert forall s :: used <= s < |padded| ==> !padded[s];
    }
  }

  // ---------------------------------------------------------------- the loops

  lemma SetPackedBit(data: seq<nat>, loc: nat)
    requires loc < 8 * |data| && Below(data, 256)
    ensures var data' := data[loc / 8 := BitOr(data[loc / 8], Pow2(loc % 8))];
            Below(data', 256) && PackedBits(data') == PackedBits(data)[loc := true]
  {
    var i, k := loc / 8, loc % 8;
    var byte' := OrShifted(data[i], true, k);
    var data' := data[i := byte'];
    assert Pow2(4) == 16 && Pow2(8) == 256;
    forall j | 8 <= j ensures !Bit(byte', j) {
      OrShiftedBit(data[i], true, k, j);
      ClearAbove(data[i], 8, j);
    }
    ClearMeansBelow(byte', 8);
    forall s | 0 <= s < 8 * |data| ensures PackedBits(data')[s] == PackedBits(data)[loc := true][s] {
      if s / 8 == i { OrShiftedBit(data[i], true, k, s % 8); }
    }
  }

  lemma ClearBuffer(data: seq<nat>)
    requires forall i :: 0 <= i < |data| ==> data[i] == 0
    ensures Below(data, 256) && forall s :: 0 <= s < |PackedBits(data)| ==> !PackedBits(data)[s]
  {
    forall s | 0 <= s < |PackedBits(data)| ensures !PackedBits(data)[s] {
      assert data[s / 8] == 0;
      ZeroBit(s % 8);
    }
  }

  /** One bit more: set if it is set in the stream and there is room for it. */
  lemma FilledStep(bits: seq<bool>, stream: seq<bool>, loc: nat)
    requires FilledTo(bits, stream, loc) && loc < |stream|
    ensures !stream[loc] ==> FilledTo(bits, stream, loc + 1)
    ensures stream[loc] && loc < |bits| ==> FilledTo(bits[loc := true], stream, loc + 1)
    ensures stream[loc] && loc >= |bits| ==> Overruns(stream, |bits|)
  {
  }

  lemma SliceBit(stream: seq<bool>, start: nat, width: nat, nonce: nat, bit: nat)
    requires start + width <= |stream| && stream[start..start + width] == LowBits(nonce, width) && bit < width
    ensures stream[start + bit] == Bit(nonce, bit)
  {
    assert stream[start..start + width][bit] == Bit(nonce, bit);
  }

  method SetBit(data: array<nat>, positionTemp: nat)
    requires positionTemp < 8 * data.Length && Below(data[..], 256)
    modifies data
    ensures Below(data[..], 256) && PackedBits(data[..]) == old(PackedBits(data[..]))[positionTemp := true]
  {
    var p := positionTemp / 8;
    SetPackedBit(data[..], positionTemp);
    ghost var data' := data[..][p := BitOr(data[p], Pow2(positionTemp % 8))];
    data[p] := BitOr(data[p], Pow2(positionTemp % 8));
    assert data[..] == data';
  }

  /** Writes the low bits of one nonce from position `start` on; gives up when a bit falls behind the buffer. */
  method WriteNonce(data: array<nat>, nonce: nat, edgeBits: nat, start: nat, ghost stream: seq<bool>) returns (ok: bool)
    requires Below(data[..], 256) && FilledTo(PackedBits(data[..]), stream, start)
    requires start + edgeBits <= |stream| && stream[start..start + edgeBits] == LowBits(nonce, edgeBits)
    modifies data
    ensures ok ==> Below(data[..], 256) && FilledTo(PackedBits(data[..]), stream, start + edgeBits)
    ensures !ok ==> Overruns(stream, 8 * data.Length)
  {
    var bit := 0;
    while bit < edgeBits
      invariant 0 <= bit <= edgeBits
      invariant Below(data[..], 256) && FilledTo(PackedBits(data[..]), stream, start + bit)
    {
      SliceBit(stream, start, edgeBits, nonce, bit);
      FilledStep(PackedBits(data[..]), stream, start + bit);
      if Bit(nonce, bit) {
        var positionTemp := start + bit;
        if positionTemp / 8 >= data.Length {
          return false;
        }
        SetBit(data, positionTemp);
      }
      bit := bit + 1;
    }
    return true;
  }

  method SerializeCycle(nonces: seq<nat>, edgeBits: nat) returns (r: Serialized)
    ensures r == Pack(nonces, edgeBits)
  {
    var data := new nat[ByteLen(edgeBits)](_ => 0);
    ghost var stream := NonceBits(nonces, edgeBits);
    ClearBuffer(data[..]);
    var n := 0;
    ghost var start: nat := 0;
    while n < |nonces|
      invariant 0 <= n <= |nonces| && start == n * edgeBits
      invariant Below(data[..], 256) && FilledTo(PackedBits(data[..]), stream, start)
    {
      NonceSlice(nonces, edgeBits, n, start);
      Distribute(n, edgeBits);
      var ok := WriteNonce(data, nonces[n], edgeBits, n * edgeBits, stream);
      if !ok {
        return PastEnd;
      }
      n := n + 1;
      start := start + edgeBits;
    }
    ghost var fitted := Fitted(stream, 8 * data.Length);
    assert PackedBits(data[..]) == fitted;
    PackedRoundTrip(fitted, data.Length);
    PackedBitsInjective(data[..], Packed(fitted, data.Length));
    return Serialized(data[..]);
  }

  /** Reads `edgeBits` bits from position `start` on. */
  method ReadNonce(data: seq<nat>, edgeBits: nat, start: nat) returns (proofNonce: nat)
    requires start + edgeBits <= 8 * |data|
    ensures proofNonce == LowValue(PackedBits(data)[start..start + edgeBits])
  {
    proofNonce := 0;
    ghost var bits := PackedBits(data)[start..start + edgeBits];
    var bit := 0;
    forall k: nat ensures !Bit(0, k) { ZeroBit(k); }
    while bit < edgeBits
      invariant 0 <= bit <= edgeBits
      invariant forall k: nat :: Bit(proofNonce, k) == (k < bit && bits[k])
    {
      var positionTemp := start + bit;
      if Bit(data[positionTemp / 8], positionTemp % 8) {
        forall k: nat ensures Bit(BitOr(proofNonce, Pow2(bit)), k) == (Bit(proofNonce, k) || k == bit) {
          OrShiftedBit(proofNonce, true, bit, k);
        }
        proofNonce := BitOr(proofNonce, Pow2(bit));
      }
      assert bits[bit] == Bit(data[positionTemp / 8], positionTemp % 8);
      bit := bit + 1;
    }
    forall k: nat ensures Bit(proofNonce, k) == Bit(LowValue(bits), k) { LowValueBit(bits, k); }
    SameBits(proofNonce, LowValue(bits));
  }

  method DeserializeProofNonces(data: seq<nat>, edgeBits: nat) returns (r: Unpacked)
    ensures r == Unpack(data, edgeBits)
  {
    if edgeBits == 0 || edgeBits > 63 {
      return BadEdgeBits;
    }
    LengthFits(edgeBits);
    var proofNonces := [];
    var n := 0;
    if |data| < ByteLen(edgeBits) {
      return OutOfBytes;
    }
    while n < PROOFSIZE
      invariant 0 <= n <= PROOFSIZE
      invariant proofNonces == NoncesIn(PackedBits(data), edgeBits, PROOFSIZE)[..n]
    {
      SliceFits(n, PROOFSIZE, edgeBits);
      Distribute(n, edgeBits);
      var proofNonce := ReadNonce(data, edgeBits, n * edgeBits);
      proofNonces := proofNonces + [proofNonce];
      n := n + 1;
    }
    return Nonces(proofNonces);
  }
}
