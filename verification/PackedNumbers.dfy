/** Packed nonces as one number: exactly which buffers are written for them, and which nonces are read. */
module PackedNumbers {
  import opened Bits
  import opened Cycles
  import opened PowPacking

  /** The sum of every digit `n` times `2^(n * width)`. */
  ghost function Weighted(digits: seq<nat>, width: nat): nat {
    if digits == [] then 0
    else
      var n := |digits| - 1;
      Distribute(n, width);
      Weighted(digits[..n], width) + digits[n] * Pow2(n * width)
  }

  /** The low `width` bits of `n`. */
  function LowPart(n: nat, width: nat): nat {
    n % Pow2(width)
  }

  function Reduced(nonces: seq<nat>, width: nat): (r: seq<nat>)
    ensures |r| == |nonces|
  {
    seq(|nonces|, n requires 0 <= n < |nonces| => LowPart(nonces[n], width))
  }

  // ---------------------------------------------------------------- numbers and their bits

  lemma {:induction false} LowConcat(a: seq<bool>, b: seq<bool>)
    ensures LowValue(a + b) == LowValue(a) + LowValue(b) * Pow2(|a|)
    decreases |a|
  {
    if a == [] {
      assert a + b == b && Pow2(0) == 1;
    } else {
      LowConcat(a[1..], b);
      assert (a + b)[1..] == a[1..] + b;
      TwiceProduct(LowValue(b), Pow2(|a| - 1));
    }
  }

  lemma LowInjective(a: seq<bool>, b: seq<bool>)
    requires |a| == |b| && LowValue(a) == LowValue(b)
    ensures a == b
  {
    LowBitsOfValue(a);
    LowBitsOfValue(b);
  }

  lemma LowRemainder(n: nat, width: nat)
    ensures LowValue(LowBits(n, width)) == n % Pow2(width)
  {
    forall k: nat ensures Bit(LowValue(LowBits(n, width)), k) == Bit(Mask(n, width), k) {
      LowValueBit(LowBits(n, width), k);
      MaskedBit(n, width, k);
    }
    SameBits(LowValue(LowBits(n, width)), Mask(n, width));
    MaskRemainder(n, width);
  }

  lemma LowPrefix(bits: seq<bool>, k: nat)
    requires k <= |bits|
    ensures LowValue(bits[..k]) == LowValue(bits) % Pow2(k)
  {
    assert bits == bits[..k] + bits[k..];
    LowConcat(bits[..k], bits[k..]);
    LowValueBit(bits[..k], 0);
    QuotientUnique(LowValue(bits), Pow2(k), LowValue(bits[k..]), LowValue(bits[..k]));
  }

  lemma {:induction false} NonceValue(nonces: seq<nat>, width: nat)
    ensures LowValue(NonceBits(nonces, width)) == Weighted(Reduced(nonces, width), width)
  {
    if nonces == [] {
    } else {
      var n := |nonces| - 1;
      NonceValue(nonces[..n], width);
      LowConcat(NonceBits(nonces[..n], width), LowBits(nonces[n], width));
      LowRemainder(nonces[n], width);
      assert Reduced(nonces, width)[..n] == Reduced(nonces[..n], width);
    }
  }

  lemma {:induction false} BytesValue(data: seq<nat>)
    requires Below(data, 256)
    ensures LowValue(PackedBits(data)) == Weighted(data, 8)
  {
    if data == [] {
    } else {
      var n := |data| - 1;
      assert Pow2(4) == 16 && Pow2(8) == 256;
      BytesValue(data[..n]);
      assert PackedBits(data) == PackedBits(data[..n]) + LowBits(data[n], 8);
      LowConcat(PackedBits(data[..n]), LowBits(data[n], 8));
      ValueOfLowBits(data[n], 8);
    }
  }

  /** What fits is kept whole; some set bit is lost exactly when the number is too big. */
  lemma FittedValue(bits: seq<bool>, size: nat)
    ensures Overruns(bits, size) <==> LowValue(bits) >= Pow2(size)
    ensures !Overruns(bits, size) ==> LowValue(Fitted(bits, size)) == LowValue(bits)
  {
    if Overruns(bits, size) {
      var s :| size <= s < |bits| && bits[s];
      LowValueBit(bits, s);
      if LowValue(bits) < Pow2(size) { ClearAbove(LowValue(bits), size, s); }
    } else {
      forall k: nat ensures Bit(LowValue(Fitted(bits, size)), k) == Bit(LowValue(bits), k) {
        LowValueBit(bits, k);
        LowValueBit(Fitted(bits, size), k);
      }
      SameBits(LowValue(Fitted(bits, size)), LowValue(bits));
      LowValueBit(Fitted(bits, size), 0);
    }
  }

  lemma DigitsUnique(a: seq<nat>, b: seq<nat>, width: nat)
    requires |a| == |b| && Below(a, Pow2(width)) && Below(b, Pow2(width))
    requires Weighted(a, width) == Weighted(b, width)
    ensures a == b
  {
    AlreadyReduced(a, width);
    AlreadyReduced(b, width);
    NonceValue(a, width);
    NonceValue(b, width);
    LowInjective(NonceBits(a, width), NonceBits(b, width));
    forall n | 0 <= n < |a| ensures a[n] == b[n] {
      DigitOf(a, width, n);
      DigitOf(b, width, n);
    }
  }

  lemma DigitOf(a: seq<nat>, width: nat, n: nat)
    requires Below(a, Pow2(width)) && n < |a|
    ensures 0 <= n * width && n * width + width <= |NonceBits(a, width)|
    ensures a[n] == LowValue(NonceBits(a, width)[n * width..n * width + width])
  {
    Distribute(n, width);
    NonceSlice(a, width, n, n * width);
    ValueOfLowBits(a[n], width);
  }

  lemma AlreadyReduced(nonces: seq<nat>, width: nat)
    requires Below(nonces, Pow2(width))
    ensures Reduced(nonces, width) == nonces
  {
    forall n | 0 <= n < |nonces| ensures LowPart(nonces[n], width) == nonces[n] {
      QuotientUnique(nonces[n], Pow2(width), 0, nonces[n]);
    }
  }

  // ---------------------------------------------------------------- exactly what is written and read

  /**
    Packing returns the bytes whose base-256 number, least significant first, is the sum of every nonce's low
    `edgeBits` bits times `2^(n * edgeBits)`, as many bytes as 42 nonces need; it raises exactly when that
    number does not fit them, which takes more than 42 nonces.
  */
  lemma PackExact(nonces: seq<nat>, edgeBits: nat, data: seq<nat>)
    ensures Pack(nonces, edgeBits) == Serialized(data) <==>
            && |data| == (edgeBits * 42 + 7) / 8 && Below(data, 256)
            && Weighted(data, 8) == Weighted(Reduced(nonces, edgeBits), edgeBits)
    ensures Pack(nonces, edgeBits) == PastEnd <==>
            Weighted(Reduced(nonces, edgeBits), edgeBits) >= Pow2(8 * ((edgeBits * 42 + 7) / 8))
  {
    var bits, n := NonceBits(nonces, edgeBits), ByteLen(edgeBits);
    NonceValue(nonces, edgeBits);
    FittedValue(bits, 8 * n);
    if !Overruns(bits, 8 * n) { PackedIs(Fitted(bits, 8 * n), n, data); }
    if |data| == n && Below(data, 256) {
      BytesValue(data);
      LowValueBit(PackedBits(data), 0);
    }
  }

  lemma PackedIs(bits: seq<bool>, n: nat, data: seq<nat>)
    requires |bits| == 8 * n
    ensures Packed(bits, n) == data <==> |data| == n && Below(data, 256) && Weighted(data, 8) == LowValue(bits)
  {
    PackedRoundTrip(bits, n);
    BytesValue(Packed(bits, n));
    if |data| == n && Below(data, 256) && Weighted(data, 8) == LowValue(bits) {
      BytesValue(data);
      LowInjective(PackedBits(data), bits);
      PackedBitsInjective(data, Packed(bits, n));
    }
  }

  lemma SlicesAreDigits(bits: seq<bool>, width: nat, m: nat)
    requires m * width <= |bits|
    ensures Below(NoncesIn(bits, width, m), Pow2(width))
    ensures Weighted(NoncesIn(bits, width, m), width) == LowValue(bits) % Pow2(m * width)
  {
    var nonces := NoncesIn(bits, width, m);
    forall n | 0 <= n < m ensures nonces[n] < Pow2(width) {
      Distribute(n, width);
      NonceIn(bits, width, m, n, n * width);
      LowValueBit(bits[n * width..n * width + width], 0);
    }
    Distribute(m, width);
    NonceBitsOfSlices(bits, width, m, m, m * width);
    assert nonces[..m] == nonces;
    LowPrefix(bits, m * width);
    AlreadyReduced(nonces, width);
    NonceValue(nonces, width);
  }

  /**
    Unpacking returns 42 numbers below `2^edgeBits`, the base `2^edgeBits` digits of the buffer's number cut to
    its low `42 * edgeBits` bits. It refuses exactly no edge bits or more than 63, then a buffer too short.
  */
  lemma UnpackExact(data: seq<nat>, edgeBits: nat, nonces: seq<nat>)
    requires Below(data, 256)
    ensures Unpack(data, edgeBits) == Nonces(nonces) <==>
            && 1 <= edgeBits <= 63 && (edgeBits * 42 + 7) / 8 <= |data|
            && |nonces| == 42 && Below(nonces, Pow2(edgeBits))
            && Weighted(nonces, edgeBits) == Weighted(data, 8) % Pow2(42 * edgeBits)
    ensures Unpack(data, edgeBits) == BadEdgeBits <==> edgeBits == 0 || edgeBits >= 64
    ensures Unpack(data, edgeBits) == OutOfBytes <==> 1 <= edgeBits <= 63 && |data| < (edgeBits * 42 + 7) / 8
  {
    if 1 <= edgeBits <= 63 && (edgeBits * 42 + 7) / 8 <= |data| {
      LengthFits(edgeBits);
      var own := NoncesIn(PackedBits(data), edgeBits, PROOFSIZE);
      BytesValue(data);
      SlicesAreDigits(PackedBits(data), edgeBits, PROOFSIZE);
      if |nonces| == 42 && Below(nonces, Pow2(edgeBits)) && Weighted(nonces, edgeBits) == Weighted(own, edgeBits) {
        DigitsUnique(nonces, own, edgeBits);
      }
    }
  }
}
