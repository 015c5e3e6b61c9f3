/** Powers of two, bit lengths, bit counts and bitwise OR of natural numbers. */
module Bits {

  /** `1 << k`. */
  function Pow2(k: nat): (r: nat)
    ensures r > 0
  {
    if k == 0 then 1 else 2 * Pow2(k - 1)
  }

  lemma {:induction false} Pow2Grows(a: nat, b: nat)
    requires a <= b
    ensures Pow2(a) <= Pow2(b)
    decreases b
  {
    if a == b {
    } else {
      Pow2Grows(a, b - 1);
    }
  }

  lemma {:induction false} Pow2Exceeds(k: nat)
    ensures k < Pow2(k)
  {
    if k == 0 {
    } else {
      Pow2Exceeds(k - 1);
    }
  }

  lemma {:induction false} Pow2Add(a: nat, b: nat)
    ensures Pow2(a + b) == Pow2(a) * Pow2(b)
  {
    if a == 0 {
    } else {
      Pow2Add(a - 1, b);
    }
  }

  /** A word of `w` ones shifted right until `b` ones are left. */
  lemma OnesShifted(w: nat, b: nat)
    requires b <= w
    ensures (Pow2(w) - 1) / Pow2(w - b) == Pow2(b) - 1
  {
    Pow2Add(b, w - b);
    ProductLessOne(Pow2(b), Pow2(w - b));
  }

  lemma ProductLessOne(x: int, y: int)
    requires y > 0
    ensures (x * y - 1) / y == x - 1
  {
    assert x * y - 1 == (x - 1) * y + (y - 1);
    QuotientUnique(x * y - 1, y, x - 1, y - 1);
  }

  lemma MulGrows(y: int, d: int)
    requires y > 0
    ensures d >= 1 ==> y * d >= y
    ensures d <= -1 ==> y * d <= -y
  {
  }

  lemma QuotientUnique(a: int, y: int, q: int, r: int)
    requires y > 0 && 0 <= r < y && a == q * y + r
    ensures a / y == q && a % y == r
  {
    var d := a / y - q;
    assert y * d == y * (a / y) - q * y;
    MulGrows(y, d);
  }

  /** `n.bit_length()`. */
  function BitLength(n: nat): nat {
    if n == 0 then 0 else 1 + BitLength(n / 2)
  }

  lemma {:induction false} BitLengthBounds(n: nat)
    ensures n < Pow2(BitLength(n))
    ensures n > 0 ==> BitLength(n) > 0 && Pow2(BitLength(n) - 1) <= n
  {
    if n == 0 {
    } else {
      BitLengthBounds(n / 2);
    }
  }

  lemma BitLengthUnique(n: nat, k: nat)
    requires Pow2(k) <= n < Pow2(k + 1)
    ensures BitLength(n) == k + 1
  {
    BitLengthBounds(n);
    if BitLength(n) < k + 1 {
      Pow2Grows(BitLength(n), k);
    } else if BitLength(n) > k + 1 {
      Pow2Grows(k + 1, BitLength(n) - 1);
    }
  }

  /** `bin(n).count("1")`. */
  function Popcount(n: nat): nat {
    if n == 0 then 0 else n % 2 + Popcount(n / 2)
  }

  lemma {:induction false} PopcountTopBit(k: nat, m: nat)
    requires m < Pow2(k)
    ensures Popcount(Pow2(k) + m) == 1 + Popcount(m)
  {
    if k == 0 {
    } else {
      PopcountTopBit(k - 1, m / 2);
      assert (Pow2(k) + m) / 2 == Pow2(k - 1) + m / 2;
      assert (Pow2(k) + m) % 2 == m % 2;
    }
  }

  lemma {:induction false} PopcountBound(n: nat)
    ensures Popcount(n) <= n
  {
    if n == 0 {
    } else {
      PopcountBound(n / 2);
    }
  }

  /** Bit `k` of `n`. */
  predicate Bit(n: nat, k: nat) {
    if k == 0 then n % 2 == 1 else Bit(n / 2, k - 1)
  }

  /** Numbers with the same bits are equal. */
  lemma {:induction false} SameBits(a: nat, b: nat)
    requires forall k :: Bit(a, k) == Bit(b, k)
    ensures a == b
  {
    assert Bit(a, 0) == Bit(b, 0);
    if a == 0 && b == 0 {
    } else {
      forall k: nat ensures Bit(a / 2, k) == Bit(b / 2, k) {
        assert Bit(a, k + 1) == Bit(b, k + 1);
      }
      SameBits(a / 2, b / 2);
    }
  }

  /** `a ^ b`. */
  function BitXor(a: nat, b: nat): nat {
    if a == 0 && b == 0 then 0 else (if a % 2 == b % 2 then 0 else 1) + 2 * BitXor(a / 2, b / 2)
  }

  lemma Halve(n: nat, r: nat, x: nat)
    requires n == r + 2 * x && r < 2
    ensures n / 2 == x && n % 2 == r
  {
  }

  lemma XorHalves(a: nat, b: nat)
    ensures BitXor(a, b) / 2 == BitXor(a / 2, b / 2)
    ensures BitXor(a, b) % 2 == if a % 2 == b % 2 then 0 else 1
  {
    if a != 0 || b != 0 {
      Halve(BitXor(a, b), if a % 2 == b % 2 then 0 else 1, BitXor(a / 2, b / 2));
    }
  }

  lemma BitStep(n: nat, k: nat)
    ensures Bit(n, 0) == (n % 2 == 1) && Bit(n, k + 1) == Bit(n / 2, k)
  {
  }

  lemma {:induction false} XorBit(a: nat, b: nat, k: nat)
    ensures Bit(BitXor(a, b), k) == (Bit(a, k) != Bit(b, k))
  {
    XorHalves(a, b);
    if k == 0 {
      BitStep(BitXor(a, b), 0);
    } else {
      XorBit(a / 2, b / 2, k - 1);
      BitStep(BitXor(a, b), k - 1);
    }
  }

  lemma XorCommutes(a: nat, b: nat)
    ensures BitXor(a, b) == BitXor(b, a)
  {
    forall k: nat ensures Bit(BitXor(a, b), k) == Bit(BitXor(b, a), k) {
      XorBit(a, b, k);
      XorBit(b, a, k);
    }
    SameBits(BitXor(a, b), BitXor(b, a));
  }

  lemma XorAssociates(a: nat, b: nat, c: nat)
    ensures BitXor(BitXor(a, b), c) == BitXor(a, BitXor(b, c))
  {
    var l, r := BitXor(BitXor(a, b), c), BitXor(a, BitXor(b, c));
    forall k: nat ensures Bit(l, k) == Bit(r, k) {
      XorBit(a, b, k);
      XorBit(b, c, k);
      XorBit(BitXor(a, b), c, k);
      XorBit(a, BitXor(b, c), k);
    }
    SameBits(l, r);
  }

  lemma {:induction false} XorSelf(a: nat)
    ensures BitXor(a, a) == 0
    ensures BitXor(a, 0) == a
  {
    if a == 0 {
    } else {
      XorSelf(a / 2);
    }
  }

  /** Values that differ in the lowest bit only. */
  lemma XorLowBit(a: nat, b: nat)
    requires a / 2 == b / 2 && a != b
    ensures BitXor(a, b) == 1
  {
    XorSelf(a / 2);
  }

  lemma XorInjective(a: nat, b: nat, c: nat)
    requires BitXor(a, c) == BitXor(b, c)
    ensures a == b
  {
    XorAssociates(a, c, c);
    XorAssociates(b, c, c);
    XorSelf(c);
    XorSelf(a);
    XorSelf(b);
  }

  /** `a | b`. */
  function BitOr(a: nat, b: nat): nat {
    if a == 0 && b == 0 then 0 else (if a % 2 == 0 && b % 2 == 0 then 0 else 1) + 2 * BitOr(a / 2, b / 2)
  }

  lemma OrHalves(a: nat, b: nat)
    ensures BitOr(a, b) / 2 == BitOr(a / 2, b / 2)
    ensures BitOr(a, b) % 2 == if a % 2 == 0 && b % 2 == 0 then 0 else 1
  {
    if a != 0 || b != 0 {
      Halve(BitOr(a, b), if a % 2 == 0 && b % 2 == 0 then 0 else 1, BitOr(a / 2, b / 2));
    }
  }

  lemma {:induction false} OrBit(a: nat, b: nat, k: nat)
    ensures Bit(BitOr(a, b), k) == (Bit(a, k) || Bit(b, k))
  {
    OrHalves(a, b);
    if k == 0 {
      BitStep(BitOr(a, b), 0);
    } else {
      OrBit(a / 2, b / 2, k - 1);
      BitStep(BitOr(a, b), k - 1);
    }
  }

  lemma {:induction false} ZeroBit(k: nat)
    ensures !Bit(0, k)
  {
    if k == 0 {
    } else {
      ZeroBit(k - 1);
    }
  }

  lemma {:induction false} PowerBit(n: nat, k: nat)
    ensures Bit(Pow2(n), k) == (k == n)
  {
    if k == 0 {
    } else if n == 0 {
      ZeroBit(k - 1);
    } else {
      PowerBit(n - 1, k - 1);
    }
  }

  /** `a | (bit << n)`. */
  function OrShifted(a: nat, bit: bool, n: nat): nat {
    BitOr(a, if bit then Pow2(n) else 0)
  }

  lemma OrShiftedBit(a: nat, bit: bool, n: nat, k: nat)
    ensures Bit(OrShifted(a, bit, n), k) == (Bit(a, k) || (bit && k == n))
  {
    OrBit(a, if bit then Pow2(n) else 0, k);
    if bit { PowerBit(n, k); } else { ZeroBit(k); }
  }

  /** A number below `2^m` has no bit from `m` on. */
  lemma {:induction false} ClearAbove(n: nat, m: nat, k: nat)
    requires n < Pow2(m) && m <= k
    ensures !Bit(n, k)
    decreases m
  {
    if m == 0 {
      ZeroBit(k);
    } else {
      ClearAbove(n / 2, m - 1, k - 1);
      BitStep(n, k - 1);
    }
  }

  /** A number without a bit from `m` on is below `2^m`. */
  lemma {:induction false} ClearMeansBelow(n: nat, m: nat)
    requires forall k :: m <= k ==> !Bit(n, k)
    ensures n < Pow2(m)
    decreases m
  {
    if m == 0 {
      if n > 0 { SomeBit(n); }
    } else {
      forall k | m - 1 <= k ensures !Bit(n / 2, k) {
        BitStep(n, k);
        assert !Bit(n, k + 1);
      }
      ClearMeansBelow(n / 2, m - 1);
    }
  }

  lemma {:induction false} SomeBit(n: nat)
    requires n > 0
    ensures exists k :: 0 <= k && Bit(n, k)
  {
    if n % 2 == 1 {
      assert Bit(n, 0);
    } else {
      SomeBit(n / 2);
      var k :| 0 <= k && Bit(n / 2, k);
      assert Bit(n, k + 1);
    }
  }

  /** `n >> m`. */
  function ShiftRight(n: nat, m: nat): nat {
    if m == 0 then n else ShiftRight(n / 2, m - 1)
  }

  lemma {:induction false} ShiftedBit(n: nat, m: nat, k: nat)
    ensures Bit(ShiftRight(n, m), k) == Bit(n, m + k)
    decreases m
  {
    if m == 0 {
    } else {
      ShiftedBit(n / 2, m - 1, k);
      BitStep(n, m - 1 + k);
    }
  }

  /** `n & ((1 << m) - 1)`. */
  function Mask(n: nat, m: nat): nat {
    if m == 0 then 0 else n % 2 + 2 * Mask(n / 2, m - 1)
  }

  lemma {:induction false} MaskedBit(n: nat, m: nat, k: nat)
    ensures Bit(Mask(n, m), k) == (k < m && Bit(n, k))
    decreases m
  {
    if m == 0 {
      ZeroBit(k);
    } else {
      Halve(Mask(n, m), n % 2, Mask(n / 2, m - 1));
      if k == 0 {
        BitStep(Mask(n, m), 0);
      } else {
        MaskedBit(n / 2, m - 1, k - 1);
        BitStep(Mask(n, m), k - 1);
      }
    }
  }

  lemma {:induction false} MaskBound(n: nat, m: nat)
    ensures Mask(n, m) < Pow2(m)
  {
    if m == 0 {
    } else {
      MaskBound(n / 2, m - 1);
    }
  }

  // ---------------------------------------------------------------- bit strings

  /** The number written by `bits`, most significant bit first. */
  function ValueOf(bits: seq<bool>): nat {
    if bits == [] then 0
    else 2 * ValueOf(bits[..|bits| - 1]) + (if bits[|bits| - 1] then 1 else 0)
  }

  lemma {:induction false} ValueBit(bits: seq<bool>, k: nat)
    ensures Bit(ValueOf(bits), k) == (k < |bits| && bits[|bits| - 1 - k])
  {
    if bits == [] {
      ZeroBit(k);
    } else {
      var front := bits[..|bits| - 1];
      Halve(ValueOf(bits), if bits[|bits| - 1] then 1 else 0, ValueOf(front));
      if k > 0 {
        BitStep(ValueOf(bits), k - 1);
        ValueBit(front, k - 1);
      }
    }
  }

  lemma {:induction false} ValueBound(bits: seq<bool>)
    ensures ValueOf(bits) < Pow2(|bits|)
  {
    if bits == [] {
    } else {
      ValueBound(bits[..|bits| - 1]);
    }
  }

  /** A number below `2^|bits|` with these bits is their value. */
  lemma ValueUnique(n: nat, bits: seq<bool>)
    requires n < Pow2(|bits|) && forall k :: 0 <= k < |bits| ==> Bit(n, k) == bits[|bits| - 1 - k]
    ensures n == ValueOf(bits)
  {
    forall k: nat ensures Bit(n, k) == Bit(ValueOf(bits), k) {
      ValueBit(bits, k);
      if k >= |bits| { ClearAbove(n, |bits|, k); }
    }
    SameBits(n, ValueOf(bits));
  }

  lemma {:induction false} ValueConcat(a: seq<bool>, b: seq<bool>)
    ensures ValueOf(a + b) == ValueOf(a) * Pow2(|b|) + ValueOf(b)
    decreases |b|
  {
    if b == [] {
      assert a + b == a;
    } else {
      var b' := b[..|b| - 1];
      assert (a + b)[..|a + b| - 1] == a + b';
      ValueConcat(a, b');
      assert Pow2(|b|) == 2 * Pow2(|b'|);
      TwiceProduct(ValueOf(a), Pow2(|b'|));
    }
  }

  lemma TwiceProduct(x: int, y: int)
    ensures x * (2 * y) == 2 * (x * y)
  {
  }

  // ---------------------------------------------------------------- bits as quotients and remainders

  lemma HalfQuotient(n: nat, d: nat)
    requires d > 0
    ensures n / 2 / d == n / (2 * d)
    ensures n % (2 * d) == n % 2 + 2 * (n / 2 % d)
  {
    var q, r := n / 2 / d, n / 2 % d;
    assert n == 2 * (n / 2) + n % 2;
    assert n / 2 == q * d + r;
    TwiceProduct(q, d);
    assert n == q * (2 * d) + (2 * r + n % 2);
    QuotientUnique(n, 2 * d, q, 2 * r + n % 2);
  }

  /** Shifting right by `m` divides by `2^m`. */
  lemma {:induction false} ShiftRightDivides(n: nat, m: nat)
    ensures ShiftRight(n, m) == n / Pow2(m)
    decreases m
  {
    if m == 0 {
      assert Pow2(0) == 1;
    } else {
      ShiftRightDivides(n / 2, m - 1);
      HalfQuotient(n, Pow2(m - 1));
    }
  }

  /** Masking `m` bits takes the remainder by `2^m`. */
  lemma {:induction false} MaskRemainder(n: nat, m: nat)
    ensures Mask(n, m) == n % Pow2(m)
    decreases m
  {
    if m == 0 {
      assert Pow2(0) == 1;
    } else {
      MaskRemainder(n / 2, m - 1);
      HalfQuotient(n, Pow2(m - 1));
    }
  }

  /** Bit `k` is the parity of the quotient by `2^k`. */
  lemma {:induction false} BitQuotient(n: nat, k: nat)
    ensures Bit(n, k) <==> n / Pow2(k) % 2 == 1
    decreases k
  {
    if k == 0 {
      assert Pow2(0) == 1;
      BitStep(n, 0);
    } else {
      BitStep(n, k - 1);
      BitQuotient(n / 2, k - 1);
      HalfQuotient(n, Pow2(k - 1));
    }
  }

  /** ORing in bit `k` adds `2^k` unless the bit is set. */
  lemma {:induction false} OrAdds(a: nat, k: nat)
    ensures BitOr(a, Pow2(k)) == if Bit(a, k) then a else a + Pow2(k)
    decreases k
  {
    if k == 0 {
      OrZero(a / 2);
      assert Pow2(0) == 1;
    } else {
      OrAdds(a / 2, k - 1);
      assert Pow2(k) == 2 * Pow2(k - 1);
      OrHalves(a, Pow2(k));
      BitStep(a, k - 1);
    }
  }

  lemma {:induction false} OrZero(a: nat)
    ensures BitOr(a, 0) == a
  {
    if a > 0 { OrZero(a / 2); }
  }

  // ---------------------------------------------------------------- filling buffers bit by bit

  predicate Below(s: seq<nat>, bound: nat) {
    forall i :: 0 <= i < |s| ==> s[i] < bound
  }

  /** The buffer holds the first `loc` bits of the stream, and none of them was set behind its end. */
  ghost predicate FilledTo(bits: seq<bool>, stream: seq<bool>, loc: nat) {
    && loc <= |stream| && (forall s :: 0 <= s < |bits| ==> bits[s] == (s < loc && stream[s]))
    && forall s :: |bits| <= s < loc ==> !stream[s]
  }
}
