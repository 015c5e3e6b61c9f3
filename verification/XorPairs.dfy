/** XOR accumulators over values that come in pairs. */
module XorPairs {
  import opened Bits

  function XorAll(vals: seq<nat>): nat {
    if vals == [] then 0 else BitXor(XorAll(vals[..|vals| - 1]), vals[|vals| - 1])
  }

  function Without(vals: seq<nat>, j: nat): seq<nat>
    requires j < |vals|
  {
    vals[..j] + vals[j + 1..]
  }

  lemma XorSwap(a: nat, b: nat, c: nat)
    ensures BitXor(BitXor(a, b), c) == BitXor(BitXor(a, c), b)
  {
    XorAssociates(a, b, c);
    XorAssociates(a, c, b);
    XorCommutes(b, c);
  }

  lemma {:induction false} XorWithout(vals: seq<nat>, j: nat)
    requires j < |vals|
    ensures XorAll(vals) == BitXor(XorAll(Without(vals, j)), vals[j])
  {
    var last := |vals| - 1;
    if j == last {
      assert Without(vals, j) == vals[..last];
    } else {
      XorWithout(vals[..last], j);
      assert Without(vals, j)[..last - 1] == Without(vals[..last], j);
      assert Without(vals, j)[last - 1] == vals[last];
      XorSwap(XorAll(Without(vals[..last], j)), vals[j], vals[last]);
    }
  }

  /** `j` holds `vals[i] ^ d`, and nothing but the two holds either value. */
  ghost predicate PairedWith(vals: seq<nat>, d: nat, i: nat, j: nat) {
    && i < |vals| && j < |vals| && i != j && BitXor(vals[i], vals[j]) == d
    && forall k :: 0 <= k < |vals| && k != i && k != j ==> vals[k] != vals[i] && vals[k] != vals[j]
  }

  ghost predicate HasPartner(vals: seq<nat>, d: nat, i: nat) {
    exists j: nat :: PairedWith(vals, d, i, j)
  }

  ghost predicate AllPaired(vals: seq<nat>, d: nat) {
    forall i: nat :: i < |vals| ==> HasPartner(vals, d, i)
  }

  /** The values without the last one and its partner `j`. */
  function Rest(vals: seq<nat>, j: nat): (r: seq<nat>)
    requires j < |vals| - 1
    ensures |r| == |vals| - 2
    ensures forall k :: 0 <= k < |r| ==> r[k] == vals[if k < j then k else k + 1]
  {
    Without(vals[..|vals| - 1], j)
  }

  /** Nobody but the removed pair was paired with one of the removed pair. */
  lemma PartnerOutside(vals: seq<nat>, d: nat, i: nat, p: nat, j: nat)
    requires PairedWith(vals, d, i, p) && PairedWith(vals, d, |vals| - 1, j)
    requires i != j && i != |vals| - 1
    ensures p != j && p != |vals| - 1
  {
    var last := |vals| - 1;
    if p == j {
      XorInjective(vals[i], vals[last], vals[j]);
    } else if p == last {
      XorCommutes(vals[last], vals[j]);
      XorInjective(vals[i], vals[j], vals[last]);
    }
  }

  lemma PartnerInRest(vals: seq<nat>, d: nat, j: nat, k: nat)
    requires AllPaired(vals, d) && j < |vals| - 1 && PairedWith(vals, d, |vals| - 1, j) && k < |vals| - 2
    ensures HasPartner(Rest(vals, j), d, k)
  {
    var i := if k < j then k else k + 1;
    assert HasPartner(vals, d, i);
    var p: nat :| PairedWith(vals, d, i, p);
    PartnerOutside(vals, d, i, p, j);
    var m := if p < j then p else p - 1;
    assert PairedWith(Rest(vals, j), d, k, m);
  }

  lemma XorCancel(r: nat, x: nat, y: nat, d: nat)
    requires BitXor(x, y) == d
    ensures BitXor(BitXor(r, y), x) == BitXor(r, d)
    ensures BitXor(d, d) == 0 && BitXor(0, d) == d
  {
    XorAssociates(r, y, x);
    XorCommutes(x, y);
    XorSelf(d);
    XorCommutes(0, d);
  }

  lemma RestPaired(vals: seq<nat>, d: nat, j: nat)
    requires AllPaired(vals, d) && j < |vals| - 1 && PairedWith(vals, d, |vals| - 1, j)
    ensures AllPaired(Rest(vals, j), d)
  {
    forall k: nat | k < |vals| - 2 ensures HasPartner(Rest(vals, j), d, k) {
      PartnerInRest(vals, d, j, k);
    }
  }

  lemma PairOff(vals: seq<nat>, d: nat, j: nat)
    requires vals != [] && j < |vals| - 1 && PairedWith(vals, d, |vals| - 1, j)
    ensures XorAll(vals) == BitXor(XorAll(Rest(vals, j)), d)
  {
    var last := |vals| - 1;
    XorWithout(vals[..last], j);
    XorCancel(XorAll(Rest(vals, j)), vals[last], vals[j], d);
  }

  /** Values paired at distance `d` come in an even number and XOR to `d` once per pair. */
  lemma {:induction false} PairsXor(vals: seq<nat>, d: nat)
    requires AllPaired(vals, d)
    ensures |vals| % 2 == 0
    ensures XorAll(vals) == if |vals| / 2 % 2 == 0 then 0 else d
    decreases |vals|
  {
    if vals == [] {
    } else {
      assert HasPartner(vals, d, |vals| - 1);
      var j: nat :| PairedWith(vals, d, |vals| - 1, j);
      var rest := Rest(vals, j);
      RestPaired(vals, d, j);
      PairsXor(rest, d);
      PairOff(vals, d, j);
      assert |rest| == |vals| - 2;
      XorSelf(d);
      XorCommutes(0, d);
      assert BitXor(d, d) == 0 && BitXor(0, d) == d;
    }
  }

  // ---------------------------------------------------------------- bit by bit

  /** How many of the values have bit `k`. */
  function CountBits(vals: seq<nat>, k: nat): nat {
    if vals == [] then 0 else CountBits(vals[..|vals| - 1], k) + (if Bit(vals[|vals| - 1], k) then 1 else 0)
  }

  /** A bit of the XOR is set if an odd number of the values have it. */
  lemma {:induction false} XorParity(vals: seq<nat>, k: nat)
    ensures Bit(XorAll(vals), k) <==> CountBits(vals, k) % 2 == 1
  {
    if vals == [] {
      ZeroBit(k);
    } else {
      XorParity(vals[..|vals| - 1], k);
      XorBit(XorAll(vals[..|vals| - 1]), vals[|vals| - 1], k);
    }
  }

  /** The XOR is a given number if and only if each bit is had by an odd number of values where the number has it, an even one elsewhere. */
  lemma XorIs(vals: seq<nat>, x: nat)
    ensures XorAll(vals) == x <==> forall k: nat :: OddWhere(vals, x, k)
  {
    if XorAll(vals) == x {
      forall k: nat ensures OddWhere(vals, x, k) {
        XorParity(vals, k);
      }
    }
    if forall k: nat :: OddWhere(vals, x, k) {
      forall k: nat ensures Bit(XorAll(vals), k) == Bit(x, k) {
        XorParity(vals, k);
        assert OddWhere(vals, x, k);
      }
      SameBits(XorAll(vals), x);
    }
  }

  predicate OddWhere(vals: seq<nat>, x: nat, k: nat) {
    CountBits(vals, k) % 2 == 1 <==> Bit(x, k)
  }

  /** An even number of the values have bit `k`. */
  predicate EvenAt(vals: seq<nat>, k: nat) {
    CountBits(vals, k) % 2 == 0
  }

  /** The XOR vanishes if and only if every bit is had by an even number of values. */
  lemma XorVanishes(vals: seq<nat>)
    ensures XorAll(vals) == 0 <==> forall k: nat :: EvenAt(vals, k)
  {
    XorIs(vals, 0);
    if forall k: nat :: OddWhere(vals, 0, k) {
      forall k: nat ensures EvenAt(vals, k) { assert OddWhere(vals, 0, k); ZeroBit(k); }
    }
    if forall k: nat :: EvenAt(vals, k) {
      forall k: nat ensures OddWhere(vals, 0, k) { assert EvenAt(vals, k); ZeroBit(k); }
    }
  }

  /** An odd number of the values have the lowest bit, an even number any other. */
  predicate OddLowest(vals: seq<nat>, k: nat) {
    CountBits(vals, k) % 2 == if k == 0 then 1 else 0
  }

  lemma XorIsOne(vals: seq<nat>)
    ensures XorAll(vals) == 1 <==> forall k: nat :: OddLowest(vals, k)
  {
    XorIs(vals, 1);
    assert Pow2(0) == 1;
    if forall k: nat :: OddWhere(vals, 1, k) {
      forall k: nat ensures OddLowest(vals, k) { assert OddWhere(vals, 1, k); PowerBit(0, k); }
    }
    if forall k: nat :: OddLowest(vals, k) {
      forall k: nat ensures OddWhere(vals, 1, k) { assert OddLowest(vals, k); PowerBit(0, k); }
    }
  }
}
