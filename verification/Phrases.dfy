/** What a BIP-39 phrase says as a number: exactly which phrases are written and which are accepted. */
module Phrases {
  import opened Bits
  import opened Hashing
  import opened Mnemonics

  lemma ChecksumQuotient(sha: Sha, entropy: Bytes, width: nat)
    requires width <= 8
    ensures Checksum(sha, entropy, width) == sha(entropy) / Pow2(8 - width)
  {
    var top := ShiftRight(sha(entropy), 8 - width);
    ShiftRightDivides(sha(entropy), 8 - width);
    Pow2Constants();
    Pow2Add(width, 8 - width);
    QuotientBelow(sha(entropy), Pow2(width), Pow2(8 - width));
    MaskRemainder(top, width);
    assert top % Pow2(width) == top by { QuotientUnique(top, Pow2(width), 0, top); }
  }

  lemma QuotientBelow(n: nat, a: nat, b: nat)
    requires b > 0 && n < a * b
    ensures n / b < a
  {
    assert n == n / b * b + n % b;
    ProductGrows(a, n / b, b);
  }

  lemma ProductGrows(a: nat, q: nat, b: nat)
    ensures a <= q ==> a * b <= q * b
  {
  }

  lemma LeadingBits(n: nat, width: nat)
    requires width <= 8
    ensures NumberBits(Mask(ShiftRight(n, 8 - width), width), width) == NumberBits(n, 8)[..width]
  {
    var sum := Mask(ShiftRight(n, 8 - width), width);
    forall i | 0 <= i < width ensures NumberBits(sum, width)[i] == NumberBits(n, 8)[i] {
      MaskedBit(ShiftRight(n, 8 - width), width, width - 1 - i);
      ShiftedBit(n, 8 - width, width - 1 - i);
    }
  }

  /** The bits of the words end in the leading bits of the digest, one for every four bytes of entropy. */
  lemma EndsInDigest(sha: Sha, entropy: Bytes)
    requires |entropy| % 4 == 0 && |entropy| <= 32
    ensures var width := |entropy| / 4;
            && |WordBits(EntropyIndices(sha, entropy))| == 8 * |entropy| + width
            && WordBits(EntropyIndices(sha, entropy))[..8 * |entropy|] == ByteBits(entropy)
            && WordBits(EntropyIndices(sha, entropy))[8 * |entropy|..] == NumberBits(sha(entropy), 8)[..width]
  {
    var width := |entropy| / 4;
    StreamParts(sha, entropy);
    WordGroups(Stream(sha, entropy), 3 * width);
    LeadingBits(sha(entropy), width);
  }

  /** In base 2048 the numbers read as the entropy, then the leading bits of its digest. */
  ghost predicate Carries(sha: Sha, entropy: Bytes, indices: seq<nat>) {
    && |entropy| % 4 == 0 && |entropy| <= 32
    && |indices| == |entropy| / 4 * 3 && Below(indices, WORDS)
    && BigEndian(indices, 11) ==
       BigEndian(entropy, 8) * Pow2(|entropy| / 4) + sha(entropy) / Pow2(8 - |entropy| / 4)
  }

  ghost predicate Names(list: seq<string>, indices: seq<nat>, phrase: seq<string>) {
    && |phrase| == |indices|
    && forall i :: 0 <= i < |phrase| ==> indices[i] < |list| && phrase[i] == list[indices[i]]
  }

  /** The phrase names numbers that carry the entropy. */
  ghost predicate Spells(sha: Sha, list: seq<string>, phrase: seq<string>, entropy: Bytes) {
    exists indices :: Carries(sha, entropy, indices) && Names(list, indices, phrase)
  }

  lemma IndicesDo(sha: Sha, entropy: Bytes)
    requires |entropy| % 4 == 0 && |entropy| <= 32
    ensures Carries(sha, entropy, EntropyIndices(sha, entropy))
  {
    SameInteger(sha, entropy);
    ChecksumQuotient(sha, entropy, |entropy| / 4);
    WordGroups(Stream(sha, entropy), |entropy| / 4 * 3);
  }

  /** A number has one way to be written with a given count of words. */
  lemma {:induction false} BigEndianInjective(a: seq<nat>, b: seq<nat>)
    requires |a| == |b| && Below(a, WORDS) && Below(b, WORDS) && BigEndian(a, 11) == BigEndian(b, 11)
    ensures a == b
  {
    if a == [] {
    } else {
      var m := |a| - 1;
      Pow2Constants();
      QuotientUnique(BigEndian(a, 11), WORDS, BigEndian(a[..m], 11), a[m]);
      QuotientUnique(BigEndian(b, 11), WORDS, BigEndian(b[..m], 11), b[m]);
      BigEndianInjective(a[..m], b[..m]);
      assert a == a[..m] + [a[m]] && b == b[..m] + [b[m]];
    }
  }

  /**
    mnemonicFromEntropy returns a phrase exactly for entropy whose length is a multiple of four up to 32 bytes:
    the words whose numbers, in base 2048, are the entropy times `2^w` plus the leading `w` bits of its digest,
    where `w` is a quarter of the length.
  */
  lemma EncodeExact(sha: Sha, list: seq<string>, entropy: Bytes, phrase: seq<string>)
    requires |list| == WORDS
    ensures Encode(sha, list, entropy) == Ok(phrase) <==> Spells(sha, list, phrase, entropy)
    ensures Encode(sha, list, entropy).Ok? <==> |entropy| % 4 == 0 && |entropy| <= 32
  {
    if |entropy| % 4 == 0 && |entropy| <= 32 {
      var own := EntropyIndices(sha, entropy);
      IndicesDo(sha, entropy);
      if Encode(sha, list, entropy) == Ok(phrase) {
        assert Names(list, own, phrase);
      }
      if Spells(sha, list, phrase, entropy) {
        var indices :| Carries(sha, entropy, indices) && Names(list, indices, phrase);
        BigEndianInjective(indices, own);
        assert Pick(list, own) == phrase;
      }
    }
  }

  /**
    entropyFromMnemonic answers an entropy exactly when the phrase spells it: the numbers of its words carry the
    entropy's 16 to 32 bytes and then the leading bits of its digest. Every other phrase raises ValueError.
  */
  lemma DecodeExact(sha: Sha, list: seq<string>, phrase: seq<string>, entropy: Bytes)
    requires |list| == WORDS && NoDuplicates(list)
    ensures Decode(sha, list, phrase) == Ok(entropy) <==> 16 <= |entropy| && Spells(sha, list, phrase, entropy)
  {
    EncodeExact(sha, list, entropy, phrase);
    if Decode(sha, list, phrase) == Ok(entropy) {
      EncodeDecode(sha, list, phrase);
    }
    if 16 <= |entropy| && Spells(sha, list, phrase, entropy) {
      DecodeEncode(sha, list, entropy);
    }
  }

  /** Decoding refuses a phrase exactly when no entropy of 16 to 32 bytes is spelled by it. */
  lemma RefusedExact(sha: Sha, list: seq<string>, phrase: seq<string>)
    requires |list| == WORDS && NoDuplicates(list)
    ensures Decode(sha, list, phrase) == ValueError <==>
            forall entropy: Bytes :: 16 <= |entropy| ==> !Spells(sha, list, phrase, entropy)
  {
    if Decode(sha, list, phrase) == ValueError {
      forall entropy: Bytes | 16 <= |entropy| ensures !Spells(sha, list, phrase, entropy) {
        DecodeExact(sha, list, phrase, entropy);
      }
    } else {
      DecodeExact(sha, list, phrase, Decode(sha, list, phrase).value);
    }
  }
}
