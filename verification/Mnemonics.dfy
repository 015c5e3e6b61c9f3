/**
  BIP-39 phrases of mimblewimble/mnemonic.py: entropy to words and back. A phrase is the list of its
  words; the first byte of the SHA-256 digest is an arbitrary function of the entropy.
*/
module Mnemonics {
  import opened Bits
  import opened Hashing

  datatype Result<+T> = Ok(value: T) | ValueError

  type Sha = Bytes -> Byte

  const WORDS: nat := 2048

  // ---------------------------------------------------------------- bit strings of both sides

  /** The bits of a byte string, most significant bit of the first byte first. */
  function ByteBits(data: seq<nat>): seq<bool> {
    seq(8 * |data|, s requires 0 <= s < 8 * |data| => Bit(data[s / 8], 7 - s % 8))
  }

  /** The bits of a list of 11-bit numbers, likewise. */
  function WordBits(words: seq<nat>): seq<bool> {
    seq(11 * |words|, s requires 0 <= s < 11 * |words| => Bit(words[s / 11], 10 - s % 11))
  }

  function NumberBits(n: nat, width: nat): seq<bool> {
    seq(width, i requires 0 <= i < width => Bit(n, width - 1 - i))
  }

  lemma Pow2Constants()
    ensures Pow2(8) == 256 && Pow2(11) == WORDS
  {
    assert Pow2(4) == 16;
    assert Pow2(8) == 256;
  }

  lemma ByteBitsInjective(a: Bytes, b: Bytes)
    requires ByteBits(a) == ByteBits(b)
    ensures a == b
  {
    Pow2Constants();
    assert |a| == |b|;
    forall i | 0 <= i < |a| ensures a[i] == b[i] {
      forall k: nat ensures Bit(a[i], k) == Bit(b[i], k) {
        if k < 8 {
          var s := 8 * i + (7 - k);
          assert ByteBits(a)[s] == ByteBits(b)[s];
        } else {
          ClearAbove(a[i], 8, k);
          ClearAbove(b[i], 8, k);
        }
      }
      SameBits(a[i], b[i]);
    }
  }

  lemma WordBitsInjective(a: seq<nat>, b: seq<nat>)
    requires WordBits(a) == WordBits(b) && Below(a, WORDS) && Below(b, WORDS)
    ensures a == b
  {
    Pow2Constants();
    assert |a| == |b|;
    forall i | 0 <= i < |a| ensures a[i] == b[i] {
      forall k: nat ensures Bit(a[i], k) == Bit(b[i], k) {
        if k < 11 {
          var s := 11 * i + (10 - k);
          assert WordBits(a)[s] == WordBits(b)[s];
        } else {
          ClearAbove(a[i], 11, k);
          ClearAbove(b[i], 11, k);
        }
      }
      SameBits(a[i], b[i]);
    }
  }

  lemma NumberBitsInjective(a: nat, b: nat, width: nat)
    requires NumberBits(a, width) == NumberBits(b, width) && a < Pow2(width) && b < Pow2(width)
    ensures a == b
  {
    forall k: nat ensures Bit(a, k) == Bit(b, k) {
      if k < width {
        assert NumberBits(a, width)[width - 1 - k] == NumberBits(b, width)[width - 1 - k];
      } else {
        ClearAbove(a, width, k);
        ClearAbove(b, width, k);
      }
    }
    SameBits(a, b);
  }

  // ---------------------------------------------------------------- what encoding and decoding mean

  /** The leading `width` bits of the digest byte. */
  function Checksum(sha: Sha, entropy: Bytes, width: nat): nat
    requires width <= 8
  {
    Mask(ShiftRight(sha(entropy), 8 - width), width)
  }

  /** The numbers written by consecutive groups of `width` bits. */
  function Groups(bits: seq<bool>, width: nat, n: nat): (r: seq<nat>)
    requires |bits| == width * n
    ensures |r| == n
  {
    seq(n, i requires 0 <= i < n => GroupAt(bits, width, n, i))
  }

  function GroupAt(bits: seq<bool>, width: nat, n: nat, i: nat): nat
    requires |bits| == width * n && i < n
  {
    GroupFits(width, n, i);
    ValueOf(bits[width * i..width * i + width])
  }

  lemma GroupFits(width: nat, n: nat, i: nat)
    requires i < n
    ensures width * i + width <= width * n
  {
    assert width * n == width * i + width * (n - i);
    assert width * (n - i) == width + width * (n - i - 1);
    MulNonNegative(width, n - i - 1);
  }

  lemma MulNonNegative(a: nat, b: nat)
    ensures a * b >= 0
  {
  }

  lemma WordGroups(bits: seq<bool>, n: nat)
    requires |bits| == 11 * n
    ensures WordBits(Groups(bits, 11, n)) == bits && Below(Groups(bits, 11, n), WORDS)
  {
    Pow2Constants();
    forall i | 0 <= i < n ensures Groups(bits, 11, n)[i] < WORDS {
      ValueBound(bits[11 * i..11 * i + 11]);
    }
    forall s | 0 <= s < 11 * n ensures WordBits(Groups(bits, 11, n))[s] == bits[s] {
      var i := s / 11;
      ValueBit(bits[11 * i..11 * i + 11], 10 - s % 11);
    }
  }

  lemma ByteGroups(bits: seq<bool>, n: nat)
    requires |bits| == 8 * n
    ensures Below(Groups(bits, 8, n), 256) && ByteBits(Groups(bits, 8, n)) == bits
  {
    Pow2Constants();
    forall i | 0 <= i < n ensures Groups(bits, 8, n)[i] < 256 {
      ValueBound(bits[8 * i..8 * i + 8]);
    }
    forall s | 0 <= s < 8 * n ensures ByteBits(Groups(bits, 8, n))[s] == bits[s] {
      var i := s / 8;
      ValueBit(bits[8 * i..8 * i + 8], 7 - s % 8);
    }
  }

  /** The entropy's bits followed by its checksum's. */
  function Stream(sha: Sha, entropy: Bytes): seq<bool>
    requires |entropy| % 4 == 0 && |entropy| <= 32
  {
    ByteBits(entropy) + NumberBits(Checksum(sha, entropy, |entropy| / 4), |entropy| / 4)
  }

  /** Word numbers of the phrase for `entropy`. */
  function EntropyIndices(sha: Sha, entropy: Bytes): seq<nat>
    requires |entropy| % 4 == 0 && |entropy| <= 32
  {
    Groups(Stream(sha, entropy), 11, |entropy| / 4 * 3)
  }

  /** Entropy bytes in front of the checksum in a list of word numbers. */
  function IndicesEntropy(indices: seq<nat>): (r: Bytes)
    requires |indices| % 3 == 0
    ensures |r| == |indices| / 3 * 4
  {
    var n := |indices| / 3 * 4;
    ByteGroups(WordBits(indices)[..8 * n], n);
    Groups(WordBits(indices)[..8 * n], 8, n)
  }

  function Pick(list: seq<string>, indices: seq<nat>): seq<string>
    requires Below(indices, |list|)
  {
    seq(|indices|, i requires 0 <= i < |indices| => list[indices[i]])
  }

  /** Position of the first occurrence. */
  function IndexIn(list: seq<string>, word: string): (i: nat)
    requires word in list
    ensures i < |list| && list[i] == word && word !in list[..i]
  {
    if list[0] == word then 0 else 1 + IndexIn(list[1..], word)
  }

  predicate AllKnown(list: seq<string>, phrase: seq<string>) {
    forall i :: 0 <= i < |phrase| ==> phrase[i] in list
  }

  function IndicesOf(list: seq<string>, phrase: seq<string>): (r: seq<nat>)
    requires AllKnown(list, phrase)
    ensures |r| == |phrase| && Below(r, |list|)
  {
    seq(|phrase|, i requires 0 <= i < |phrase| => IndexIn(list, phrase[i]))
  }

  /** What mnemonicFromEntropy returns; more than 32 bytes make a shift count negative, which raises. */
  function Encode(sha: Sha, list: seq<string>, entropy: Bytes): Result<seq<string>>
    requires |list| == WORDS
  {
    if |entropy| % 4 != 0 || |entropy| > 32 then ValueError
    else
      WordGroups(Stream(sha, entropy), |entropy| / 4 * 3);
      Ok(Pick(list, EntropyIndices(sha, entropy)))
  }

  /** What entropyFromMnemonic returns. */
  function Decode(sha: Sha, list: seq<string>, phrase: seq<string>): Result<Bytes>
    requires |list| == WORDS
  {
    if |phrase| < 12 || |phrase| > 24 || |phrase| % 3 != 0 || !AllKnown(list, phrase) then ValueError
    else
      var indices := IndicesOf(list, phrase);
      var entropy := IndicesEntropy(indices);
      var width := |phrase| / 3;
      if Checksum(sha, entropy, width) == Mask(indices[|indices| - 1], width) then Ok(entropy) else ValueError
  }

  // ---------------------------------------------------------------- the two are inverse

  /** The last bits of the last word are the low bits masked out of it. */
  lemma TailBits(indices: seq<nat>, width: nat)
    requires indices != [] && width <= 11
    ensures WordBits(indices)[11 * |indices| - width..] == NumberBits(Mask(indices[|indices| - 1], width), width)
  {
    var last := indices[|indices| - 1];
    forall i | 0 <= i < width
      ensures WordBits(indices)[11 * |indices| - width + i] == NumberBits(Mask(last, width), width)[i]
    {
      MaskedBit(last, width, width - 1 - i);
    }
  }

  lemma IndicesEntropyBits(indices: seq<nat>)
    requires |indices| % 3 == 0
    ensures ByteBits(IndicesEntropy(indices)) == WordBits(indices)[..8 * (|indices| / 3 * 4)]
  {
    var n := |indices| / 3 * 4;
    ByteGroups(WordBits(indices)[..8 * n], n);
  }

  lemma StreamParts(sha: Sha, entropy: Bytes)
    requires |entropy| % 4 == 0 && |entropy| <= 32
    ensures |Stream(sha, entropy)| == 11 * (|entropy| / 4 * 3)
    ensures Stream(sha, entropy)[..8 * |entropy|] == ByteBits(entropy)
    ensures Stream(sha, entropy)[8 * |entropy|..] ==
            NumberBits(Checksum(sha, entropy, |entropy| / 4), |entropy| / 4)
  {
  }

  /** The word numbers of an entropy carry its bits and its checksum. */
  lemma IndicesCarry(sha: Sha, entropy: Bytes)
    requires 0 < |entropy| <= 32 && |entropy| % 4 == 0
    ensures var indices := EntropyIndices(sha, entropy);
            && IndicesEntropy(indices) == entropy
            && Mask(indices[|indices| - 1], |entropy| / 4) == Checksum(sha, entropy, |entropy| / 4)
  {
    var width := |entropy| / 4;
    var indices := EntropyIndices(sha, entropy);
    var sum, low := Checksum(sha, entropy, width), Mask(indices[|indices| - 1], width);
    StreamParts(sha, entropy);
    WordGroups(Stream(sha, entropy), 3 * width);
    IndicesEntropyBits(indices);
    ByteBitsInjective(entropy, IndicesEntropy(indices));
    TailBits(indices, width);
    MaskBound(ShiftRight(sha(entropy), 8 - width), width);
    MaskBound(indices[|indices| - 1], width);
    NumberBitsInjective(sum, low, width);
  }

  lemma SplitAt(bits: seq<bool>, other: seq<bool>, cut: nat)
    requires cut <= |bits| == |other| && bits[..cut] == other[..cut] && bits[cut..] == other[cut..]
    ensures bits == other
  {
    assert bits == bits[..cut] + bits[cut..] && other == other[..cut] + other[cut..];
  }

  lemma CarriedStream(sha: Sha, indices: seq<nat>, width: nat, entropy: Bytes)
    requires 0 < |indices| == 3 * width <= 24 && entropy == IndicesEntropy(indices)
    requires Mask(indices[|indices| - 1], width) == Checksum(sha, entropy, width)
    ensures Stream(sha, entropy) == WordBits(indices)
  {
    StreamParts(sha, entropy);
    IndicesEntropyBits(indices);
    TailBits(indices, width);
    SplitAt(WordBits(indices), Stream(sha, entropy), 8 * |entropy|);
  }

  lemma GroupsBack(indices: seq<nat>)
    requires Below(indices, WORDS)
    ensures Groups(WordBits(indices), 11, |indices|) == indices
  {
    var n := |indices|;
    WordGroups(WordBits(indices), n);
    WordBitsInjective(indices, Groups(WordBits(indices), 11, n));
  }

  /** Word numbers that carry an entropy and its checksum are the entropy's. */
  lemma CarriedIndices(sha: Sha, indices: seq<nat>)
    requires 0 < |indices| <= 24 && |indices| % 3 == 0 && Below(indices, WORDS)
    requires Mask(indices[|indices| - 1], |indices| / 3) == Checksum(sha, IndicesEntropy(indices), |indices| / 3)
    ensures EntropyIndices(sha, IndicesEntropy(indices)) == indices
  {
    var width := |indices| / 3;
    var entropy := IndicesEntropy(indices);
    assert |indices| == 3 * width && |entropy| == 4 * width;
    CarriedStream(sha, indices, width, entropy);
    GroupsBack(indices);
    assert |entropy| / 4 * 3 == |indices|;
  }

  ghost predicate NoDuplicates(list: seq<string>) {
    forall i, j :: 0 <= i < j < |list| ==> list[i] != list[j]
  }

  lemma PickIndices(list: seq<string>, indices: seq<nat>)
    requires NoDuplicates(list) && Below(indices, |list|)
    ensures AllKnown(list, Pick(list, indices)) && IndicesOf(list, Pick(list, indices)) == indices
  {
    forall i | 0 <= i < |indices| ensures IndexIn(list, list[indices[i]]) == indices[i] {
    }
  }

  /** Decoding the phrase of any entropy of 16, 20, 24, 28 or 32 bytes gives the entropy back. */
  lemma DecodeEncode(sha: Sha, list: seq<string>, entropy: Bytes)
    requires |list| == WORDS && NoDuplicates(list)
    requires 16 <= |entropy| <= 32 && |entropy| % 4 == 0
    ensures Encode(sha, list, entropy).Ok?
    ensures Decode(sha, list, Encode(sha, list, entropy).value) == Ok(entropy)
  {
    var indices := EntropyIndices(sha, entropy);
    WordGroups(Stream(sha, entropy), |entropy| / 4 * 3);
    PickIndices(list, indices);
    IndicesCarry(sha, entropy);
  }

  /** Every accepted phrase is the phrase of the entropy it decodes to. */
  lemma EncodeDecode(sha: Sha, list: seq<string>, phrase: seq<string>)
    requires |list| == WORDS && Decode(sha, list, phrase).Ok?
    ensures Encode(sha, list, Decode(sha, list, phrase).value) == Ok(phrase)
  {
    var indices := IndicesOf(list, phrase);
    CarriedIndices(sha, indices);
    assert Pick(list, indices) == phrase;
  }

  // ---------------------------------------------------------------- one big integer

  /** The number written by `digits` in base `2^width`, most significant digit first. */
  function BigEndian(digits: seq<nat>, width: nat): nat {
    if digits == [] then 0
    else BigEndian(digits[..|digits| - 1], width) * Pow2(width) + digits[|digits| - 1]
  }

  lemma ByteBitsStep(data: Bytes)
    requires data != []
    ensures ByteBits(data) == ByteBits(data[..|data| - 1]) + NumberBits(data[|data| - 1], 8)
  {
  }

  lemma WordBitsStep(words: seq<nat>)
    requires words != []
    ensures WordBits(words) == WordBits(words[..|words| - 1]) + NumberBits(words[|words| - 1], 11)
  {
  }

  lemma {:induction false} BytesValue(data: Bytes)
    ensures ValueOf(ByteBits(data)) == BigEndian(data, 8)
  {
    if data == [] {
    } else {
      var front, last := data[..|data| - 1], data[|data| - 1];
      BytesValue(front);
      Pow2Constants();
      ByteBitsStep(data);
      ValueConcat(ByteBits(front), NumberBits(last, 8));
      ValueUnique(last, NumberBits(last, 8));
    }
  }

  lemma {:induction false} WordsValue(words: seq<nat>)
    requires Below(words, WORDS)
    ensures ValueOf(WordBits(words)) == BigEndian(words, 11)
  {
    if words == [] {
    } else {
      var front, last := words[..|words| - 1], words[|words| - 1];
      WordsValue(front);
      Pow2Constants();
      WordBitsStep(words);
      ValueConcat(WordBits(front), NumberBits(last, 11));
      ValueUnique(last, NumberBits(last, 11));
    }
  }

  lemma TailValue(bits: seq<bool>, sum: nat, width: nat)
    requires sum < Pow2(width)
    ensures ValueOf(bits + NumberBits(sum, width)) == ValueOf(bits) * Pow2(width) + sum
  {
    var tail := NumberBits(sum, width);
    ValueUnique(sum, tail);
    ValueConcat(bits, tail);
  }

  /** Read in base 2048, the words are the entropy read in base 256 with the checksum appended. */
  lemma SameInteger(sha: Sha, entropy: Bytes)
    requires |entropy| % 4 == 0 && |entropy| <= 32
    ensures var width := |entropy| / 4;
            BigEndian(EntropyIndices(sha, entropy), 11) ==
            BigEndian(entropy, 8) * Pow2(width) + Checksum(sha, entropy, width)
  {
    var width := |entropy| / 4;
    var bits := ByteBits(entropy);
    MaskBound(ShiftRight(sha(entropy), 8 - width), width);
    TailValue(bits, Checksum(sha, entropy, width), width);
    BytesValue(entropy);
    IndicesValue(sha, entropy);
  }

  lemma IndicesValue(sha: Sha, entropy: Bytes)
    requires |entropy| % 4 == 0 && |entropy| <= 32
    ensures BigEndian(EntropyIndices(sha, entropy), 11) == ValueOf(Stream(sha, entropy))
  {
    WordGroups(Stream(sha, entropy), |entropy| / 4 * 3);
    WordsValue(EntropyIndices(sha, entropy));
  }

  // ---------------------------------------------------------------- the loops

  /** ORing one bit into a word sets that bit of the stream, and no other. */
  lemma SetWordBit(words: seq<nat>, loc: nat, bit: bool)
    requires loc < 11 * |words| && Below(words, WORDS)
    ensures var words' := words[loc / 11 := OrShifted(words[loc / 11], bit, 10 - loc % 11)];
            && Below(words', WORDS)
            && WordBits(words') == WordBits(words)[loc := WordBits(words)[loc] || bit]
  {
    var i, k := loc / 11, 10 - loc % 11;
    var word' := OrShifted(words[i], bit, k);
    var words' := words[i := word'];
    Pow2Constants();
    forall j | 11 <= j ensures !Bit(word', j) {
      OrShiftedBit(words[i], bit, k, j);
      ClearAbove(words[i], 11, j);
    }
    ClearMeansBelow(word', 11);
    forall s | 0 <= s < 11 * |words|
      ensures WordBits(words')[s] == WordBits(words)[loc := WordBits(words)[loc] || bit][s]
    {
      if s / 11 == i {
        OrShiftedBit(words[i], bit, k, 10 - s % 11);
      }
    }
  }

  /** Sets one bit of the words' stream if `bit` is. */
  method OrWordBit(words: array<nat>, loc: nat, bit: bool)
    requires loc < 11 * words.Length && Below(words[..], WORDS)
    modifies words
    ensures Below(words[..], WORDS)
    ensures WordBits(words[..]) == old(WordBits(words[..]))[loc := old(WordBits(words[..]))[loc] || bit]
  {
    SetWordBit(words[..], loc, bit);
    ghost var words' := words[..][loc / 11 := OrShifted(words[loc / 11], bit, 10 - loc % 11)];
    words[loc / 11] := OrShifted(words[loc / 11], bit, 10 - loc % 11);
    assert words[..] == words';
  }

  /** ORs a number's bits, most significant first, into the words from stream position `start` on. */
  method WriteBits(words: array<nat>, number: nat, width: nat, start: nat, ghost stream: seq<bool>) returns (loc: nat)
    requires Below(words[..], WORDS) && FilledTo(WordBits(words[..]), stream, start)
    requires start + width <= |stream| == 11 * words.Length && stream[start..start + width] == NumberBits(number, width)
    modifies words
    ensures loc == start + width
    ensures Below(words[..], WORDS) && FilledTo(WordBits(words[..]), stream, loc)
  {
    loc := start;
    var j := width;
    while j > 0
      invariant 0 <= j <= width && loc == start + (width - j)
      invariant Below(words[..], WORDS) && FilledTo(WordBits(words[..]), stream, loc)
    {
      var bit := Bit(number, j - 1);
      assert stream[start..start + width][width - j] == bit;
      OrWordBit(words, loc, bit);
      loc := loc + 1;
      j := j - 1;
    }
  }

  /** The two bit-writing phases: the entropy's bytes, then the checksum. */
  method FillIndices(sha: Sha, entropy: Bytes) returns (wordIndices: array<nat>)
    requires |entropy| % 4 == 0 && |entropy| <= 32
    ensures Below(wordIndices[..], WORDS) && WordBits(wordIndices[..]) == Stream(sha, entropy)
  {
    var checksumBits := |entropy| / 4;
    wordIndices := new nat[checksumBits * 3](_ => 0);
    ghost var stream := Stream(sha, entropy);
    StreamParts(sha, entropy);
    ClearWords(wordIndices[..]);
    var loc := FillBytes(sha, entropy, wordIndices);
    var checksum := Mask(ShiftRight(sha(entropy), 8 - checksumBits), checksumBits);
    ChecksumInStream(sha, entropy, checksumBits);
    loc := WriteBits(wordIndices, checksum, checksumBits, loc, stream);
    FilledWhole(WordBits(wordIndices[..]), stream);
  }

  method FillBytes(sha: Sha, entropy: Bytes, wordIndices: array<nat>) returns (loc: nat)
    requires |entropy| % 4 == 0 && |entropy| <= 32 && |Stream(sha, entropy)| == 11 * wordIndices.Length
    requires Below(wordIndices[..], WORDS) && FilledTo(WordBits(wordIndices[..]), Stream(sha, entropy), 0)
    modifies wordIndices
    ensures loc == 8 * |entropy|
    ensures Below(wordIndices[..], WORDS) && FilledTo(WordBits(wordIndices[..]), Stream(sha, entropy), loc)
  {
    ghost var stream := Stream(sha, entropy);
    loc := 0;
    var i := 0;
    while i < |entropy|
      invariant 0 <= i <= |entropy| && loc == 8 * i
      invariant Below(wordIndices[..], WORDS) && FilledTo(WordBits(wordIndices[..]), stream, loc)
    {
      ByteInStream(sha, entropy, i);
      loc := WriteBits(wordIndices, entropy[i], 8, loc, stream);
      i := i + 1;
    }
  }

  lemma FilledWhole(bits: seq<bool>, stream: seq<bool>)
    requires |bits| == |stream| && FilledTo(bits, stream, |stream|)
    ensures bits == stream
  {
  }

  lemma ChecksumInStream(sha: Sha, entropy: Bytes, width: nat)
    requires |entropy| == 4 * width && |entropy| <= 32
    ensures var at := 8 * |entropy|;
            && at + width == |Stream(sha, entropy)|
            && Stream(sha, entropy)[at..at + width] == NumberBits(Checksum(sha, entropy, width), width)
  {
    StreamParts(sha, entropy);
  }

  lemma ByteInStream(sha: Sha, entropy: Bytes, i: nat)
    requires |entropy| % 4 == 0 && |entropy| <= 32 && i < |entropy|
    ensures 8 * i + 8 <= |Stream(sha, entropy)|
    ensures Stream(sha, entropy)[8 * i..8 * i + 8] == NumberBits(entropy[i], 8)
  {
  }

  method MnemonicFromEntropy(sha: Sha, list: seq<string>, entropy: Bytes) returns (r: Result<seq<string>>)
    requires |list| == WORDS
    ensures r == Encode(sha, list, entropy)
  {
    if |entropy| % 4 != 0 || |entropy| > 32 {
      return ValueError;
    }
    var wordIndices := FillIndices(sha, entropy);
    StreamParts(sha, entropy);
    WordGroups(Stream(sha, entropy), |entropy| / 4 * 3);
    WordBitsInjective(wordIndices[..], EntropyIndices(sha, entropy));
    var phrase := PhraseOf(list, wordIndices[..]);
    return Ok(phrase);
  }

  method PhraseOf(list: seq<string>, wordIndices: seq<nat>) returns (phrase: seq<string>)
    requires Below(wordIndices, |list|)
    ensures phrase == Pick(list, wordIndices)
  {
    phrase := [];
    var i := 0;
    while i < |wordIndices|
      invariant 0 <= i <= |wordIndices|
      invariant phrase == Pick(list, wordIndices)[..i]
    {
      phrase := phrase + [list[wordIndices[i]]];
      i := i + 1;
    }
  }

  lemma ClearWords(words: seq<nat>)
    requires forall i :: 0 <= i < |words| ==> words[i] == 0
    ensures Below(words, WORDS)
    ensures forall s :: 0 <= s < |WordBits(words)| ==> !WordBits(words)[s]
  {
    forall s | 0 <= s < |WordBits(words)| ensures !WordBits(words)[s] {
      assert words[s / 11] == 0;
      ZeroBit(10 - s % 11);
    }
  }

  /** ORing one bit into a byte, counted from the end, sets that bit of the stream, and no other. */
  lemma SetByteBit(data: seq<nat>, loc: nat, bit: bool)
    requires loc < 8 * |data| && Below(data, 256)
    ensures var at := |data| - 1 - loc / 8;
            var data' := data[at := OrShifted(data[at], bit, loc % 8)];
            var s := 8 * |data| - 1 - loc;
            Below(data', 256) && ByteBits(data') == ByteBits(data)[s := ByteBits(data)[s] || bit]
  {
    var at, s := |data| - 1 - loc / 8, 8 * |data| - 1 - loc;
    assert s / 8 == at && 7 - s % 8 == loc % 8;
    var byte' := OrShifted(data[at], bit, loc % 8);
    var data' := data[at := byte'];
    Pow2Constants();
    forall j | 8 <= j ensures !Bit(byte', j) {
      OrShiftedBit(data[at], bit, loc % 8, j);
      ClearAbove(data[at], 8, j);
    }
    ClearMeansBelow(byte', 8);
    forall t | 0 <= t < 8 * |data| ensures ByteBits(data')[t] == ByteBits(data)[s := ByteBits(data)[s] || bit][t] {
      if t / 8 == at {
        OrShiftedBit(data[at], bit, loc % 8, 7 - t % 8);
      }
    }
  }

  /** `bits` agrees with `stream` in its last `loc` places and is all clear before them. */
  ghost predicate FilledBack(bits: seq<bool>, stream: seq<bool>, loc: nat) {
    |bits| == |stream| && forall s :: 0 <= s < |bits| ==> bits[s] == (s + loc >= |bits| && stream[s])
  }

  /** Sets one bit of the bytes' stream, counted from its end, if `bit` is. */
  method OrByteBit(data: array<nat>, loc: nat, bit: bool)
    requires loc < 8 * data.Length && Below(data[..], 256)
    modifies data
    ensures Below(data[..], 256)
    ensures var s, before := 8 * data.Length - 1 - loc, old(ByteBits(data[..]));
            ByteBits(data[..]) == before[s := before[s] || bit]
  {
    SetByteBit(data[..], loc, bit);
    var at := data.Length - 1 - loc / 8;
    ghost var data' := data[..][at := OrShifted(data[at], bit, loc % 8)];
    data[at] := OrShifted(data[at], bit, loc % 8);
    assert data[..] == data';
  }

  /** Bit `k` of word `i`, counted from the end of the words' bits. */
  lemma BackBit(indices: seq<nat>, i: nat, k: nat)
    requires i < |indices| && k < 11
    ensures var s := 11 * (i + 1) - 1 - k; s < 11 * |indices| && WordBits(indices)[s] == Bit(indices[i], k)
  {
  }

  /** ORs the 11 bits of word `i`, least significant first, into the bytes from the end on. */
  method WriteBack(data: array<nat>, indices: seq<nat>, i: nat, start: nat) returns (loc: nat)
    requires i < |indices| && start + 11 <= 8 * data.Length <= 11 * |indices|
    requires 8 * data.Length - start == 11 * (i + 1)
    requires Below(data[..], 256)
    requires FilledBack(ByteBits(data[..]), WordBits(indices)[..8 * data.Length], start)
    modifies data
    ensures loc == start + 11 && Below(data[..], 256)
    ensures FilledBack(ByteBits(data[..]), WordBits(indices)[..8 * data.Length], loc)
  {
    loc := start;
    ghost var stream := WordBits(indices)[..8 * data.Length];
    var k := 0;
    while k < 11
      invariant 0 <= k <= 11 && loc == start + k
      invariant Below(data[..], 256) && FilledBack(ByteBits(data[..]), stream, loc)
    {
      var bit := Bit(indices[i], k);
      BackBit(indices, i, k);
      OrByteBit(data, loc, bit);
      loc := loc + 1;
      k := k + 1;
    }
  }

  /** The last byte starts as what the last word holds above the checksum. */
  lemma StartBack(data: seq<nat>, indices: seq<nat>, width: nat)
    requires 4 <= width <= 8 && |indices| == 3 * width && |data| == 4 * width && Below(indices, WORDS)
    requires forall i :: 0 <= i < |data| - 1 ==> data[i] == 0
    requires data[|data| - 1] == ShiftRight(indices[|indices| - 1], width)
    ensures Below(data, 256)
    ensures FilledBack(ByteBits(data), WordBits(indices)[..8 * |data|], 11 - width)
  {
    var last, byte := indices[|indices| - 1], data[|data| - 1];
    Pow2Constants();
    forall j | 8 <= j ensures !Bit(byte, j) {
      ShiftedBit(last, width, j);
      ClearAbove(last, 11, width + j);
    }
    ClearMeansBelow(byte, 8);
    forall s | 0 <= s < 8 * |data|
      ensures ByteBits(data)[s] == (s + 11 - width >= 8 * |data| && WordBits(indices)[s])
    {
      if s / 8 < |data| - 1 {
        ZeroBit(7 - s % 8);
      } else {
        StartBit(indices, byte, width, s);
      }
    }
  }

  lemma StartBit(indices: seq<nat>, byte: nat, width: nat, s: nat)
    requires 4 <= width <= 8 && |indices| == 3 * width && Below(indices, WORDS)
    requires byte == ShiftRight(indices[|indices| - 1], width)
    requires 8 * (4 * width - 1) <= s < 8 * (4 * width)
    ensures Bit(byte, 7 - s % 8) == (s + 11 - width >= 32 * width && WordBits(indices)[s])
  {
    var last := indices[|indices| - 1];
    var loc := 32 * width - 1 - s;
    assert 7 - s % 8 == loc;
    ShiftedBit(last, width, loc);
    if loc + width < 11 {
      BackBit(indices, |indices| - 1, loc + width);
    } else {
      Pow2Constants();
      ClearAbove(last, 11, width + loc);
    }
  }

  /** The phase that rebuilds the entropy's bytes from the words, last word first. */
  method RebuildEntropy(indices: seq<nat>) returns (entropy: Bytes)
    requires 12 <= |indices| <= 24 && |indices| % 3 == 0 && Below(indices, WORDS)
    ensures entropy == IndicesEntropy(indices)
  {
    var numWords := |indices|;
    var checksumBits := numWords / 3;
    var dataLength := (11 * numWords - checksumBits) / 8 - 1;
    var data := new nat[dataLength + 1](_ => 0);
    data[dataLength] := ShiftRight(indices[numWords - 1], checksumBits);
    StartBack(data[..], indices, checksumBits);
    ghost var stream := WordBits(indices)[..8 * data.Length];
    var loc := 11 - checksumBits;
    var i := numWords - 1;
    while i > 0
      invariant 0 <= i < numWords && 8 * data.Length - loc == 11 * i
      invariant Below(data[..], 256) && FilledBack(ByteBits(data[..]), stream, loc)
    {
      loc := WriteBack(data, indices, i - 1, loc);
      i := i - 1;
    }
    entropy := data[..];
    IndicesEntropyBits(indices);
    assert ByteBits(entropy) == stream;
    ByteBitsInjective(entropy, IndicesEntropy(indices));
  }

  method EntropyFromMnemonic(sha: Sha, list: seq<string>, words: seq<string>) returns (r: Result<Bytes>)
    requires |list| == WORDS
    ensures r == Decode(sha, list, words)
  {
    var numWords := |words|;
    if numWords < 12 || numWords > 24 || numWords % 3 != 0 {
      return ValueError;
    }
    var wordIndices: seq<nat> := [];
    var i := 0;
    while i < numWords
      invariant 0 <= i <= numWords && AllKnown(list, words[..i])
      invariant wordIndices == IndicesOf(list, words[..i])
    {
      if words[i] !in list {
        return ValueError;
      }
      wordIndices := wordIndices + [IndexIn(list, words[i])];
      i := i + 1;
    }
    assert words[..i] == words;
    var checksumBits := numWords / 3;
    var expectedChecksum := Mask(wordIndices[numWords - 1], checksumBits);
    var entropy := RebuildEntropy(wordIndices);
    var actualChecksum := Mask(ShiftRight(sha(entropy), 8 - checksumBits), checksumBits);
    if actualChecksum != expectedChecksum {
      return ValueError;
    }
    return Ok(entropy);
  }
}
