/**
 The data-dependent index of scryptROMix as RFC 7914 section 5 states it: the last 64 bytes
 of the state read as one little-endian integer, modulo N. The source masks one word.
 */
module Integerify {
  import opened Arithmetic
  import opened BtcStream
  import opened SalsaSpec
  import S = Scrypt

  // ---------- the low ten bits ----------

  /** A word is the sum of its low and high bits; eight bits are split off at a time. */
  lemma SplitWord(w: Word)
    ensures w as nat == (w & 0xFF_FFFF) as nat + (w & 0xFF00_0000) as nat
    ensures (w & 0xFF_FFFF) as nat == (w & 0xFFFF) as nat + (w & 0xFF_0000) as nat
    ensures (w & 0xFFFF) as nat == (w & 0x3FF) as nat + (w & 0xFC00) as nat
  {
    SplitTop(w);
    SplitMiddle(w);
    SplitLow(w);
  }

  lemma SplitTop(w: Word)
    ensures w as nat == (w & 0xFF_FFFF) as nat + (w & 0xFF00_0000) as nat
  {
    assert w & 0xFFFF_FFFF == w;
  }

  lemma SplitMiddle(w: Word)
    ensures (w & 0xFF_FFFF) as nat == (w & 0xFFFF) as nat + (w & 0xFF_0000) as nat
  {
  }

  lemma SplitLow(w: Word)
    ensures (w & 0xFFFF) as nat == (w & 0x3FF) as nat + (w & 0xFC00) as nat
  {
  }

  lemma HighPartsVanish(w: Word)
    ensures (w & 0xFF00_0000) as nat % 1024 == 0 && (w & 0xFF_0000) as nat % 1024 == 0
    ensures (w & 0xFC00) as nat % 1024 == 0 && (w & 0x3FF) as nat < 1024
  {
  }

  /** Masking with 1023 is the remainder modulo N. */
  lemma LowBitsIsRemainder(w: Word)
    ensures LowBits(w) == w as nat % 1024
  {
    SplitWord(w);
    HighPartsVanish(w);
    Remainders((w & 0x3FF) as nat, (w & 0xFC00) as nat, (w & 0xFF_0000) as nat, (w & 0xFF00_0000) as nat);
  }

  lemma Remainders(a: nat, b: nat, c: nat, d: nat)
    requires a < 1024 && b % 1024 == 0 && c % 1024 == 0 && d % 1024 == 0
    ensures (a + b + c + d) % 1024 == a
  {
  }

  // ---------- the integer of the block ----------

  function WordsBytes(words: seq<Word>): Bytes {
    if words == [] then [] else LittleEndian(words[0] as nat, 4) + WordsBytes(words[1..])
  }

  /** The 64 bytes of a block. */
  function BlockBytes(b: Block): Bytes {
    WordsBytes([b.x0, b.x1, b.x2, b.x3, b.x4, b.x5, b.x6, b.x7, b.x8, b.x9, b.x10, b.x11, b.x12, b.x13, b.x14,
                b.x15])
  }

  /** The source's arrays hold the words of a block in order. */
  lemma WordsInOrder(s: seq<Word>, at: nat)
    requires at + 16 <= |s|
    ensures BlockBytes(S.BlockOf(s, at)) == WordsBytes(s[at..at + 16])
  {
    hide WordsBytes, S.BlockOf;
    S.WordsOfBlock(s, at);
  }

  lemma {:induction false} FirstWordLow(first: Bytes, rest: Bytes)
    ensures FromLittleEndian(first + rest) == FromLittleEndian(first) + Pow256(|first|) * FromLittleEndian(rest)
  {
    if first == [] {
      assert first + rest == rest;
    } else {
      FirstWordLow(first[1..], rest);
      assert (first + rest)[1..] == first[1..] + rest;
      assert 256 * (Pow256(|first| - 1) * FromLittleEndian(rest)) == Pow256(|first|) * FromLittleEndian(rest);
    }
  }

  /** Integerify: the index is the second block's 64 bytes as a little-endian integer, modulo N. */
  lemma ReadIndexIsIntegerify(p: Pair)
    ensures |BlockBytes(p.hi)| == 64
    ensures ReadIndex(p) == FromLittleEndian(BlockBytes(p.hi)) % 1024
  {
    hide LittleEndian, FromLittleEndian, LowBits, WordsBytes;
    var b := p.hi;
    var words := [b.x0, b.x1, b.x2, b.x3, b.x4, b.x5, b.x6, b.x7, b.x8, b.x9, b.x10, b.x11, b.x12, b.x13, b.x14,
        b.x15];
    BytesLength(words);
    IntegerOfWords(words);
    LowBitsIsRemainder(b.x0);
  }

  lemma IntegerOfWords(words: seq<Word>)
    requires words != []
    ensures FromLittleEndian(WordsBytes(words)) % 1024 == words[0] as nat % 1024
  {
    hide LittleEndian, FromLittleEndian;
    LowWord(words[0] as nat, WordsBytes(words[1..]));
  }

  lemma LowWord(w: nat, rest: Bytes)
    requires w < 0x1_0000_0000
    ensures FromLittleEndian(LittleEndian(w, 4) + rest) % 1024 == w % 1024
  {
    hide LittleEndian, FromLittleEndian;
    FirstWordLow(LittleEndian(w, 4), rest);
    Pow256Values();
    LittleEndianRoundTrip(w, 4);
    var n := FromLittleEndian(rest);
    SameRemainder(w + 0x1_0000_0000 * n, w, 1024, 0x40_0000 * n);
  }

  lemma {:induction false} BytesLength(words: seq<Word>)
    ensures |WordsBytes(words)| == 4 * |words|
  {
    if words != [] {
      BytesLength(words[1..]);
    }
  }

  // ---------- the whole of scryptROMix ----------

  /** The scratchpad and the states of the two loops. */
  ghost predicate IsRun(p: Pair, v: seq<Pair>, x: seq<Pair>) {
    && |v| == |x| == 1025 && v[0] == p && x[0] == v[1024]
    && (forall i :: 0 <= i < 1024 ==> v[i + 1] == BlockMix(v[i]))
    && (forall i :: 0 <= i < 1024 ==>
          x[i + 1] == BlockMix(XorPair(x[i], v[FromLittleEndian(BlockBytes(x[i].hi)) % 1024])))
  }

  lemma {:induction false} RunFills(p: Pair, v: seq<Pair>, x: seq<Pair>, n: nat)
    requires IsRun(p, v, x) && n <= 1024
    ensures v[n] == Filled(p, n)
  {
    hide BlockMix, BlockBytes, FromLittleEndian, XorPair;
    if n > 0 {
      RunFills(p, v, x, n - 1);
      assert v[n - 1 + 1] == BlockMix(v[n - 1]);
    }
  }

  lemma {:induction false} RunMixes(p: Pair, v: seq<Pair>, x: seq<Pair>, n: nat)
    requires IsRun(p, v, x) && n <= 1024
    ensures x[n] == Mixed(p, Filled(p, 1024), n)
  {
    hide BlockMix, BlockBytes, FromLittleEndian, XorPair, ReadIndex, Filled;
    if n > 0 {
      RunMixes(p, v, x, n - 1);
      ReadIndexIsIntegerify(x[n - 1]);
      RunFills(p, v, x, ReadIndex(x[n - 1]));
      assert x[n - 1 + 1] ==
        BlockMix(XorPair(x[n - 1], v[FromLittleEndian(BlockBytes(x[n - 1].hi)) % 1024]));
    } else {
      RunFills(p, v, x, 1024);
    }
  }

  /** Any run of the two loops ends in `RoMix`. */
  lemma RoMixEndsTheRun(p: Pair, v: seq<Pair>, x: seq<Pair>)
    requires IsRun(p, v, x)
    ensures RoMix(p) == x[1024]
  {
    hide IsRun, Filled, Mixed;
    RunMixes(p, v, x, 1024);
  }
}
