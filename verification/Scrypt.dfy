/**
 scrypt as RFC 7914 defines it, and the source's scalar version, which works in place on two
 halves of a block and fills a scratchpad.
 */
module Scrypt {
  import opened Arrays
  import opened SalsaSpec

  // ---------- scalar ----------

  function BlockOf(s: seq<Word>, at: nat): Block
    requires at + 16 <= |s|
  {
    Block(s[at + 0], s[at + 1], s[at + 2], s[at + 3], s[at + 4], s[at + 5], s[at + 6], s[at + 7], s[at + 8], s[at + 9],
      s[at + 10], s[at + 11], s[at + 12], s[at + 13], s[at + 14], s[at + 15])
  }

  function PairOf(s: seq<Word>): Pair
    requires |s| == 32
  {
    Pair(BlockOf(s, 0), BlockOf(s, 16))
  }

  /** The loop body of `xorSalsa8`: sixteen column steps and sixteen row steps. */
  method ScalarDoubleRound(x: Block) returns (r: Block)
    ensures r == RowRound(ColumnRound(x))
  {
    hide Step;
    var x0, x1, x2, x3, x4, x5, x6, x7, x8, x9, x10, x11, x12, x13, x14, x15 :=
      x.x0, x.x1, x.x2, x.x3, x.x4, x.x5, x.x6, x.x7, x.x8, x.x9, x.x10, x.x11, x.x12, x.x13, x.x14, x.x15;
    x4 := Step(x4, x0, x12, 7); x9 := Step(x9, x5, x1, 7);
    x14 := Step(x14, x10, x6, 7); x3 := Step(x3, x15, x11, 7);
    x8 := Step(x8, x4, x0, 9); x13 := Step(x13, x9, x5, 9);
    x2 := Step(x2, x14, x10, 9); x7 := Step(x7, x3, x15, 9);
    x12 := Step(x12, x8, x4, 13); x1 := Step(x1, x13, x9, 13);
    x6 := Step(x6, x2, x14, 13); x11 := Step(x11, x7, x3, 13);
    x0 := Step(x0, x12, x8, 18); x5 := Step(x5, x1, x13, 18);
    x10 := Step(x10, x6, x2, 18); x15 := Step(x15, x11, x7, 18);
    ghost var column := Block(x0, x1, x2, x3, x4, x5, x6, x7, x8, x9, x10, x11, x12, x13, x14, x15);
    assert column == ColumnRound(x);
    x1 := Step(x1, x0, x3, 7); x6 := Step(x6, x5, x4, 7);
    x11 := Step(x11, x10, x9, 7); x12 := Step(x12, x15, x14, 7);
    x2 := Step(x2, x1, x0, 9); x7 := Step(x7, x6, x5, 9);
    x8 := Step(x8, x11, x10, 9); x13 := Step(x13, x12, x15, 9);
    x3 := Step(x3, x2, x1, 13); x4 := Step(x4, x7, x6, 13);
    x9 := Step(x9, x8, x11, 13); x14 := Step(x14, x13, x12, 13);
    x0 := Step(x0, x3, x2, 18); x5 := Step(x5, x4, x7, 18);
    x10 := Step(x10, x9, x8, 18); x15 := Step(x15, x14, x13, 18);
    r := Block(x0, x1, x2, x3, x4, x5, x6, x7, x8, x9, x10, x11, x12, x13, x14, x15);
  }

  /** `xorSalsa8`: combines the block at `from` into the one at `to` and applies the core. */
  method XorSalsa8(x: array<Word>, to: nat, from: nat)
    requires x.Length == 32 && ((to == 0 && from == 16) || (to == 16 && from == 0))
    modifies x
    ensures BlockOf(x[..], to) == Salsa8(XorBlock(old(BlockOf(x[..], to)), old(BlockOf(x[..], from))))
    ensures forall k :: 0 <= k < 32 && !(to <= k < to + 16) ==> x[k] == old(x[k])
  {
    hide RowRound, ColumnRound, BlockOf, XorBlock, AddBlock;
    CombineBlock(x, to, from);
    ghost var b, middle := BlockOf(x[..], to), x[..];
    var y := BlockOf(x[..], to);
    var i := 0;
    while i < 8
      invariant i % 2 == 0 && i <= 8 && y == DoubleRounds(b, i / 2) && x[..] == middle
    {
      y := ScalarDoubleRound(y);
      i := i + 2;
    }
    AddInto(x, to, y);
  }

  /** `B[k] ^= Bx[k]` */
  method CombineBlock(x: array<Word>, to: nat, from: nat)
    requires x.Length == 32 && ((to == 0 && from == 16) || (to == 16 && from == 0))
    modifies x
    ensures BlockOf(x[..], to) == XorBlock(old(BlockOf(x[..], to)), old(BlockOf(x[..], from)))
    ensures forall k :: 0 <= k < 32 && !(to <= k < to + 16) ==> x[k] == old(x[k])
  {
    hide Xor32, BlockOf, XorBlock;
    ghost var before, other := x[..], x[from..from + 16];
    for k := 0 to 16
      invariant x[from..from + 16] == other
      invariant forall t :: 0 <= t < 32 ==> x[t] == if to <= t < to + k then Xor32(before[t], other[t - to])
        else before[t]
    {
      assert x[from + k] == other[k];
      x[to + k] := Xor32(x[to + k], x[from + k]);
    }
    XorBlockOf(x[..], before, other, to, from);
  }

  lemma XorBlockOf(s: seq<Word>, p: seq<Word>, other: seq<Word>, to: nat, from: nat)
    requires |s| == |p| && to + 16 <= |s| && from + 16 <= |s| && other == p[from..from + 16]
    requires forall t :: to <= t < to + 16 ==> s[t] == Xor32(p[t], other[t - to])
    ensures BlockOf(s, to) == XorBlock(BlockOf(p, to), BlockOf(p, from))
  {
    hide Xor32;
  }

  lemma AddBlockOf(s: seq<Word>, p: seq<Word>, to: nat, y: Block)
    requires |s| == |p| && to + 16 <= |s|
    requires forall t :: to <= t < to + 16 ==> s[t] == Add32(p[t], WordsOf(y)[t - to])
    ensures BlockOf(s, to) == AddBlock(BlockOf(p, to), y)
  {
    hide Add32;
  }

  /** The closing sixteen additions. */
  method AddInto(x: array<Word>, to: nat, y: Block)
    requires to + 16 <= x.Length
    modifies x
    ensures BlockOf(x[..], to) == AddBlock(old(BlockOf(x[..], to)), y)
    ensures forall k :: 0 <= k < x.Length && !(to <= k < to + 16) ==> x[k] == old(x[k])
  {
    hide Add32, BlockOf, AddBlock, WordsOf;
    ghost var before := x[..];
    var ys := WordsOf(y);
    for k := 0 to 16
      invariant forall t :: 0 <= t < x.Length ==> x[t] == if to <= t < to + k then Add32(before[t], ys[t - to])
        else before[t]
    {
      x[to + k] := Add32(x[to + k], ys[k]);
    }
    AddBlockOf(x[..], before, to, y);
  }

  function WordsOf(b: Block): (s: seq<Word>)
    ensures |s| == 16 && BlockOf(s, 0) == b
  {
    [b.x0, b.x1, b.x2, b.x3, b.x4, b.x5, b.x6, b.x7, b.x8, b.x9, b.x10, b.x11, b.x12, b.x13, b.x14, b.x15]
  }

  method ScalarBlockMix(x: array<Word>)
    requires x.Length == 32
    modifies x
    ensures PairOf(x[..]) == BlockMix(old(PairOf(x[..])))
  {
    hide Salsa8, XorBlock;
    ghost var p := x[..];
    XorSalsa8(x, 0, 16);
    ghost var q := x[..];
    SameBlock(q, p, 16);
    XorSalsa8(x, 16, 0);
    SameBlock(x[..], q, 0);
  }

  lemma SameBlock(q: seq<Word>, p: seq<Word>, at: nat)
    requires |q| == |p| && at + 16 <= |p| && forall k :: at <= k < at + 16 ==> q[k] == p[k]
    ensures BlockOf(q, at) == BlockOf(p, at)
  {
  }

  type Bytes = seq<bv8>

  /** PBKDF2's two uses: on the input alone, and on the input and the mixed block, the
      block being its 32 little-endian words. */
  datatype Kdf = Kdf(derive: Bytes -> seq<Word>, finish: (Bytes, seq<Word>) -> Bytes)

  ghost predicate Derives(kdf: Kdf) {
    forall input: Bytes :: |kdf.derive(input)| == 32
  }

  function WordsOfPair(p: Pair): (s: seq<Word>)
    ensures |s| == 32
  {
    WordsOf(p.lo) + WordsOf(p.hi)
  }

  lemma WordsOfPairOf(s: seq<Word>)
    requires |s| == 32
    ensures WordsOfPair(PairOf(s)) == s
  {
    hide PairOf, BlockOf, WordsOf;
    WordsOfBlock(s, 0);
    WordsOfBlock(s, 16);
    assert PairOf(s) == Pair(BlockOf(s, 0), BlockOf(s, 16)) by { PairIs(s); }
    assert s == s[0..16] + s[16..32];
  }

  lemma PairIs(s: seq<Word>)
    requires |s| == 32
    ensures PairOf(s) == Pair(BlockOf(s, 0), BlockOf(s, 16))
  {
  }

  lemma WordsOfBlock(s: seq<Word>, at: nat)
    requires at + 16 <= |s|
    ensures WordsOf(BlockOf(s, at)) == s[at..at + 16]
  {
  }

  /** scrypt with N = 1024, r = 1, p = 1 and a 32-byte output, RFC 7914 section 6. */
  function ScryptSpec(kdf: Kdf, input: Bytes): Bytes
    requires |kdf.derive(input)| == 32
  {
    kdf.finish(input, WordsOfPair(RoMix(PairOf(kdf.derive(input)))))
  }

  /** `scrypt_1024_1_1_256_sp_generic` */
  method ScryptGeneric(kdf: Kdf, input: Bytes, v: array<Word>) returns (output: Bytes)
    requires Derives(kdf) && v.Length == 32 * 1024
    modifies v
    ensures output == ScryptSpec(kdf, input)
  {
    hide PairOf, WordsOfPair, Stored, RoMix, Filled;
    var b := kdf.derive(input);
    ghost var p := PairOf(b);
    var x := new Word[32];
    forall k | 0 <= k < 32 {
      x[k] := b[k];
    }
    assert x[..] == b;
    ScalarFill(x, v);
    ScalarMix(x, v, p);
    WordsOfPairOf(x[..]);
    output := kdf.finish(input, x[..]);
  }

  /** The writing loop. */
  method ScalarFill(x: array<Word>, v: array<Word>)
    requires x.Length == 32 && v.Length == 32 * 1024 && x != v
    modifies x, v
    ensures PairOf(x[..]) == Filled(old(PairOf(x[..])), N) && Stored(v[..], old(PairOf(x[..])), N)
  {
    hide BlockMix, PairOf, Stored;
    ghost var p := PairOf(x[..]);
    NothingStored(v[..], p);
    for i := 0 to 1024
      invariant PairOf(x[..]) == Filled(p, i) && Stored(v[..], p, i)
    {
      ghost var before := v[..];
      CopyTo(v, 32 * i, x[..]);
      StoredNext(before, v[..], p, i, x[..]);
      ScalarBlockMix(x);
    }
  }

  /** The reading loop. */
  method ScalarMix(x: array<Word>, v: array<Word>, ghost p: Pair)
    requires x.Length == 32 && v.Length == 32 * 1024 && x != v && Stored(v[..], p, N)
    requires PairOf(x[..]) == Filled(p, N)
    modifies x
    ensures PairOf(x[..]) == RoMix(p)
  {
    hide BlockMix, PairOf, Stored, XorPair, ReadIndex, Filled, LowBits;
    ghost var start := Filled(p, N);
    for i := 0 to 1024
      invariant PairOf(x[..]) == Mixed(p, start, i)
    {
      ghost var y := PairOf(x[..]);
      FirstOfSecond(x[..]);
      var j := 32 * LowBits(x[16]);
      StoredAt(v[..], p, ReadIndex(y));
      XorInto(x, v, j);
      ScalarBlockMix(x);
      assert Mixed(p, start, i + 1) == BlockMix(XorPair(y, Filled(p, ReadIndex(y))));
    }
  }

  /** The scratchpad's first `n` entries hold the successive states. */
  predicate Stored(v: seq<Word>, p: Pair, n: nat) {
    && |v| == 32 * 1024 && n <= 1024
    && forall t :: 0 <= t < n ==> StoredEntry(v, p, t)
  }

  predicate StoredEntry(v: seq<Word>, p: Pair, t: nat) {
    32 * t + 32 <= |v| && PairOf(v[32 * t..32 * t + 32]) == Filled(p, t)
  }

  lemma NothingStored(v: seq<Word>, p: Pair)
    requires |v| == 32 * 1024
    ensures Stored(v, p, 0)
  {
  }

  lemma StoredAt(v: seq<Word>, p: Pair, t: nat)
    requires Stored(v, p, 1024) && t < 1024
    ensures 32 * t + 32 <= |v| && PairOf(v[32 * t..32 * t + 32]) == Filled(p, t)
  {
    assert StoredEntry(v, p, t);
  }

  lemma StoredNext(before: seq<Word>, v: seq<Word>, p: Pair, n: nat, x: seq<Word>)
    requires n < 1024 && |v| == |before| == 32 * 1024 && |x| == 32
    requires v == before[..32 * n] + x + before[32 * n + 32..]
    requires Stored(before, p, n) && PairOf(x) == Filled(p, n)
    ensures Stored(v, p, n + 1)
  {
    hide PairOf, Filled;
    forall t | 0 <= t < n + 1
      ensures StoredEntry(v, p, t)
    {
      if t < n {
        assert StoredEntry(before, p, t);
        assert v[32 * t..32 * t + 32] == before[32 * t..32 * t + 32];
      } else {
        assert v[32 * n..32 * n + 32] == x;
      }
    }
  }

  /** `X[k] ^= V[j + k]` */
  method XorInto(x: array<Word>, v: array<Word>, j: nat)
    requires x.Length == 32 && j + 32 <= v.Length && x != v
    modifies x
    ensures PairOf(x[..]) == XorPair(old(PairOf(x[..])), PairOf(v[j..j + 32]))
  {
    hide Xor32, PairOf, XorPair;
    ghost var before := x[..];
    for k := 0 to 32
      invariant forall t :: 0 <= t < 32 ==> x[t] == if t < k then Xor32(before[t], v[j + t]) else before[t]
    {
      x[k] := Xor32(x[k], v[j + k]);
    }
    XorWords(x[..], before, v[j..j + 32]);
  }

  lemma FirstOfSecond(s: seq<Word>)
    requires |s| == 32
    ensures LowBits(s[16]) == ReadIndex(PairOf(s)) < 1024
  {
  }

  lemma XorWords(s: seq<Word>, a: seq<Word>, b: seq<Word>)
    requires |s| == |a| == |b| == 32 && forall k :: 0 <= k < 32 ==> s[k] == Xor32(a[k], b[k])
    ensures PairOf(s) == XorPair(PairOf(a), PairOf(b))
  {
    hide Xor32;
  }
}
