/**
 The SSE2 scrypt. Four vectors of four lanes hold a block along its diagonals: lane
 word i is block word i * 5 modulo 16. Every double round, scratchpad write and
 data-dependent read keeps that layout, so the SIMD form computes RFC 7914's scrypt
 and agrees with the scalar form on every input.
 */
module ScryptSse {
  import opened Arrays
  import opened SalsaSpec
  import Scrypt

  // ---------- vectors ----------

  datatype Vec = Vec(a: Word, b: Word, c: Word, d: Word)

  function VecAdd(x: Vec, y: Vec): Vec {
    Vec(Add32(x.a, y.a), Add32(x.b, y.b), Add32(x.c, y.c), Add32(x.d, y.d))
  }

  function VecXor(x: Vec, y: Vec): Vec {
    Vec(Xor32(x.a, y.a), Xor32(x.b, y.b), Xor32(x.c, y.c), Xor32(x.d, y.d))
  }

  function Left32(x: Word, n: Word): Word
    requires n <= 32
  {
    x << n
  }

  function Right32(x: Word, n: Word): Word
    requires n <= 32
  {
    x >> n
  }

  function VecLeft(x: Vec, n: Word): Vec
    requires n <= 32
  {
    Vec(Left32(x.a, n), Left32(x.b, n), Left32(x.c, n), Left32(x.d, n))
  }

  function VecRight(x: Vec, n: Word): Vec
    requires n <= 32
  {
    Vec(Right32(x.a, n), Right32(x.b, n), Right32(x.c, n), Right32(x.d, n))
  }

  function Lane(x: Vec, k: nat): Word {
    if k == 0 then x.a else if k == 1 then x.b else if k == 2 then x.c else x.d
  }

  /** `_mm_shuffle_epi32`: two bits of `order` choose each result lane. */
  function Shuffle(x: Vec, order: nat): Vec {
    Vec(Lane(x, order % 4), Lane(x, order / 4 % 4), Lane(x, order / 16 % 4), Lane(x, order / 64 % 4))
  }

  /** What one vector step means, lane by lane. */
  function VecStep(x: Vec, y: Vec, z: Vec, n: Word): Vec
    requires n <= 32
  {
    Vec(Step(x.a, y.a, z.a, n), Step(x.b, y.b, z.b, n), Step(x.c, y.c, z.c, n), Step(x.d, y.d, z.d, n))
  }

  predicate IsAmount(n: Word) {
    n == 7 || n == 9 || n == 13 || n == 18
  }

  lemma XorAssociates(x: Word, y: Word, z: Word)
    ensures Xor32(Xor32(x, y), z) == Xor32(x, Xor32(y, z))
  {
  }

  /** Xoring both halves of a rotation in turn xors the rotated word. */
  lemma TwoShiftsRotate(x: Word, t: Word, n: Word)
    requires IsAmount(n)
    ensures Xor32(Xor32(x, Left32(t, n)), Right32(t, 32 - n)) == Xor32(x, Rol(t, n))
  {
    XorAssociates(x, Left32(t, n), Right32(t, 32 - n));
    HalvesMakeRol(t, n);
  }

  lemma HalvesMakeRol(t: Word, n: Word)
    requires IsAmount(n)
    ensures Xor32(Left32(t, n), Right32(t, 32 - n)) == Rol(t, n)
  {
    if n == 7 {
      assert (t << 7) ^ (t >> 25) == (t << 7) | (t >> 25);
    } else if n == 9 {
      assert (t << 9) ^ (t >> 23) == (t << 9) | (t >> 23);
    } else if n == 13 {
      assert (t << 13) ^ (t >> 19) == (t << 13) | (t >> 19);
    } else {
      assert (t << 18) ^ (t >> 14) == (t << 18) | (t >> 14);
    }
  }

  /** The five instructions of one step: add, shift left, xor, shift right, xor. */
  method StepLanes(x: Vec, y: Vec, z: Vec, n: Word) returns (r: Vec)
    requires IsAmount(n)
    ensures r == VecStep(x, y, z, n)
  {
    hide Xor32, Left32, Right32, Rol, Add32;
    var t := VecAdd(y, z);
    r := VecXor(x, VecLeft(t, n));
    r := VecXor(r, VecRight(t, 32 - n));
    TwoShiftsRotate(x.a, t.a, n);
    TwoShiftsRotate(x.b, t.b, n);
    TwoShiftsRotate(x.c, t.c, n);
    TwoShiftsRotate(x.d, t.d, n);
  }

  // ---------- the diagonal layout ----------

  /** The block that four vectors hold. */
  function FromLanes(v0: Vec, v1: Vec, v2: Vec, v3: Vec): Block {
    Block(v0.a, v3.b, v2.c, v1.d, v1.a, v0.b, v3.c, v2.d, v2.a, v1.b, v0.c, v3.d, v3.a, v2.b, v1.c, v0.d)
  }

  function BlockOf(s: seq<Vec>, at: nat): Block
    requires at + 4 <= |s|
  {
    FromLanes(s[at], s[at + 1], s[at + 2], s[at + 3])
  }

  function PairOf(s: seq<Vec>): Pair
    requires |s| == 8
  {
    Pair(BlockOf(s, 0), BlockOf(s, 4))
  }

  /** The union's 32-bit view of the vectors. */
  function Word32(s: seq<Vec>, k: nat): Word
    requires k < 4 * |s|
  {
    Lane(s[k / 4], k % 4)
  }

  // ---------- the core ----------

  lemma ShufflesTurn(x: Vec)
    ensures Shuffle(x, 0x93) == Vec(x.d, x.a, x.b, x.c)
    ensures Shuffle(x, 0x4E) == Vec(x.c, x.d, x.a, x.b)
    ensures Shuffle(x, 0x39) == Vec(x.b, x.c, x.d, x.a)
  {
  }

  /** The "columns" half of the loop body. */
  method ColumnHalf(v0: Vec, v1: Vec, v2: Vec, v3: Vec) returns (x0: Vec, x1: Vec, x2: Vec, x3: Vec)
    ensures FromLanes(x0, x1, x2, x3) == ColumnRound(FromLanes(v0, v1, v2, v3))
  {
    hide Step;
    x1 := StepLanes(v1, v0, v3, 7);
    x2 := StepLanes(v2, x1, v0, 9);
    x3 := StepLanes(v3, x2, x1, 13);
    x0 := StepLanes(v0, x3, x2, 18);
  }

  /** The "rows" half with its two rearrangements. */
  method RowHalf(v0: Vec, v1: Vec, v2: Vec, v3: Vec) returns (x0: Vec, x1: Vec, x2: Vec, x3: Vec)
    ensures FromLanes(x0, x1, x2, x3) == RowRound(FromLanes(v0, v1, v2, v3))
  {
    hide Step, Shuffle;
    ShufflesTurn(v1);
    ShufflesTurn(v2);
    ShufflesTurn(v3);
    x1 := Shuffle(v1, 0x93);
    x2 := Shuffle(v2, 0x4E);
    x3 := Shuffle(v3, 0x39);
    x3 := StepLanes(x3, v0, x1, 7);
    x2 := StepLanes(x2, x3, v0, 9);
    x1 := StepLanes(x1, x2, x3, 13);
    x0 := StepLanes(v0, x1, x2, 18);
    ShufflesTurn(x1);
    ShufflesTurn(x2);
    ShufflesTurn(x3);
    x1 := Shuffle(x1, 0x39);
    x2 := Shuffle(x2, 0x4E);
    x3 := Shuffle(x3, 0x93);
  }

  /** `xorSalsa8SSE2`: combines the block at `from` into the one at `to` and applies the core. */
  method XorSalsa8(x: array<Vec>, to: nat, from: nat)
    requires x.Length == 8 && ((to == 0 && from == 4) || (to == 4 && from == 0))
    modifies x
    ensures BlockOf(x[..], to) == Salsa8(XorBlock(old(BlockOf(x[..], to)), old(BlockOf(x[..], from))))
    ensures forall k :: 0 <= k < 8 && !(to <= k < to + 4) ==> x[k] == old(x[k])
  {
    hide RowRound, ColumnRound, XorBlock, AddBlock, FromLanes;
    var x0, x1, x2, x3 := CombineLanes(x, to, from);
    ghost var b, middle := BlockOf(x[..], to), x[..];
    var i := 0;
    while i < 8
      invariant i % 2 == 0 && i <= 8 && FromLanes(x0, x1, x2, x3) == DoubleRounds(b, i / 2) && x[..] == middle
    {
      x0, x1, x2, x3 := ColumnHalf(x0, x1, x2, x3);
      x0, x1, x2, x3 := RowHalf(x0, x1, x2, x3);
      i := i + 2;
    }
    AddInto(x, to, x0, x1, x2, x3);
  }

  method CombineLanes(x: array<Vec>, to: nat, from: nat) returns (x0: Vec, x1: Vec, x2: Vec, x3: Vec)
    requires x.Length == 8 && ((to == 0 && from == 4) || (to == 4 && from == 0))
    modifies x
    ensures BlockOf(x[..], to) == FromLanes(x0, x1, x2, x3)
      == XorBlock(old(BlockOf(x[..], to)), old(BlockOf(x[..], from)))
    ensures forall k :: 0 <= k < 8 && !(to <= k < to + 4) ==> x[k] == old(x[k])
  {
    hide VecXor, FromLanes, XorBlock;
    XorLanes(x[to], x[to + 1], x[to + 2], x[to + 3], x[from], x[from + 1], x[from + 2], x[from + 3]);
    x0 := VecXor(x[to], x[from]);
    x1 := VecXor(x[to + 1], x[from + 1]);
    x2 := VecXor(x[to + 2], x[from + 2]);
    x3 := VecXor(x[to + 3], x[from + 3]);
    x[to], x[to + 1], x[to + 2], x[to + 3] := x0, x1, x2, x3;
  }

  method AddInto(x: array<Vec>, to: nat, x0: Vec, x1: Vec, x2: Vec, x3: Vec)
    requires x.Length == 8 && (to == 0 || to == 4)
    modifies x
    ensures BlockOf(x[..], to) == AddBlock(old(BlockOf(x[..], to)), FromLanes(x0, x1, x2, x3))
    ensures forall k :: 0 <= k < 8 && !(to <= k < to + 4) ==> x[k] == old(x[k])
  {
    hide VecAdd, FromLanes, AddBlock;
    AddLanes(x[to], x[to + 1], x[to + 2], x[to + 3], x0, x1, x2, x3);
    x[to], x[to + 1], x[to + 2], x[to + 3] := VecAdd(x[to], x0), VecAdd(x[to + 1], x1), VecAdd(x[to + 2], x2),
      VecAdd(x[to + 3], x3);
  }

  lemma XorLanes(a0: Vec, a1: Vec, a2: Vec, a3: Vec, b0: Vec, b1: Vec, b2: Vec, b3: Vec)
    ensures FromLanes(VecXor(a0, b0), VecXor(a1, b1), VecXor(a2, b2), VecXor(a3, b3))
      == XorBlock(FromLanes(a0, a1, a2, a3), FromLanes(b0, b1, b2, b3))
  {
    hide Xor32;
  }

  lemma AddLanes(a0: Vec, a1: Vec, a2: Vec, a3: Vec, b0: Vec, b1: Vec, b2: Vec, b3: Vec)
    ensures FromLanes(VecAdd(a0, b0), VecAdd(a1, b1), VecAdd(a2, b2), VecAdd(a3, b3))
      == AddBlock(FromLanes(a0, a1, a2, a3), FromLanes(b0, b1, b2, b3))
  {
    hide Add32;
  }

  method SseBlockMix(x: array<Vec>)
    requires x.Length == 8
    modifies x
    ensures PairOf(x[..]) == BlockMix(old(PairOf(x[..])))
  {
    hide Salsa8, XorBlock, FromLanes;
    ghost var p := x[..];
    XorSalsa8(x, 0, 4);
    ghost var q := x[..];
    assert BlockOf(q, 4) == BlockOf(p, 4);
    XorSalsa8(x, 4, 0);
    assert BlockOf(x[..], 0) == BlockOf(q, 0);
  }

  // ---------- the scratchpad ----------

  predicate StoredEntry(v: seq<Vec>, p: Pair, t: nat) {
    8 * t + 8 <= |v| && PairOf(v[8 * t..8 * t + 8]) == Filled(p, t)
  }

  /** The scratchpad's first `n` entries hold the successive states, each in lanes. */
  predicate Stored(v: seq<Vec>, p: Pair, n: nat) {
    && |v| == 8 * 1024 && n <= 1024
    && forall t :: 0 <= t < n ==> StoredEntry(v, p, t)
  }

  lemma StoredNext(before: seq<Vec>, v: seq<Vec>, p: Pair, n: nat, x: seq<Vec>)
    requires n < 1024 && |v| == |before| == 8 * 1024 && |x| == 8
    requires v == before[..8 * n] + x + before[8 * n + 8..]
    requires Stored(before, p, n) && PairOf(x) == Filled(p, n)
    ensures Stored(v, p, n + 1)
  {
    hide PairOf, Filled;
    forall t | 0 <= t < n + 1
      ensures StoredEntry(v, p, t)
    {
      if t < n {
        assert StoredEntry(before, p, t);
        assert v[8 * t..8 * t + 8] == before[8 * t..8 * t + 8];
      } else {
        assert v[8 * n..8 * n + 8] == x;
      }
    }
  }

  lemma NothingStored(v: seq<Vec>, p: Pair)
    requires |v| == 8 * 1024
    ensures Stored(v, p, 0)
  {
  }

  lemma StoredAt(v: seq<Vec>, p: Pair, t: nat)
    requires Stored(v, p, 1024) && t < 1024
    ensures 8 * t + 8 <= |v| && PairOf(v[8 * t..8 * t + 8]) == Filled(p, t)
  {
    assert StoredEntry(v, p, t);
  }

  method SseFill(x: array<Vec>, v: array<Vec>)
    requires x.Length == 8 && v.Length == 8 * 1024 && x != v
    modifies x, v
    ensures PairOf(x[..]) == Filled(old(PairOf(x[..])), N) && Stored(v[..], old(PairOf(x[..])), N)
  {
    hide BlockMix, PairOf, Stored;
    ghost var p := PairOf(x[..]);
    NothingStored(v[..], p);
    for i := 0 to 1024
      invariant PairOf(x[..]) == Filled(p, i) && Stored(v[..], p, i)
    {
      ghost var before := v[..];
      CopyTo(v, 8 * i, x[..]);
      StoredNext(before, v[..], p, i, x[..]);
      SseBlockMix(x);
    }
  }

  /** The reading loop: the word the lanes hold at position 16 is the second block's first. */
  method SseMix(x: array<Vec>, v: array<Vec>, ghost p: Pair)
    requires x.Length == 8 && v.Length == 8 * 1024 && x != v && Stored(v[..], p, N)
    requires PairOf(x[..]) == Filled(p, N)
    modifies x
    ensures PairOf(x[..]) == RoMix(p)
  {
    hide BlockMix, PairOf, Stored, XorPair, ReadIndex, Filled, LowBits, Word32;
    ghost var start := Filled(p, N);
    for i := 0 to 1024
      invariant PairOf(x[..]) == Mixed(p, start, i)
    {
      ghost var y := PairOf(x[..]);
      FirstOfSecond(x[..]);
      var j := 8 * LowBits(Word32(x[..], 16));
      StoredAt(v[..], p, ReadIndex(y));
      XorInto(x, v, j);
      SseBlockMix(x);
      assert Mixed(p, start, i + 1) == BlockMix(XorPair(y, Filled(p, ReadIndex(y))));
    }
  }

  lemma FirstOfSecond(s: seq<Vec>)
    requires |s| == 8
    ensures LowBits(Word32(s, 16)) == ReadIndex(PairOf(s)) < 1024
  {
  }

  /** `X.i128[k] = _mm_xor_si128(X.i128[k], V[j + k])` */
  method XorInto(x: array<Vec>, v: array<Vec>, j: nat)
    requires x.Length == 8 && j + 8 <= v.Length && x != v
    modifies x
    ensures PairOf(x[..]) == XorPair(old(PairOf(x[..])), PairOf(v[j..j + 8]))
  {
    hide VecXor, PairOf, XorPair;
    ghost var before := x[..];
    for k := 0 to 8
      invariant forall t :: 0 <= t < 8 ==> x[t] == if t < k then VecXor(before[t], v[j + t]) else before[t]
    {
      x[k] := VecXor(x[k], v[j + k]);
    }
    XorVectors(x[..], before, v[j..j + 8]);
  }

  lemma XorVectors(s: seq<Vec>, a: seq<Vec>, b: seq<Vec>)
    requires |s| == |a| == |b| == 8 && forall k :: 0 <= k < 8 ==> s[k] == VecXor(a[k], b[k])
    ensures PairOf(s) == XorPair(PairOf(a), PairOf(b))
  {
    hide VecXor, FromLanes, XorBlock;
    XorLanes(a[0], a[1], a[2], a[3], b[0], b[1], b[2], b[3]);
    XorLanes(a[4], a[5], a[6], a[7], b[4], b[5], b[6], b[7]);
  }

  // ---------- loading and unloading ----------

  /** Writes word `k` through the union's 32-bit view. */
  method StoreWord(x: array<Vec>, k: nat, w: Word)
    requires k < 4 * x.Length
    modifies x
    ensures forall t :: 0 <= t < 4 * x.Length ==> Word32(x[..], t) == if t == k then w else old(Word32(x[..], t))
  {
    var lanes, at := x[k / 4], k % 4;
    x[k / 4] := if at == 0 then lanes.(a := w) else if at == 1 then lanes.(b := w) else if at == 2 then lanes.(c := w)
      else lanes.(d := w);
  }

  function Spread(i: nat): (d: nat)
    requires i < 16
    ensures d < 16
  {
    i * 5 % 16
  }

  /** The block word that lane word `k` of a pair holds. */
  function Diagonal(k: nat): (d: nat)
    requires k < 32
    ensures d < 32
  {
    if k < 16 then Spread(k) else 16 + Spread(k - 16)
  }

  lemma SpreadValues()
    ensures Spread(0) == 0 && Spread(1) == 5 && Spread(2) == 10 && Spread(3) == 15
    ensures Spread(4) == 4 && Spread(5) == 9 && Spread(6) == 14 && Spread(7) == 3
    ensures Spread(8) == 8 && Spread(9) == 13 && Spread(10) == 2 && Spread(11) == 7
    ensures Spread(12) == 12 && Spread(13) == 1 && Spread(14) == 6 && Spread(15) == 11
  {
  }

  lemma DiagonalValues(base: nat)
    requires base == 0 || base == 16
    ensures Diagonal(base) == base && Diagonal(base + 1) == base + 5 && Diagonal(base + 2) == base + 10
      && Diagonal(base + 3) == base + 15
    ensures Diagonal(base + 4) == base + 4 && Diagonal(base + 5) == base + 9 && Diagonal(base + 6) == base + 14
      && Diagonal(base + 7) == base + 3
    ensures Diagonal(base + 8) == base + 8 && Diagonal(base + 9) == base + 13 && Diagonal(base + 10) == base + 2
      && Diagonal(base + 11) == base + 7
    ensures Diagonal(base + 12) == base + 12 && Diagonal(base + 13) == base + 1 && Diagonal(base + 14) == base + 6
      && Diagonal(base + 15) == base + 11
  {
    hide Spread;
    SpreadValues();
  }

  predicate LoadedFrom(s: seq<Vec>, b: seq<Word>, n: nat)
    requires |s| == 8 && |b| == 32
  {
    n <= 32 && forall k :: 0 <= k < n ==> Word32(s, k) == b[Diagonal(k)]
  }

  lemma LoadedVec(s: seq<Vec>, b: seq<Word>, q: nat, i: nat, j: nat, k: nat, l: nat)
    requires |s| == 8 && |b| == 32 && LoadedFrom(s, b, 32) && q < 8
    requires i == Diagonal(4 * q) && j == Diagonal(4 * q + 1) && k == Diagonal(4 * q + 2) && l == Diagonal(4 * q + 3)
    ensures s[q] == Vec(b[i], b[j], b[k], b[l])
  {
    hide Diagonal;
    assert Word32(s, 4 * q) == s[q].a && Word32(s, 4 * q + 1) == s[q].b;
    assert Word32(s, 4 * q + 2) == s[q].c && Word32(s, 4 * q + 3) == s[q].d;
  }

  lemma LoadedBlock(s: seq<Vec>, b: seq<Word>, half: nat)
    requires |s| == 8 && |b| == 32 && LoadedFrom(s, b, 32) && half < 2
    ensures BlockOf(s, 4 * half) == Scrypt.BlockOf(b, 16 * half)
  {
    hide LoadedFrom, Diagonal;
    var base := 16 * half;
    DiagonalValues(base);
    LoadedVec(s, b, 4 * half, base + 0, base + 5, base + 10, base + 15);
    LoadedVec(s, b, 4 * half + 1, base + 4, base + 9, base + 14, base + 3);
    LoadedVec(s, b, 4 * half + 2, base + 8, base + 13, base + 2, base + 7);
    LoadedVec(s, b, 4 * half + 3, base + 12, base + 1, base + 6, base + 11);
  }

  /** Vectors whose lane words are taken along the diagonals hold the pair itself. */
  lemma LoadedPair(s: seq<Vec>, b: seq<Word>)
    requires |s| == 8 && |b| == 32 && LoadedFrom(s, b, 32)
    ensures PairOf(s) == Scrypt.PairOf(b)
  {
    hide LoadedFrom, BlockOf, Scrypt.BlockOf;
    LoadedBlock(s, b, 0);
    LoadedBlock(s, b, 1);
  }

  method Load(b: seq<Word>, x: array<Vec>)
    requires |b| == 32 && x.Length == 8
    modifies x
    ensures PairOf(x[..]) == Scrypt.PairOf(b)
  {
    hide PairOf, Scrypt.PairOf, Word32, Diagonal;
    for k := 0 to 32
      invariant LoadedFrom(x[..], b, k)
    {
      StoreWord(x, k, b[Diagonal(k)]);
    }
    LoadedPair(x[..], b);
  }

  /** 5 * 13 is 1 modulo 16, so multiplying by 5 loses nothing. */
  lemma DiagonalOneToOne(j: nat, k: nat)
    requires j < 32 && k < 32 && Diagonal(j) == Diagonal(k)
    ensures j == k
  {
    hide Spread;
    if j < 16 {
      SpreadOneToOne(j, k);
    } else {
      SpreadOneToOne(j - 16, k - 16);
    }
  }

  lemma SpreadOneToOne(i: nat, j: nat)
    requires i < 16 && j < 16 && Spread(i) == Spread(j)
    ensures i == j
  {
    hide Spread;
    SpreadUndone(i);
    SpreadUndone(j);
  }

  lemma SpreadUndone(i: nat)
    requires i < 16
    ensures Spread(i) * 13 % 16 == i
  {
    var q := i * 5 / 16;
    assert i * 5 % 16 * 13 == 16 * (4 * i - 13 * q) + i;
  }

  method Unload(x: array<Vec>) returns (b: seq<Word>)
    requires x.Length == 8
    ensures |b| == 32 && Scrypt.PairOf(b) == PairOf(x[..])
  {
    hide PairOf, Scrypt.PairOf, Word32, Diagonal;
    b := seq(32, _ => 0);
    for k := 0 to 32
      invariant |b| == 32 && LoadedFrom(x[..], b, k)
    {
      forall t | 0 <= t < k
        ensures Diagonal(t) != Diagonal(k)
      {
        if Diagonal(t) == Diagonal(k) {
          DiagonalOneToOne(t, k);
        }
      }
      b := b[Diagonal(k) := Word32(x[..], k)];
    }
    LoadedPair(x[..], b);
  }

  // ---------- the whole function ----------

  /** `scrypt_1024_1_1_256_sp_sse2` */
  method ScryptSse2(kdf: Scrypt.Kdf, input: Scrypt.Bytes, v: array<Vec>) returns (output: Scrypt.Bytes)
    requires Scrypt.Derives(kdf) && v.Length == 8 * 1024
    modifies v
    ensures output == Scrypt.ScryptSpec(kdf, input)
  {
    hide PairOf, Scrypt.PairOf, Scrypt.WordsOfPair, Stored, RoMix, Filled;
    var b := kdf.derive(input);
    ghost var p := Scrypt.PairOf(b);
    var x := new Vec[8];
    Load(b, x);
    SseFill(x, v);
    SseMix(x, v, p);
    b := Unload(x);
    Scrypt.WordsOfPairOf(b);
    output := kdf.finish(input, b);
  }

  /** Both forms give the same bytes for every input, whatever their scratchpads held. */
  method BothAgree(kdf: Scrypt.Kdf, input: Scrypt.Bytes) returns (generic: Scrypt.Bytes, sse: Scrypt.Bytes)
    requires Scrypt.Derives(kdf)
    ensures generic == sse == Scrypt.ScryptSpec(kdf, input)
  {
    var words, lanes := new Word[32 * 1024], new Vec[8 * 1024];
    generic := Scrypt.ScryptGeneric(kdf, input, words);
    sse := ScryptSse2(kdf, input, lanes);
  }
}
