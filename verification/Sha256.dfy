/**
 The source's SHA-256: the transform with its schedule kept in sixteen words and its
 working variables passed in rotated order, the incremental context, and the one-shot
 function.
 */
module Sha256 {
  import opened Streaming
  import opened Sha256Spec

  // ---------- the transform ----------

  function Rol(x: Word, n: Word): Word
    requires n <= 32
  {
    (x << n) | (x >> (32 - n))
  }

  function Ep0(x: Word): Word {
    Xor3(Rol(x, 30), Rol(x, 19), Rol(x, 10))
  }

  function Ep1(x: Word): Word {
    Xor3(Rol(x, 26), Rol(x, 21), Rol(x, 7))
  }

  function Sig0(x: Word): Word {
    Xor3(Rol(x, 25), Rol(x, 14), x >> 3)
  }

  function Sig1(x: Word): Word {
    Xor3(Rol(x, 15), Rol(x, 13), x >> 10)
  }

  /** The source's left rotations are the standard's right rotations. */
  lemma SameFunctions(x: Word)
    ensures Ep0(x) == BigSigma0(x) && Ep1(x) == BigSigma1(x) && Sig0(x) == SmallSigma0(x) && Sig1(x) == SmallSigma1(x)
  {
    hide Rol, Rotr, Xor3;
    RolIsRotr(x, 2); RolIsRotr(x, 13); RolIsRotr(x, 22);
    RolIsRotr(x, 6); RolIsRotr(x, 11); RolIsRotr(x, 25);
    RolIsRotr(x, 7); RolIsRotr(x, 18);
    RolIsRotr(x, 17); RolIsRotr(x, 19);
  }

  lemma OrCommutes(x: Word, y: Word)
    ensures x | y == y | x
  {
  }

  lemma RolIsRotr(x: Word, n: Word)
    requires n <= 32
    ensures Rol(x, 32 - n) == Rotr(x, n)
  {
    OrCommutes(x << (32 - n), x >> n);
    assert 32 - (32 - n) == n;
  }

  /** `sha256_round` changes only two of the eight variables. */
  method RoundInPlace(a: Word, b: Word, c: Word, d: Word, e: Word, f: Word, g: Word, h: Word, x: Word, k: Word)
    returns (d': Word, h': Word)
    ensures Round(Hash(a, b, c, d, e, f, g, h), x, k) == Hash(h', a, b, c, d', e, f, g)
  {
    hide Ep0, Ep1, BigSigma0, BigSigma1, Ch, Maj, Add;
    SameFunctions(a);
    SameFunctions(e);
    var t1 := Add(Add(Add(Add(h, Ep1(e)), Ch(e, f, g)), k), x);
    var t2 := Add(Ep0(a), Maj(a, b, c));
    d' := Add(d, t1);
    h' := Add(t1, t2);
  }

  /** Eight rounds bring every variable back to its place. */
  method EightRounds(v: Hash, w: seq<Word>, k: seq<Word>) returns (r: Hash)
    requires |w| == |k| == 8
    ensures r == Eight(v, w, k)
  {
    hide Round;
    var A, B, C, D, E, F, G, H := v.a, v.b, v.c, v.d, v.e, v.f, v.g, v.h;
    D, H := RoundInPlace(A, B, C, D, E, F, G, H, w[0], k[0]);
    C, G := RoundInPlace(H, A, B, C, D, E, F, G, w[1], k[1]);
    B, F := RoundInPlace(G, H, A, B, C, D, E, F, w[2], k[2]);
    A, E := RoundInPlace(F, G, H, A, B, C, D, E, w[3], k[3]);
    H, D := RoundInPlace(E, F, G, H, A, B, C, D, w[4], k[4]);
    G, C := RoundInPlace(D, E, F, G, H, A, B, C, w[5], k[5]);
    F, B := RoundInPlace(C, D, E, F, G, H, A, B, w[6], k[6]);
    E, A := RoundInPlace(B, C, D, E, F, G, H, A, w[7], k[7]);
    r := Hash(A, B, C, D, E, F, G, H);
  }

  function Eight(v: Hash, w: seq<Word>, k: seq<Word>): Hash
    requires |w| == |k| == 8
  {
    var v4 := Round(Round(Round(Round(v, w[0], k[0]), w[1], k[1]), w[2], k[2]), w[3], k[3]);
    Round(Round(Round(Round(v4, w[4], k[4]), w[5], k[5]), w[6], k[6]), w[7], k[7])
  }

  /** Words `at` to `at + 7` of the schedule and the constants. */
  lemma EightAreRounds(v: Hash, block: Bytes, at: nat, w: seq<Word>, k: seq<Word>)
    requires |w| == |k| == 8
    requires forall i :: 0 <= i < 8 ==> w[i] == W(block, at + i)
    requires forall i :: 0 <= i < 8 ==> k[i] == K(at + i)
    ensures Eight(Rounds(v, block, at), w, k) == Rounds(v, block, at + 8)
  {
    hide Round, W, K;
    assert w[0] == W(block, at + 0) && w[1] == W(block, at + 1) && w[2] == W(block, at + 2) && w[3] == W(block, at + 3);
    assert w[4] == W(block, at + 4) && w[5] == W(block, at + 5) && w[6] == W(block, at + 6) && w[7] == W(block, at + 7);
    assert k[0] == K(at + 0) && k[1] == K(at + 1) && k[2] == K(at + 2) && k[3] == K(at + 3);
    assert k[4] == K(at + 4) && k[5] == K(at + 5) && k[6] == K(at + 6) && k[7] == K(at + 7);
    RoundsNext(v, block, at); RoundsNext(v, block, at + 1); RoundsNext(v, block, at + 2); RoundsNext(v, block, at + 3);
    RoundsNext(v, block, at + 4); RoundsNext(v, block, at + 5); RoundsNext(v, block, at + 6); RoundsNext(v, block, at
      + 7);
  }

  lemma RoundsNext(v: Hash, block: Bytes, n: nat)
    ensures Rounds(v, block, n + 1) == Round(Rounds(v, block, n), W(block, n), K(n))
  {
  }

  lemma ConstantRowAt(row: nat)
    requires row < 8
    ensures forall i :: 0 <= i < 8 ==> ConstantRow(row)[i] == K(8 * row + i)
  {
    hide ConstantRow;
    forall i | 0 <= i < 8
      ensures ConstantRow(row)[i] == K(8 * row + i)
    {
      assert (8 * row + i) / 8 == row && (8 * row + i) % 8 == i;
    }
  }

  /** The sixteen words hold schedule words `at` to `at + 15`. */
  predicate Holds(data: seq<Word>, block: Bytes, at: nat) {
    |data| == 16 && forall i :: 0 <= i < 16 ==> data[i] == W(block, at + i)
  }

  /** Sixteen rounds with constants `at` to `at + 15`. */
  method SixteenRounds(v: Hash, data: array<Word>, ghost block: Bytes, at: nat, ghost start: Hash) returns (r: Hash)
    requires data.Length == 16 && Holds(data[..], block, at) && at % 16 == 0 && at < 64
    requires v == Rounds(start, block, at)
    ensures r == Rounds(start, block, at + 16)
  {
    hide Round, W, K, ConstantRow, Eight, Rounds;
    var row := at / 8;
    ConstantRowAt(row);
    ConstantRowAt(row + 1);
    assert at == 8 * row;
    EightAreRounds(start, block, at, data[..8], ConstantRow(row));
    EightAreRounds(start, block, at + 8, data[8..], ConstantRow(row + 1));
    r := EightRounds(v, data[..8], ConstantRow(row));
    r := EightRounds(r, data[8..], ConstantRow(row + 1));
  }

  /** The in-place update of the sixteen words gives the next sixteen schedule words. */
  method NextSchedule(data: array<Word>, ghost block: Bytes, ghost at: nat)
    requires data.Length == 16 && Holds(data[..], block, at)
    modifies data
    ensures Holds(data[..], block, at + 16)
  {
    hide W, Add, Sig0, Sig1;
    for i := 0 to 16
      invariant forall j :: 0 <= j < i ==> data[j] == W(block, at + 16 + j)
      invariant forall j :: i <= j < 16 ==> data[j] == W(block, at + j)
    {
      ScheduleStep(block, at + 16 + i);
      assert data[(i + 14) % 16] == W(block, at + i + 14);
      assert data[(i + 9) % 16] == W(block, at + i + 9);
      assert data[(i + 1) % 16] == W(block, at + i + 1);
      data[i] := Add(data[i], Add(Add(Sig1(data[(i + 14) % 16]), data[(i + 9) % 16]), Sig0(data[(i + 1) % 16])));
    }
  }

  lemma ScheduleStep(block: Bytes, t: nat)
    requires t >= 16
    ensures W(block, t) == Add(W(block, t - 16), Add(Add(Sig1(W(block, t - 2)), W(block, t - 7)),
      Sig0(W(block, t - 15))))
  {
    hide Add, Sig0, Sig1, SmallSigma0, SmallSigma1;
    SameFunctions(W(block, t - 2));
    SameFunctions(W(block, t - 15));
    AddCommutes(W(block, t - 16), Add(Add(Sig1(W(block, t - 2)), W(block, t - 7)), Sig0(W(block, t - 15))));
  }

  lemma AddCommutes(x: Word, y: Word)
    ensures Add(x, y) == Add(y, x)
  {
  }

  /** `sha256TransformGeneric` on bytes: the sixteen words are loaded with a byte swap. */
  method Transform(h: Hash, block: Bytes) returns (r: Hash)
    requires |block| == 64
    ensures r == Compress(h, block)
  {
    hide Rounds, AddHash, Add, MessageWord, Holds;
    var data := new Word[16](i => MessageWord(block, i));
    var v := h;
    Loaded(data[..], block);
    NoRounds(h, block);
    v := SixteenRounds(v, data, block, 0, h);
    NextSchedule(data, block, 0);
    v := SixteenRounds(v, data, block, 16, h);
    NextSchedule(data, block, 16);
    v := SixteenRounds(v, data, block, 32, h);
    NextSchedule(data, block, 32);
    v := SixteenRounds(v, data, block, 48, h);
    r := AddHash(h, v);
  }

  lemma Loaded(data: seq<Word>, block: Bytes)
    requires |data| == 16 && forall i :: 0 <= i < 16 ==> data[i] == MessageWord(block, i)
    ensures Holds(data, block, 0)
  {
    hide MessageWord;
    assert forall i :: 0 <= i < 16 ==> W(block, 0 + i) == MessageWord(block, i);
  }

  lemma NoRounds(h: Hash, block: Bytes)
    ensures Rounds(h, block, 0) == h
  {
  }

  // ---------- padding the last block or two ----------

  /** What follows the message's incomplete block. */
  function Tail(rest: nat, length: nat): Bytes
    requires rest < 64
  {
    if rest > 55 then [0x80] + ZeroBytes(63 - rest)
      + (ZeroBytes(56) + BigEndian(8 * length % 0x1_0000_0000_0000_0000, 8))
    else [0x80] + ZeroBytes(55 - rest) + BigEndian(8 * length % 0x1_0000_0000_0000_0000, 8)
  }

  lemma {:induction false} RestLength(msg: Bytes)
    decreases |msg|
    ensures |Rest(64, msg)| == |msg| % 64
  {
    if |msg| >= 64 {
      RestLength(msg[64..]);
    }
  }

  lemma TailIsPadding(msg: Bytes)
    ensures Padded(msg) == msg + Tail(|Rest(64, msg)|, |msg|)
  {
    hide BigEndian;
    RestLength(msg);
    var rest := |msg| % 64;
    if rest > 55 {
      assert PaddingZeros(|msg|) == 119 - rest;
      assert ZeroBytes(63 - rest) + ZeroBytes(56) == ZeroBytes(119 - rest);
      var length := BigEndian(8 * |msg| % 0x1_0000_0000_0000_0000, 8);
      assert ZeroBytes(63 - rest) + (ZeroBytes(56) + length) == ZeroBytes(119 - rest) + length;
      assert [0x80] + ZeroBytes(63 - rest) + (ZeroBytes(56) + length) == [0x80] + ZeroBytes(119 - rest) + length;
    } else {
      assert PaddingZeros(|msg|) == 55 - rest;
    }
  }

  /** The digest from the state after the message. */
  lemma DigestFromState(msg: Bytes)
    ensures var s := Absorb(64, Compress, Buffered(InitialHash(), []), msg);
      Digest(msg) == HashBytes(FoldBlocks(64, Compress, s.chain, s.pending + Tail(|s.pending|, |msg|)))
  {
    hide HashBytes, Compress;
    TailIsPadding(msg);
    AbsorbIsFold(64, Compress, InitialHash(), msg);
    FoldWhole(64, Compress, InitialHash(), msg, Tail(|Rest(64, msg)|, |msg|));
  }

  lemma FoldNone(h: Hash)
    ensures FoldBlocks(64, Compress, h, []) == h
  {
  }

  lemma FoldSingle(h: Hash, a: Bytes)
    requires |a| == 64
    ensures FoldBlocks(64, Compress, h, a) == Compress(h, a)
  {
    hide Compress;
    FoldOne(64, Compress, h, a, []);
    FoldNone(Compress(h, a));
    assert a + [] == a;
  }

  lemma FoldTwo(h: Hash, a: Bytes, b: Bytes)
    requires |a| == |b| == 64
    ensures FoldBlocks(64, Compress, h, a + b) == Compress(Compress(h, a), b)
  {
    hide Compress;
    FoldOne(64, Compress, h, a, b);
    FoldSingle(Compress(h, a), b);
  }

  /** The rest and its tail are one block or two. */
  lemma TailBlocks(rest: Bytes, length: nat)
    requires |rest| < 64
    ensures var bits := BigEndian(8 * length % 0x1_0000_0000_0000_0000, 8);
      rest + Tail(|rest|, length)
      == if |rest| > 55 then (rest + ([0x80] + ZeroBytes(63 - |rest|))) + (ZeroBytes(56) + bits)
         else rest + ([0x80] + ZeroBytes(55 - |rest|) + bits)
  {
    hide BigEndian;
  }

  /** The closing blocks of the one-shot form, whose buffer is cleared first. */
  method Finish(h: Hash, rest: Bytes, length: nat) returns (r: Hash)
    requires |rest| < 64
    ensures r == FoldBlocks(64, Compress, h, rest + Tail(|rest|, length))
  {
    hide Compress, BigEndian, FoldBlocks, Tail;
    var bits := BigEndian(8 * length % 0x1_0000_0000_0000_0000, 8);
    TailBlocks(rest, length);
    var buffer := new bv8[64](i => 0);
    forall i | 0 <= i < |rest| {
      buffer[i] := rest[i];
    }
    buffer[|rest|] := 0x80;
    if |rest| > 64 - 1 - 8 {
      assert buffer[..] == rest + ([0x80] + ZeroBytes(63 - |rest|));
      var lastMsg := ZeroBytes(56) + bits;
      r := Transform(h, buffer[..]);
      FoldTwo(h, buffer[..], lastMsg);
      r := Transform(r, lastMsg);
    } else {
      forall i | 56 <= i < 64 {
        buffer[i] := bits[i - 56];
      }
      assert buffer[..] == rest + ([0x80] + ZeroBytes(55 - |rest|) + bits);
      FoldSingle(h, buffer[..]);
      r := Transform(h, buffer[..]);
    }
  }

  // ---------- the context ----------

  class Context {
    var state: Hash
    const buffer: array<bv8>
    var bufferSize: nat
    var msgSize: nat

    ghost predicate Valid()
      reads this
    {
      buffer.Length == 64 && bufferSize < 64
    }

    ghost function State(): (s: Buffered<Hash>)
      requires Valid()
      reads this, buffer
      ensures |s.pending| < 64
    {
      Buffered(state, buffer[..bufferSize])
    }

    /** `sha256Init` */
    constructor ()
      ensures Valid() && fresh(buffer) && State() == Buffered(InitialHash(), []) && msgSize == 0
    {
      state := InitialHash();
      buffer := new bv8[64](_ => 0);
      bufferSize, msgSize := 0, 0;
    }

    /** Copies into the buffer. */
    method Copy(data: Bytes)
      requires buffer.Length == 64 && bufferSize + |data| <= 64
      modifies this`bufferSize, buffer
      ensures bufferSize == old(bufferSize) + |data| && buffer[..bufferSize] == old(buffer[..bufferSize]) + data
    {
      forall k | 0 <= k < |data| {
        buffer[bufferSize + k] := data[k];
      }
      bufferSize := bufferSize + |data|;
    }

    /** `sha256Update`. The message size is a 64-bit word that wraps. */
    method Update(data: Bytes)
      requires Valid()
      modifies this, buffer
      ensures Valid() && State() == Absorb(64, Compress, old(State()), data)
      ensures msgSize == (old(msgSize) + |data|) % 0x1_0000_0000_0000_0000
    {
      hide Compress, Absorb;
      ghost var start := State();
      var copySize := if 64 - bufferSize <= |data| then 64 - bufferSize else |data|;
      assert data == data[..copySize] + data[copySize..];
      AbsorbAppend(64, Compress, start, data[..copySize], data[copySize..]);
      Fill(data[..copySize]);
      var p, remaining := copySize, |data| - copySize;
      if remaining > 0 {
        var fullRounds := remaining / 64;
        for i := 0 to fullRounds
          invariant Valid() && bufferSize == 0 && p == copySize + 64 * i
          invariant msgSize == old(msgSize)
          invariant Absorb(64, Compress, State(), data[p..]) == Absorb(64, Compress, start, data)
        {
          assert data[p..] == data[p..p + 64] + data[p + 64..];
          AbsorbAppend(64, Compress, State(), data[p..p + 64], data[p + 64..]);
          AbsorbBlock(64, Compress, State(), data[p..p + 64]);
          assert buffer[..0] + data[p..p + 64] == data[p..p + 64];
          state := Transform(state, data[p..p + 64]);
          p := p + 64;
        }
        remaining := remaining - fullRounds * 64;
        AbsorbShort(64, Compress, State(), data[p..]);
        Copy(data[p..]);
      } else {
        AbsorbNothing(64, Compress, State());
        assert data[copySize..] == [];
      }
      msgSize := (msgSize + |data|) % 0x1_0000_0000_0000_0000;
    }

    /** Step 1 of the update: fills the buffer and transforms it once it is full. */
    method Fill(data: Bytes)
      requires Valid() && bufferSize + |data| <= 64
      modifies this`state, this`bufferSize, buffer
      ensures Valid() && State() == Absorb(64, Compress, old(State()), data)
      ensures bufferSize == if old(bufferSize) + |data| < 64 then old(bufferSize) + |data| else 0
    {
      hide Compress;
      ghost var s := State();
      if |data| + bufferSize == 64 {
        AbsorbBlock(64, Compress, s, data);
      }
      Copy(data);
      if bufferSize == 64 {
        assert buffer[..] == s.pending + data;
        state := Transform(state, buffer[..]);
        bufferSize := 0;
      }
    }

    /** `sha256Final` */
    method Final(ghost msg: Bytes) returns (hash: Bytes)
      requires Valid() && State() == Absorb(64, Compress, Buffered(InitialHash(), []), msg)
      requires msgSize == |msg| % 0x1_0000_0000_0000_0000
      modifies this, buffer
      ensures hash == Digest(msg)
    {
      hide Compress, Absorb, Digest, Tail, HashBytes;
      DigestFromState(msg);
      SameTail(bufferSize, |msg|);
      Close();
      hash := HashBytes(state);
    }

    /** The closing blocks, written over what the buffer still holds. */
    method Close()
      requires Valid()
      modifies this`state, buffer
      ensures state == FoldBlocks(64, Compress, old(state), old(buffer[..bufferSize]) + Tail(bufferSize, msgSize))
    {
      hide Compress, BigEndian, FoldBlocks;
      ghost var h, rest := state, buffer[..bufferSize];
      var bits := BigEndian(8 * msgSize % 0x1_0000_0000_0000_0000, 8);
      buffer[bufferSize] := 0x80;
      if bufferSize > 64 - 1 - 8 {
        forall i | bufferSize + 1 <= i < 64 {
          buffer[i] := 0;
        }
        assert buffer[..] == rest + ([0x80] + ZeroBytes(63 - |rest|));
        state := Transform(state, buffer[..]);
        var lastMsg := ZeroBytes(56) + bits;
        FoldOne(64, Compress, h, buffer[..], lastMsg);
        FoldOne(64, Compress, state, lastMsg, []);
        FoldNone(Compress(Compress(h, buffer[..]), lastMsg));
        assert lastMsg + [] == lastMsg;
        assert rest + Tail(|rest|, msgSize) == buffer[..] + lastMsg;
        state := Transform(state, lastMsg);
      } else {
        forall i | bufferSize + 1 <= i < 56 {
          buffer[i] := 0;
        }
        forall i | 56 <= i < 64 {
          buffer[i] := bits[i - 56];
        }
        assert buffer[..] == rest + Tail(|rest|, msgSize);
        FoldOne(64, Compress, h, buffer[..], []);
        FoldNone(Compress(h, buffer[..]));
        assert buffer[..] + [] == buffer[..];
        state := Transform(state, buffer[..]);
      }
    }
  }

  lemma SameTail(rest: nat, length: nat)
    requires rest < 64
    ensures Tail(rest, length % 0x1_0000_0000_0000_0000) == Tail(rest, length)
  {
    hide BigEndian;
    assert 8 * (length % 0x1_0000_0000_0000_0000) % 0x1_0000_0000_0000_0000 == 8 * length % 0x1_0000_0000_0000_0000;
  }

  /** The one-shot `sha256`. */
  method OneShot(data: Bytes) returns (hash: Bytes)
    ensures hash == Digest(data)
  {
    hide Compress, Absorb, Digest, Tail, HashBytes, FoldBlocks, Rest;
    ghost var start := Buffered(InitialHash(), []);
    var state, p := InitialHash(), 0;
    var roundsNum := |data| / 64;
    assert data[0..] == data;
    for i := 0 to roundsNum
      invariant p == 64 * i <= |data|
      invariant Absorb(64, Compress, Buffered(state, []), data[p..]) == Absorb(64, Compress, start, data)
    {
      assert data[p..] == data[p..p + 64] + data[p + 64..];
      AbsorbAppend(64, Compress, Buffered(state, []), data[p..p + 64], data[p + 64..]);
      AbsorbBlock(64, Compress, Buffered(state, []), data[p..p + 64]);
      assert [] + data[p..p + 64] == data[p..p + 64];
      state := Transform(state, data[p..p + 64]);
      p := p + 64;
    }
    ShortData(state, data[p..]);
    DigestFromState(data);
    state := Finish(state, data[p..], |data|);
    hash := HashBytes(state);
  }

  lemma ShortData(h: Hash, data: Bytes)
    requires |data| < 64
    ensures Absorb(64, Compress, Buffered(h, []), data) == Buffered(h, data)
  {
    assert [] + data == data;
  }

  /** Any chunking of a message gives the digest of the whole, which is the one-shot hash. */
  method HashPieces(pieces: seq<Bytes>) returns (hash: Bytes, oneShot: Bytes)
    ensures hash == oneShot == Digest(Joined(pieces))
  {
    hide Compress, Absorb, Digest, FoldBlocks;
    var c := new Context();
    ghost var start := Buffered(InitialHash(), []);
    AbsorbNothing(64, Compress, start);
    assert Joined(pieces[..0]) == [];
    var joined := [];
    for i := 0 to |pieces|
      invariant c.Valid() && fresh(c) && fresh(c.buffer) && joined == Joined(pieces[..i])
      invariant c.State() == Absorb(64, Compress, start, joined) && c.msgSize == |joined| % 0x1_0000_0000_0000_0000
    {
      AbsorbAppend(64, Compress, start, joined, pieces[i]);
      JoinedAppend(pieces[..i], pieces[i]);
      assert pieces[..i] + [pieces[i]] == pieces[..i + 1];
      c.Update(pieces[i]);
      joined := joined + pieces[i];
    }
    assert pieces[..|pieces|] == pieces;
    hash := c.Final(joined);
    oneShot := OneShot(joined);
  }
}
