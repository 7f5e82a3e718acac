/**
 The source's SHA-3 and Keccak hashing around an arbitrary permutation of the 200-byte
 state. The context has no buffer: data is xored straight into the state, and the number
 of bytes of the unfinished block says where to go on. This refines the sponge that
 absorbs padded blocks, FIPS 202 sections 4 and 5.1.
 */
module Sha3 {
  import opened Streaming

  function XorByte(a: bv8, b: bv8): bv8 {
    a ^ b
  }

  /** `data` xored into `state` from byte `at` on. */
  function XorAt(state: Bytes, at: nat, data: Bytes): (r: Bytes)
    ensures |r| == |state|
  {
    seq(|state|, i requires 0 <= i < |state| => if at <= i < at + |data| then XorByte(state[i], data[i - at])
      else state[i])
  }

  // ---------- the sponge ----------

  /** The permutation keeps the state's size. */
  ghost predicate IsPermutation(p: Bytes -> Bytes) {
    forall s: Bytes :: |s| == 200 ==> |p(s)| == 200
  }

  /** One block: xored into the state's first bytes, then permuted. */
  function Step(p: Bytes -> Bytes): (Bytes, Bytes) -> Bytes {
    (s: Bytes, block: Bytes) => p(XorAt(s, 0, block))
  }

  function DomainByte(isKeccak: bool): bv8 {
    if isKeccak then 0x01 else 0x06
  }

  /** The suffix bits and the multi-rate padding, after `rest` bytes of the last block: the
      domain byte, zeros, and the final bit in the block's last byte, which may be the same. */
  function Padding(rate: nat, rest: nat, isKeccak: bool): (r: Bytes)
    requires rest < rate
    ensures |r| == rate - rest
  {
    if rest + 1 == rate then [XorByte(DomainByte(isKeccak), 0x80)]
    else [DomainByte(isKeccak)] + ZeroBytes(rate - rest - 2) + [0x80]
  }

  function Rate(hashSize: nat): int {
    200 - 2 * hashSize
  }

  function Digest(p: Bytes -> Bytes, hashSize: nat, isKeccak: bool, msg: Bytes): Bytes
    requires 0 < Rate(hashSize)
  {
    var rate := Rate(hashSize);
    var padded := msg + Padding(rate, |Rest(rate, msg)|, isKeccak);
    var s := FoldBlocks(rate, Step(p), ZeroBytes(200), padded);
    if hashSize <= |s| then s[..hashSize] else s
  }

  // ---------- xor ----------

  /** Data xored in two pieces is data xored at once. */
  lemma XorPieces(state: Bytes, at: nat, a: Bytes, b: Bytes)
    ensures XorAt(XorAt(state, at, a), at + |a|, b) == XorAt(state, at, a + b)
  {
    hide XorByte;
    var l, r := XorAt(XorAt(state, at, a), at + |a|, b), XorAt(state, at, a + b);
    forall i | 0 <= i < |state|
      ensures l[i] == r[i]
    {
      if at + |a| <= i < at + |a| + |b| {
        assert (a + b)[i - at] == b[i - (at + |a|)];
      } else if at <= i < at + |a| {
        assert (a + b)[i - at] == a[i - at];
      }
    }
  }

  lemma XorNothing(state: Bytes, at: nat)
    ensures XorAt(state, at, []) == state
  {
  }

  /** The two single-byte xors of closing are the padding. */
  lemma PaddingByXor(state: Bytes, rate: nat, rest: nat, isKeccak: bool)
    requires rest < rate <= |state|
    ensures XorAt(XorAt(state, rest, [DomainByte(isKeccak)]), rate - 1, [0x80])
      == XorAt(state, rest, Padding(rate, rest, isKeccak))
  {
    hide XorByte, DomainByte;
    var l := XorAt(XorAt(state, rest, [DomainByte(isKeccak)]), rate - 1, [0x80]);
    var r := XorAt(state, rest, Padding(rate, rest, isKeccak));
    forall i | 0 <= i < |state|
      ensures l[i] == r[i]
    {
      XorZero(state[i]);
      XorTwice(state[i], DomainByte(isKeccak), 0x80);
      if rest + 1 < rate {
        PaddingAt(rate, rest, isKeccak, i);
      }
    }
  }

  lemma PaddingAt(rate: nat, rest: nat, isKeccak: bool, i: nat)
    requires rest + 1 < rate
    ensures rest <= i < rate ==> Padding(rate, rest, isKeccak)[i - rest] == if i == rest then DomainByte(isKeccak)
      else if i == rate - 1 then 0x80 else 0
  {
  }

  lemma XorZero(a: bv8)
    ensures XorByte(a, 0) == a
  {
  }

  lemma XorTwice(a: bv8, b: bv8, c: bv8)
    ensures XorByte(XorByte(a, b), c) == XorByte(a, XorByte(b, c))
  {
  }

  // ---------- the context ----------

  /** `memxor`: eight bytes at a time, then the rest byte by byte. */
  method MemXor(dst: array<bv8>, at: nat, src: Bytes)
    requires at + |src| <= dst.Length
    modifies dst
    ensures dst[..] == XorAt(old(dst[..]), at, src)
  {
    hide XorAt;
    var size64 := |src| / 8;
    ghost var before := dst[..];
    XorNothing(before, at);
    assert src[..0] == [];
    for i := 0 to size64
      invariant dst[..] == XorAt(before, at, src[..8 * i])
    {
      XorPieces(before, at, src[..8 * i], src[8 * i..8 * i + 8]);
      assert src[..8 * i] + src[8 * i..8 * i + 8] == src[..8 * (i + 1)];
      XorRun(dst, at + 8 * i, src[8 * i..8 * i + 8]);
    }
    XorPieces(before, at, src[..8 * size64], src[8 * size64..]);
    assert src[..8 * size64] + src[8 * size64..] == src;
    XorRun(dst, at + 8 * size64, src[8 * size64..]);
  }

  method XorRun(dst: array<bv8>, at: nat, src: Bytes)
    requires at + |src| <= dst.Length
    modifies dst
    ensures dst[..] == XorAt(old(dst[..]), at, src)
  {
    hide XorByte;
    ghost var before := dst[..];
    for k := 0 to |src|
      invariant forall i :: 0 <= i < dst.Length ==> dst[i] == if at <= i < at + k then XorByte(before[i], src[i - at])
        else before[i]
    {
      dst[at + k] := XorByte(dst[at + k], src[k]);
    }
  }

  /** `sha3llTransform` */
  method Transform(p: Bytes -> Bytes, state: array<bv8>)
    requires state.Length == 200 && IsPermutation(p)
    modifies state
    ensures state[..] == p(old(state[..]))
  {
    var next := p(state[..]);
    forall i | 0 <= i < 200 {
      state[i] := next[i];
    }
    assert state[..] == next;
  }

  class Context {
    const p: Bytes -> Bytes
    const state: array<bv8>
    const hashSize: nat
    const blockSize: nat
    var bufferSize: nat
    ghost var message: Bytes

    ghost function Absorbed(): (s: Buffered<Bytes>)
      requires blockSize > 0
      reads this
      ensures |s.pending| < blockSize
    {
      Absorb(blockSize, Step(p), Buffered(ZeroBytes(200), []), message)
    }

    /** The state is the sponge's state with the unfinished block xored in. */
    ghost predicate Valid()
      reads this, state
    {
      && state.Length == 200 && 0 < blockSize <= 200 && blockSize == Rate(hashSize) && IsPermutation(p)
      && bufferSize == |Absorbed().pending|
      && |Absorbed().chain| == 200
      && state[..] == XorAt(Absorbed().chain, 0, Absorbed().pending)
    }

    /** `sha3Init` */
    constructor (p: Bytes -> Bytes, hashSize: nat)
      requires IsPermutation(p) && 0 < Rate(hashSize)
      ensures Valid() && fresh(state) && message == [] && this.p == p && this.hashSize == hashSize
    {
      this.p := p;
      this.hashSize := hashSize;
      this.blockSize := 200 - 2 * hashSize;
      this.bufferSize := 0;
      this.state := new bv8[200](_ => 0);
      this.message := [];
      new;
      AbsorbNothing(blockSize, Step(p), Buffered(ZeroBytes(200), []));
      XorNothing(ZeroBytes(200), 0);
      assert state[..] == ZeroBytes(200);
    }

    /** Xors data into the current block, and permutes once the block is full. */
    method Feed(data: Bytes)
      requires Valid() && bufferSize + |data| <= blockSize
      modifies this`bufferSize, this`message, state
      ensures Valid() && message == old(message) + data
      ensures bufferSize == if old(bufferSize) + |data| < blockSize then old(bufferSize) + |data| else 0
    {
      hide XorAt;
      ghost var s := Absorbed();
      ghost var start := Buffered(ZeroBytes(200), []);
      AbsorbAppend(blockSize, Step(p), start, message, data);
      XorPieces(s.chain, 0, s.pending, data);
      MemXor(state, bufferSize, data);
      message := message + data;
      bufferSize := bufferSize + |data|;
      if bufferSize == blockSize {
        AbsorbBlock(blockSize, Step(p), s, data);
        Transform(p, state);
        bufferSize := 0;
        XorNothing(state[..], 0);
      }
    }

    /** `sha3Update` */
    method Update(data: Bytes)
      requires Valid()
      modifies this`bufferSize, this`message, state
      ensures Valid() && message == old(message) + data
    {
      hide Absorb, XorAt, Step, Rate;
      var at := 0;
      if bufferSize > 0 {
        var maxSize := blockSize - bufferSize;
        at := if maxSize <= |data| then maxSize else |data|;
        Feed(data[..at]);
      }
      if |data| - at > 0 {
        assert old(message) + data[..at] + data[at..] == old(message) + data;
        FeedBlocks(data[at..]);
      } else {
        assert data[..at] == data;
      }
    }

    /** Steps 2 and 3 of the update: all full rounds, then the remainder. */
    method FeedBlocks(data: Bytes)
      requires Valid() && bufferSize == 0
      modifies this`bufferSize, this`message, state
      ensures Valid() && message == old(message) + data
    {
      hide Absorb, XorAt, Step, Rate, Times;
      var fullRounds := FullRounds(|data|, blockSize);
      var at := 0;
      NoRounds(blockSize);
      assert old(message) + data[..0] == old(message);
      for i := 0 to fullRounds
        invariant Valid() && bufferSize == 0 && at == Times(i, blockSize) <= |data|
        invariant message == old(message) + data[..at]
      {
        NextRoundFits(i, fullRounds, blockSize);
        assert old(message) + data[..at] + data[at..at + blockSize] == old(message) + data[..at + blockSize];
        Feed(data[at..at + blockSize]);
        at := at + blockSize;
      }
      assert old(message) + data[..at] + data[at..] == old(message) + data;
      Feed(data[at..]);
    }

    /** `sha3Final` */
    method Final(isKeccak: bool) returns (hash: Bytes)
      requires Valid()
      modifies state
      ensures hash == Digest(p, hashSize, isKeccak, message)
    {
      hide XorAt, Padding, DomainByte;
      ghost var s := Absorbed();
      XorPieces(s.chain, 0, s.pending, Padding(blockSize, bufferSize, isKeccak));
      PaddingByXor(state[..], blockSize, bufferSize, isKeccak);
      XorRun(state, bufferSize, [DomainByte(isKeccak)]);
      XorRun(state, blockSize - 1, [0x80]);
      Transform(p, state);
      LastBlock(p, blockSize, message, isKeccak);
      hash := state[..hashSize];
      assert hash == state[..][..hashSize];
    }
  }

  function Times(i: nat, size: nat): nat {
    if i == 0 then 0 else Times(i - 1, size) + size
  }

  lemma NoRounds(size: nat)
    ensures Times(0, size) == 0
  {
  }

  lemma {:induction false} TimesIs(i: nat, size: nat)
    ensures Times(i, size) == i * size
  {
    if i > 0 {
      TimesIs(i - 1, size);
    }
  }

  /** How many whole blocks there are. */
  method FullRounds(n: nat, size: nat) returns (rounds: nat)
    requires size > 0
    ensures Times(rounds, size) <= n < Times(rounds, size) + size
  {
    rounds := n / size;
    TimesIs(rounds, size);
  }

  lemma {:induction false} NextRoundFits(i: nat, rounds: nat, size: nat)
    requires i < rounds
    ensures Times(i + 1, size) == Times(i, size) + size <= Times(rounds, size)
  {
    if i + 1 < rounds {
      NextRoundFits(i, rounds - 1, size);
    }
  }

  /** The padded message's last block follows the state after the message. */
  lemma LastBlock(p: Bytes -> Bytes, rate: nat, msg: Bytes, isKeccak: bool)
    requires 0 < rate
    ensures var s := Absorb(rate, Step(p), Buffered(ZeroBytes(200), []), msg);
      |s.pending| == |Rest(rate, msg)|
      && FoldBlocks(rate, Step(p), ZeroBytes(200), msg + Padding(rate, |Rest(rate, msg)|, isKeccak))
         == p(XorAt(s.chain, 0, s.pending + Padding(rate, |s.pending|, isKeccak)))
  {
    hide XorAt, Padding;
    AbsorbIsFold(rate, Step(p), ZeroBytes(200), msg);
    var s := Absorb(rate, Step(p), Buffered(ZeroBytes(200), []), msg);
    var padding := Padding(rate, |s.pending|, isKeccak);
    FoldWhole(rate, Step(p), ZeroBytes(200), msg, padding);
    var last := s.pending + padding;
    FoldOne(rate, Step(p), s.chain, last, []);
    assert last + [] == last;
    assert FoldBlocks(rate, Step(p), Step(p)(s.chain, last), []) == Step(p)(s.chain, last);
  }

  /** The full rounds of the one-shot form; what is left is shorter than a block. */
  method AbsorbRounds(p: Bytes -> Bytes, state: array<bv8>, data: Bytes, blockSize: nat) returns (at: nat)
    requires IsPermutation(p) && 0 < blockSize <= 200 && state.Length == 200
    modifies state
    ensures at <= |data| < at + blockSize
    ensures Absorb(blockSize, Step(p), Buffered(old(state[..]), []), data) == Buffered(state[..], data[at..])
  {
    hide XorAt, Absorb, Times;
    ghost var start := Buffered(state[..], []);
    at := 0;
    var roundsNum := FullRounds(|data|, blockSize);
    NoRounds(blockSize);
    assert data[0..] == data;
    for i := 0 to roundsNum
      invariant at == Times(i, blockSize) <= |data|
      invariant Absorb(blockSize, Step(p), Buffered(state[..], []), data[at..])
        == Absorb(blockSize, Step(p), start, data)
    {
      NextRoundFits(i, roundsNum, blockSize);
      ghost var s := Buffered(state[..], []);
      var block := data[at..at + blockSize];
      assert data[at..] == block + data[at + blockSize..];
      AbsorbAppend(blockSize, Step(p), s, block, data[at + blockSize..]);
      AbsorbBlock(blockSize, Step(p), s, block);
      assert [] + block == block;
      MemXor(state, 0, block);
      Transform(p, state);
      at := at + blockSize;
    }
    ShortData(p, blockSize, state[..], data[at..]);
  }

  /** The one-shot `sha3`. */
  method OneShot(p: Bytes -> Bytes, data: Bytes, hashSize: nat, isKeccak: bool) returns (hash: Bytes)
    requires IsPermutation(p) && 0 < Rate(hashSize)
    ensures hash == Digest(p, hashSize, isKeccak, data)
  {
    hide XorAt, Padding, DomainByte, Absorb, FoldBlocks, Rest, Step;
    var blockSize: nat := 200 - 2 * hashSize;
    var state := new bv8[200](_ => 0);
    assert state[..] == ZeroBytes(200);
    var at := AbsorbRounds(p, state, data, blockSize);
    var rest := data[at..];
    LastBlock(p, blockSize, data, isKeccak);
    ghost var chain := state[..];
    MemXor(state, 0, rest);
    XorPieces(chain, 0, rest, Padding(blockSize, |rest|, isKeccak));
    PaddingByXor(state[..], blockSize, |rest|, isKeccak);
    XorRun(state, |rest|, [DomainByte(isKeccak)]);
    XorRun(state, blockSize - 1, [0x80]);
    Transform(p, state);
    hash := state[..hashSize];
    assert hash == state[..][..hashSize];
  }

  lemma ShortData(p: Bytes -> Bytes, size: nat, chain: Bytes, data: Bytes)
    requires |data| < size
    ensures Absorb(size, Step(p), Buffered(chain, []), data) == Buffered(chain, data)
  {
    assert [] + data == data;
  }

  /** Any chunking of a message gives the digest of the whole, which is the one-shot hash. */
  method HashPieces(p: Bytes -> Bytes, pieces: seq<Bytes>, hashSize: nat, isKeccak: bool)
    returns (hash: Bytes, oneShot: Bytes)
    requires IsPermutation(p) && 0 < Rate(hashSize)
    ensures hash == oneShot == Digest(p, hashSize, isKeccak, Joined(pieces))
  {
    hide Digest, Step;
    var c := new Context(p, hashSize);
    var joined := [];
    for i := 0 to |pieces|
      invariant c.Valid() && fresh(c) && fresh(c.state) && c.p == p && c.hashSize == hashSize
      invariant c.message == joined == Joined(pieces[..i])
    {
      JoinedAppend(pieces[..i], pieces[i]);
      assert pieces[..i] + [pieces[i]] == pieces[..i + 1];
      c.Update(pieces[i]);
      joined := joined + pieces[i];
    }
    assert pieces[..|pieces|] == pieces;
    hash := c.Final(isKeccak);
    oneShot := OneShot(p, joined, hashSize, isKeccak);
  }
}
