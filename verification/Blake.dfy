/**
 The source's incremental BLAKE: a context with a buffer, a chain value and two counter
 words that wrap. Closing rewinds the counter so that the block addition inside the shared
 update code brings it to the value the last block must see.
 */
module Blake {
  import opened Arithmetic
  import opened BlakeSpec
  import opened Streaming

  /** The chain value of a context: the hash words and the two counter words. */
  datatype Raw = Raw(h: seq<nat>, t0: nat, t1: nat)

  function AddLow(size: nat, t0: nat): nat {
    (t0 + BlockBits(size)) % Word(size)
  }

  function AddHigh(size: nat, t0: nat, t1: nat): nat {
    if AddLow(size, t0) < BlockBits(size) then (t1 + 1) % Word(size) else t1
  }

  /** One full block: the counter moves on and the block is compressed. */
  function Compressed(size: nat, f: Compress, s: Raw, block: Bytes): Raw {
    var t0, t1 := AddLow(size, s.t0), AddHigh(size, s.t0, s.t1);
    Raw(f(s.h, block, t0, t1), t0, t1)
  }

  function Step(size: nat, f: Compress): (Raw, Bytes) -> Raw {
    (s: Raw, block: Bytes) => Compressed(size, f, s, block)
  }

  // ---------- the counter ----------

  lemma CounterMovesOn(size: nat, q: nat)
    requires IsSize(size)
    ensures var b := 8 * BlockBytes(size, q);
      && AddLow(size, Low(size, b)) == Low(size, 8 * BlockBytes(size, q + 1))
      && AddHigh(size, Low(size, b), High(size, b)) == High(size, 8 * BlockBytes(size, q + 1))
  {
    var b := 8 * BlockBytes(size, q);
    var w := Word(size);
    var lo, hi := b % w, b / w;
    assert b == w * hi + lo;
    if lo + BlockBits(size) < w {
      DivMod(b + BlockBits(size), w, hi, lo + BlockBits(size));
    } else {
      DivMod(b + BlockBits(size), w, hi + 1, lo + BlockBits(size) - w);
      NextMod(hi, w);
      DivMod(lo + BlockBits(size), w, 1, lo + BlockBits(size) - w);
    }
  }

  lemma NextMod(x: nat, w: nat)
    requires w > 1
    ensures (x + 1) % w == (x % w + 1) % w
  {
    var q, r := x / w, x % w;
    if r + 1 < w {
      DivMod(x + 1, w, q, r + 1);
      DivMod(r + 1, w, 0, r + 1);
    } else {
      DivMod(x + 1, w, q + 1, 0);
      DivMod(r + 1, w, 1, 0);
    }
  }

  /** After the message `msg`: how many blocks were compressed, and that the counter words
      hold their bits. */
  lemma {:induction false} Counted(size: nat, f: Compress, s: Buffered<Raw>, q0: nat, msg: Bytes) returns (q: nat)
    requires IsSize(size) && |s.pending| < size
    requires s.chain.t0 == Low(size, 8 * BlockBytes(size, q0)) && s.chain.t1 == High(size, 8 * BlockBytes(size, q0))
    decreases |s.pending| + |msg|
    ensures var e := Absorb(size, Step(size, f), s, msg);
      && e.chain.t0 == Low(size, 8 * BlockBytes(size, q)) && e.chain.t1 == High(size, 8 * BlockBytes(size, q))
      && BlockBytes(size, q) + |e.pending| == BlockBytes(size, q0) + |s.pending| + |msg|
  {
    hide Low, High, AddLow, AddHigh;
    var all := s.pending + msg;
    q := q0;
    if |all| >= size {
      CounterMovesOn(size, q0);
      q := Counted(size, f, Buffered(Step(size, f)(s.chain, all[..size]), []), q0 + 1, all[size..]);
    }
  }

  function RewoundLow(size: nat, t0: nat, ptr: nat, n: nat): nat
    requires 8 * ptr + n < BlockBits(size)
  {
    if (ptr == 0 && n == 0) || t0 == 0 then (Word(size) - BlockBits(size) + 8 * ptr + n) % Word(size)
    else (t0 + Word(size) - (BlockBits(size) - 8 * ptr - n)) % Word(size)
  }

  function RewoundHigh(size: nat, t0: nat, t1: nat, ptr: nat, n: nat): nat {
    if ptr == 0 && n == 0 then Word(size) - 1
    else if t0 == 0 then (t1 + Word(size) - 1) % Word(size)
    else t1
  }

  /** The rewound counter plus one block is the counter the last message block must see. */
  lemma RewindIsRight(size: nat, q: nat, ptr: nat, n: nat)
    requires IsSize(size) && ptr < size && n < 8
    ensures var at := BlockBytes(size, q);
      var bits, t0, t1 := 8 * (at + ptr) + n, Low(size, 8 * at), High(size, 8 * at);
      var t := CounterAt(size, at, bits);
      && AddLow(size, RewoundLow(size, t0, ptr, n)) == Low(size, t)
      && AddHigh(size, RewoundLow(size, t0, ptr, n), RewoundHigh(size, t0, t1, ptr, n)) == High(size, t)
  {
    hide BlockBytes;
    var w, at := Word(size), BlockBytes(size, q);
    if ptr == 0 && n == 0 {
      RewindPadding(size);
    } else {
      LowIsWholeBlocks(size, q);
      RewindMessage(size, 8 * at, 8 * ptr + n);
      RewindAmount(size, Low(size, 8 * at), High(size, 8 * at), ptr, n);
    }
  }

  lemma RewindPadding(size: nat)
    requires IsSize(size)
    ensures AddLow(size, RewoundLow(size, 0, 0, 0)) == 0 && Low(size, 0) == 0 && High(size, 0) == 0
    ensures forall t0, t1 :: AddHigh(size, RewoundLow(size, t0, 0, 0), RewoundHigh(size, t0, t1, 0, 0)) == 0
  {
  }

  /** The counter words before the last message block, by the branch that sets them. */
  function BeforeLow(size: nat, t0: nat, bitLen: nat): nat
    requires bitLen < BlockBits(size)
  {
    if t0 == 0 then (Word(size) - BlockBits(size) + bitLen) % Word(size)
    else (t0 + Word(size) - (BlockBits(size) - bitLen)) % Word(size)
  }

  function BeforeHigh(size: nat, t0: nat, t1: nat): nat {
    if t0 == 0 then (t1 + Word(size) - 1) % Word(size) else t1
  }

  lemma RewindAmount(size: nat, t0: nat, t1: nat, ptr: nat, n: nat)
    requires IsSize(size) && ptr < size && n < 8 && (ptr != 0 || n != 0)
    ensures RewoundLow(size, t0, ptr, n) == BeforeLow(size, t0, 8 * ptr + n)
    ensures RewoundHigh(size, t0, t1, ptr, n) == BeforeHigh(size, t0, t1)
  {
  }

  lemma RewindMessage(size: nat, b: nat, bitLen: nat)
    requires IsSize(size) && 0 < bitLen < BlockBits(size)
    requires b % Word(size) == 0 || b % Word(size) >= BlockBits(size)
    requires b % Word(size) + BlockBits(size) <= Word(size)
    ensures AddLow(size, BeforeLow(size, Low(size, b), bitLen)) == Low(size, b + bitLen)
    ensures AddHigh(size, BeforeLow(size, Low(size, b), bitLen), BeforeHigh(size, Low(size, b), High(size, b)))
      == High(size, b + bitLen)
  {
    var w, k := Word(size), BlockBits(size);
    var lo, hi := b % w, b / w;
    DivMod(b + bitLen, w, hi, lo + bitLen);
    if lo == 0 {
      DivMod(w - k + bitLen, w, 0, w - k + bitLen);
      DivMod(w + bitLen, w, 1, bitLen);
      PreviousNext(hi % w, w);
    } else {
      DivMod(lo + w - (k - bitLen), w, 1, lo - (k - bitLen));
      DivMod(lo + bitLen, w, 0, lo + bitLen);
    }
  }

  lemma LowIsWholeBlocks(size: nat, q: nat)
    requires IsSize(size)
    ensures var lo := 8 * BlockBytes(size, q) % Word(size);
      (lo == 0 || lo >= BlockBits(size)) && lo + BlockBits(size) <= Word(size)
  {
    var k, m := BlockBits(size), if size == 64 then 0x80_0000 else 0x40_0000_0000_0000;
    assert k * m == Word(size) && 8 * BlockBytes(size, q) == k * q;
    MultipleRemainder(q, k, m);
  }

  lemma MultipleRemainder(q: nat, k: nat, m: nat)
    requires k >= 1 && m >= 1
    ensures k * m >= 1 && (k * q % (k * m) == 0 || k * q % (k * m) >= k) && k * q % (k * m) + k <= k * m
  {
    var j, w := q % m, k * m;
    ProductGrows(k, m);
    assert q == m * (q / m) + j;
    assert k * (m * (q / m) + j) == w * (q / m) + k * j;
    Scale(j, m - 1, k);
    assert (m - 1) * k == w - k && j * k == k * j;
    ProductNotNegative(k, j);
    DivMod(k * q, w, q / m, k * j);
    ProductGrows(k, j);
  }

  lemma PreviousNext(x: nat, w: nat)
    requires x < w && w > 1
    ensures ((x + w - 1) % w + 1) % w == x
  {
    if x == 0 {
      DivMod(w - 1, w, 0, w - 1);
      DivMod(w, w, 1, 0);
    } else {
      DivMod(x + w - 1, w, 1, x - 1);
      DivMod(x, w, 0, x);
    }
  }

  /** The length field is made of the counter words and the bits still in the buffer. */
  lemma LengthWords(size: nat, q: nat, ptr: nat, n: nat)
    requires IsSize(size) && ptr < size && n < 8
    ensures var b := 8 * BlockBytes(size, q); var bits := b + 8 * ptr + n;
      && (Low(size, b) + 8 * ptr + n) % Word(size) == Low(size, bits) && High(size, b) == High(size, bits)
  {
    var w, b := Word(size), 8 * BlockBytes(size, q);
    var lo, hi := b % w, b / w;
    assert b == w * hi + lo;
    LowIsWholeBlocks(size, q);
    DivMod(lo + 8 * ptr + n, w, 0, lo + 8 * ptr + n);
    DivMod(b + 8 * ptr + n, w, hi, lo + 8 * ptr + n);
  }

  // ---------- the digest ----------

  lemma PaddedStep(size: nat, msg: Bytes, ub: bv8, n: nat, marker: bool, bits: nat)
    requires IsSize(size) && n < 8
    ensures |msg| < size ==> Padded(size, msg, ub, n, marker, bits) == LastBlocks(size, msg, ub, n, marker, bits)
    ensures |msg| >= size ==>
      var padded := Padded(size, msg, ub, n, marker, bits);
      && |padded| >= size && padded[..size] == msg[..size]
      && padded[size..] == Padded(size, msg[size..], ub, n, marker, bits)
  {
    hide LastBlocks;
  }

  /** All whole blocks of the message are folded as they are absorbed. */
  lemma {:induction false} FoldFollows(size: nat, f: Compress, h: seq<nat>, q: nat, msg: Bytes, ub: bv8, n: nat,
      marker: bool, bits: nat)
    requires IsSize(size) && n < 8 && 8 * (BlockBytes(size, q) + |msg|) <= bits
    decreases |msg|
    ensures var e := Absorb(size, Step(size, f), Buffered(Raw(h, Low(size, 8 * BlockBytes(size, q)),
      High(size, 8 * BlockBytes(size, q))), []), msg);
      Fold(size, f, h, Padded(size, msg, ub, n, marker, bits), BlockBytes(size, q), bits)
      == Fold(size, f, e.chain.h, LastBlocks(size, e.pending, ub, n, marker, bits), BlockBytes(size, q)
        + |msg| - |e.pending|, bits)
      && |e.pending| <= |msg|
  {
    hide Low, High, AddLow, AddHigh, LastBlocks, Padded;
    var at := BlockBytes(size, q);
    var s := Raw(h, Low(size, 8 * at), High(size, 8 * at));
    assert [] + msg == msg;
    PaddedStep(size, msg, ub, n, marker, bits);
    if |msg| >= size {
      CounterMovesOn(size, q);
      var t := CounterAt(size, at, bits);
      assert t == 8 * BlockBytes(size, q + 1);
      var next := f(h, msg[..size], Low(size, t), High(size, t));
      assert Step(size, f)(s, msg[..size]) == Raw(next, Low(size, t), High(size, t));
      FoldFollows(size, f, next, q + 1, msg[size..], ub, n, marker, bits);
    }
  }

  /** The chain value that closing must reach, from the state after the message. */
  function Closed(size: nat, f: Compress, s: Buffered<Raw>, ub: bv8, n: nat, marker: bool, at: nat): seq<nat>
    requires IsSize(size) && |s.pending| < size && n < 8
  {
    var bits := 8 * (at + |s.pending|) + n;
    Fold(size, f, s.chain.h, LastBlocks(size, s.pending, ub, n, marker, bits), at, bits)
  }

  lemma ClosedIsDigest(size: nat, f: Compress, iv: seq<nat>, msg: Bytes, ub: bv8, n: nat, marker: bool)
    requires IsSize(size) && n < 8
    ensures var e := Absorb(size, Step(size, f), Start(iv), msg);
      |e.pending| <= |msg| && Digest(size, f, iv, msg, ub, n, marker)
        == Closed(size, f, e, ub, n, marker, |msg| - |e.pending|)
  {
    hide Fold, LastBlocks, Padded;
    FoldFollows(size, f, iv, 0, msg, ub, n, marker, 8 * |msg| + n);
  }

  lemma ClosedByOne(size: nat, f: Compress, s: Buffered<Raw>, ub: bv8, n: nat, marker: bool, at: nat)
    requires IsSize(size) && |s.pending| < size && n < 8 && FitsOneBlock(size, |s.pending|, n)
    ensures var bits := 8 * (at + |s.pending|) + n;
      var t := CounterAt(size, at, bits);
      Closed(size, f, s, ub, n, marker, at) == f(s.chain.h, LastBlocks(size, s.pending, ub, n, marker, bits),
        Low(size, t), High(size, t))
  {
    hide Low, High, LastBlocks;
    var bits := 8 * (at + |s.pending|) + n;
    var last := LastBlocks(size, s.pending, ub, n, marker, bits);
    LastBlocksLength(size, s.pending, ub, n, marker, bits);
    assert last[..size] == last && last[size..] == [];
    var t := CounterAt(size, at, bits);
    var h := f(s.chain.h, last, Low(size, t), High(size, t));
    assert Fold(size, f, h, [], at + size, bits) == h;
  }

  lemma ClosedByTwo(size: nat, f: Compress, s: Buffered<Raw>, ub: bv8, n: nat, marker: bool, at: nat)
    requires IsSize(size) && |s.pending| < size && n < 8 && !FitsOneBlock(size, |s.pending|, n)
    ensures var bits := 8 * (at + |s.pending|) + n;
      var t := CounterAt(size, at, bits);
      var first := s.pending + [TailByte(ub, n)] + ZeroBytes(size - |s.pending| - 1);
      var second := WithMarker(ZeroBytes(LengthAt(size)), marker) + LengthField(size, bits);
      Closed(size, f, s, ub, n, marker, at) == f(f(s.chain.h, first, Low(size, t), High(size, t)), second, 0, 0)
  {
    hide Low, High, TailByte, SetLowBit, LengthField, WithMarker;
    var bits := 8 * (at + |s.pending|) + n;
    var t := CounterAt(size, at, bits);
    var first := s.pending + [TailByte(ub, n)] + ZeroBytes(size - |s.pending| - 1);
    var second := WithMarker(ZeroBytes(LengthAt(size)), marker) + LengthField(size, bits);
    var last := LastBlocks(size, s.pending, ub, n, marker, bits);
    assert last == first + second;
    assert last[..size] == first && last[size..] == second && second[..size] == second && second[size..] == [];
    ZeroWords(size);
    assert CounterAt(size, at + size, bits) == 0;
    var h := f(s.chain.h, first, Low(size, t), High(size, t));
    assert Fold(size, f, h, second, at + size, bits) == Fold(size, f, f(h, second, 0, 0), [], at + size + size, bits);
  }

  lemma ZeroWords(size: nat)
    ensures Low(size, 0) == 0 && High(size, 0) == 0
  {
  }

  function Start(iv: seq<nat>): Buffered<Raw> {
    Buffered(Raw(iv, 0, 0), [])
  }

  /** The output words, most significant byte first. */
  function Encoded(words: seq<nat>, k: nat): Bytes {
    if words == [] then [] else BigEndian(words[0], k) + Encoded(words[1..], k)
  }

  lemma {:induction false} EncodedAppend(a: seq<nat>, x: nat, k: nat)
    ensures Encoded(a + [x], k) == Encoded(a, k) + BigEndian(x, k)
  {
    hide BigEndian;
    if a == [] {
      assert [x][1..] == [];
      assert BigEndian(x, k) + [] == BigEndian(x, k);
    } else {
      assert (a + [x])[1..] == a[1..] + [x];
      EncodedAppend(a[1..], x, k);
    }
  }

  // ---------- the context ----------

  class Context {
    const size: nat
    const f: Compress
    const buf: array<bv8>
    var ptr: nat
    var h: seq<nat>
    var t0: nat
    var t1: nat

    ghost predicate Valid()
      reads this
    {
      IsSize(size) && buf.Length == size && ptr < size
    }

    ghost function State(): (s: Buffered<Raw>)
      requires Valid()
      reads this, buf
      ensures |s.pending| < size
    {
      Buffered(Raw(h, t0, t1), buf[..ptr])
    }

    constructor (size: nat, f: Compress, iv: seq<nat>)
      requires IsSize(size)
      ensures Valid() && fresh(buf) && this.size == size && this.f == f && State() == Start(iv)
    {
      this.size := size;
      this.f := f;
      buf := new bv8[size](_ => 0);
      h, t0, t1, ptr := iv, 0, 0, 0;
    }

    /** `blake32` and `blake64` */
    method Update(data: Bytes)
      requires Valid()
      modifies this, buf
      ensures Valid() && State() == Absorb(size, Step(size, f), old(State()), data)
    {
      hide Compressed;
      if |data| < size - ptr {
        Append(data);
        return;
      }
      ghost var start := State();
      var at := 0;
      while at < |data|
        invariant at <= |data| && Valid()
        invariant Absorb(size, Step(size, f), State(), data[at..]) == Absorb(size, Step(size, f), start, data)
      {
        var clen := size - ptr;
        if clen > |data| - at {
          clen := |data| - at;
        }
        assert data[at..] == data[at..at + clen] + data[at + clen..];
        AbsorbAppend(size, Step(size, f), State(), data[at..at + clen], data[at + clen..]);
        Feed(data[at..at + clen]);
        at := at + clen;
      }
    }

    /** The loop body: fills the buffer, and compresses it once it is full. */
    method Feed(data: Bytes)
      requires Valid() && ptr + |data| <= size
      modifies this, buf
      ensures Valid() && State() == Absorb(size, Step(size, f), old(State()), data)
    {
      hide Compressed;
      ghost var s := State();
      if ptr + |data| < size {
        Append(data);
      } else {
        AbsorbBlock(size, Step(size, f), s, data);
        forall k | 0 <= k < |data| {
          buf[ptr + k] := data[k];
        }
        ptr := size;
        assert buf[..] == s.pending + data;
        CompressBuffer();
      }
    }

    method Append(data: Bytes)
      requires Valid() && ptr + |data| < size
      modifies this, buf
      ensures Valid() && State() == Absorb(size, Step(size, f), old(State()), data)
    {
      ghost var s := State();
      forall k | 0 <= k < |data| {
        buf[ptr + k] := data[k];
      }
      ptr := ptr + |data|;
      assert buf[..ptr] == s.pending + data;
    }

    /** `COMPRESS` on the full buffer. */
    method CompressBuffer()
      requires IsSize(size) && buf.Length == size == ptr
      modifies this
      ensures Valid() && State() == Buffered(Compressed(size, f, Raw(old(h), old(t0), old(t1)), buf[..]), [])
    {
      t0 := (t0 + BlockBits(size)) % Word(size);
      if t0 < BlockBits(size) {
        t1 := (t1 + 1) % Word(size);
      }
      h := f(h, buf[..], t0, t1);
      ptr := 0;
    }

    /** Rewinds the counter before the last message block is compressed. */
    method Rewind(n: nat)
      requires Valid() && n < 8
      modifies this`t0, this`t1
      ensures Valid() && t0 == RewoundLow(size, old(t0), ptr, n) && t1 == RewoundHigh(size, old(t0), old(t1), ptr, n)
    {
      var bitLen := 8 * ptr + n;
      if ptr == 0 && n == 0 {
        BelowWord(size);
        t0 := Word(size) - BlockBits(size);
        t1 := Word(size) - 1;
      } else if t0 == 0 {
        t0 := (Word(size) - BlockBits(size) + bitLen) % Word(size);
        t1 := (t1 + Word(size) - 1) % Word(size);
      } else {
        t0 := (t0 + Word(size) - (BlockBits(size) - bitLen)) % Word(size);
      }
    }

    /** The rest of a last message block that has room for the length. */
    method CloseOne(ub: bv8, n: nat, marker: bool, th: nat, tl: nat) returns (u: array<bv8>)
      requires Valid() && n < 8 && FitsOneBlock(size, ptr, n)
      ensures u.Length == size && fresh(u)
      ensures u[ptr..] == WithMarker([TailByte(ub, n)] + ZeroBytes(LengthAt(size) - ptr - 1), marker)
        + (BigEndian(th, WordBytes(size)) + BigEndian(tl, WordBytes(size)))
    {
      hide TailByte, BigEndian, WithMarker;
      u := new bv8[size](_ => 0);
      PadTo(u, ptr, TailByte(ub, n), LengthAt(size));
      Mark(u, ptr, LengthAt(size), marker);
      EncodeLength(u, ptr, th, tl);
    }

    /** `sph_enc32be_aligned` or `sph_enc64be_aligned` of both length words. */
    method EncodeLength(u: array<bv8>, from: nat, th: nat, tl: nat)
      requires IsSize(size) && u.Length == size && from <= LengthAt(size)
      modifies u
      ensures u[from..] == old(u[from..LengthAt(size)])
        + (BigEndian(th, WordBytes(size)) + BigEndian(tl, WordBytes(size)))
    {
      hide BigEndian;
      var field := BigEndian(th, WordBytes(size)) + BigEndian(tl, WordBytes(size));
      forall k | LengthAt(size) <= k < size {
        u[k] := field[k - LengthAt(size)];
      }
    }

    /** The padding-only block. */
    method SecondBlock(u: array<bv8>, marker: bool, th: nat, tl: nat)
      requires IsSize(size) && u.Length == size
      modifies u
      ensures u[..] == WithMarker(ZeroBytes(LengthAt(size)), marker)
        + (BigEndian(th, WordBytes(size)) + BigEndian(tl, WordBytes(size)))
    {
      hide BigEndian;
      forall k | 0 <= k < LengthAt(size) {
        u[k] := 0;
      }
      if marker {
        u[LengthAt(size) - 1] := 1;
      }
      assert u[0..LengthAt(size)] == WithMarker(ZeroBytes(LengthAt(size)), marker);
      EncodeLength(u, 0, th, tl);
      assert u[..] == u[0..];
    }

    /** Closes a message whose end leaves room for the length, `bits` long. */
    method FinishShort(ub: bv8, n: nat, marker: bool, th: nat, tl: nat, ghost bits: nat, ghost t: nat)
      requires Valid() && n < 8 && FitsOneBlock(size, ptr, n) && th == High(size, bits) && tl == Low(size, bits)
      requires AddLow(size, t0) == Low(size, t) && AddHigh(size, t0, t1) == High(size, t)
      modifies this, buf
      ensures Valid() && h == f(old(h), LastBlocks(size, old(buf[..ptr]), ub, n, marker, bits), Low(size, t),
        High(size, t))
    {
      hide Absorb, TailByte, SetLowBit, BigEndian, Low, High, AddLow, AddHigh, WithMarker, CounterAt;
      ghost var s := State();
      var u := CloseOne(ub, n, marker, th, tl);
      AbsorbBlock(size, Step(size, f), s, u[ptr..]);
      assert s.pending + u[ptr..] == LastBlocks(size, s.pending, ub, n, marker, bits);
      Update(u[ptr..]);
    }

    /** Closes a message whose end leaves no room: a second block holds padding only. */
    method FinishLong(ub: bv8, n: nat, marker: bool, th: nat, tl: nat, ghost bits: nat, ghost t: nat)
      requires Valid() && n < 8 && th == High(size, bits) && tl == Low(size, bits)
      requires AddLow(size, t0) == Low(size, t) && AddHigh(size, t0, t1) == High(size, t)
      modifies this, buf
      ensures Valid() && h == f(f(old(h), old(buf[..ptr]) + [TailByte(ub, n)]
        + ZeroBytes(size - old(ptr) - 1), Low(size, t), High(size, t)),
                                WithMarker(ZeroBytes(LengthAt(size)), marker) + LengthField(size, bits), 0, 0)
    {
      hide Absorb, TailByte, SetLowBit, BigEndian, Low, High, AddLow, AddHigh, WithMarker, CounterAt;
      ghost var s := State();
      var u := new bv8[size](_ => 0);
      PadTo(u, ptr, TailByte(ub, n), size);
      assert u[ptr..] == [TailByte(ub, n)] + ZeroBytes(size - ptr - 1);
      AbsorbBlock(size, Step(size, f), s, u[ptr..]);
      Joins(s.pending, [TailByte(ub, n)], ZeroBytes(size - |s.pending| - 1));
      Update(u[ptr..]);
      FinishPadding(u, marker, th, tl);
    }

    /** Compresses the padding-only block. */
    method FinishPadding(u: array<bv8>, marker: bool, th: nat, tl: nat)
      requires Valid() && ptr == 0 && u != buf && u.Length == size
      modifies this, buf, u
      ensures Valid() && h == f(old(h), WithMarker(ZeroBytes(LengthAt(size)), marker)
        + (BigEndian(th, WordBytes(size)) + BigEndian(tl, WordBytes(size))), 0, 0)
    {
      hide Absorb, BigEndian, AddLow, AddHigh, WithMarker;
      BelowWord(size);
      t0 := Word(size) - BlockBits(size);
      t1 := Word(size) - 1;
      SecondBlock(u, marker, th, tl);
      ZeroAgain(size);
      AbsorbBlock(size, Step(size, f), State(), u[..]);
      assert buf[..ptr] + u[..] == u[..];
      Update(u[..]);
    }

    /** `blake32_close` and `blake64_close`; `outWords` is 8 for the full-size digests. */
    method Close(ub: bv8, n: nat, outWords: nat, ghost iv: seq<nat>, ghost msg: Bytes) returns (out: Bytes)
      requires Valid() && n < 8
      requires State() == Absorb(size, Step(size, f), Start(iv), msg)
      requires |Digest(size, f, iv, msg, ub, n, outWords == 8)| >= outWords
      modifies this, buf
      ensures out == Encoded(Digest(size, f, iv, msg, ub, n, outWords == 8)[..outWords], WordBytes(size))
    {
      hide Absorb, Digest, Closed, TailByte, SetLowBit, BigEndian, Low, High, AddLow, AddHigh, RewoundLow, RewoundHigh,
        WithMarker, CounterAt, LastBlocks;
      ghost var s, marker := State(), outWords == 8;
      ZeroWords(size);
      ghost var q := Counted(size, f, Start(iv), 0, msg);
      ghost var at := BlockBytes(size, q);
      ghost var bits := 8 * (at + ptr) + n;
      ClosedIsDigest(size, f, iv, msg, ub, n, marker);
      LengthWords(size, q, ptr, n);
      RewindIsRight(size, q, ptr, n);
      var bitLen := 8 * ptr + n;
      var tl := (t0 + bitLen) % Word(size);
      var th := t1;
      Rewind(n);
      if bitLen <= 8 * LengthAt(size) - 2 {
        ClosedByOne(size, f, s, ub, n, marker, at);
        FinishShort(ub, n, outWords == 8, th, tl, bits, CounterAt(size, at, bits));
      } else {
        ClosedByTwo(size, f, s, ub, n, marker, at);
        FinishLong(ub, n, outWords == 8, th, tl, bits, CounterAt(size, at, bits));
      }
      out := EncodeWords(h, outWords);
    }

    method EncodeWords(words: seq<nat>, count: nat) returns (out: Bytes)
      requires count <= |words|
      ensures out == Encoded(words[..count], WordBytes(size))
    {
      hide BigEndian;
      out := [];
      for k := 0 to count
        invariant out == Encoded(words[..k], WordBytes(size))
      {
        EncodedAppend(words[..k], words[k], WordBytes(size));
        assert words[..k] + [words[k]] == words[..k + 1];
        out := out + BigEndian(words[k], WordBytes(size));
      }
    }
  }

  /** Writes `b` and then zeros, up to `to`. */
  method PadTo(u: array<bv8>, at: nat, b: bv8, to: nat)
    requires at < to <= u.Length
    modifies u
    ensures u[at..to] == [b] + ZeroBytes(to - at - 1)
  {
    u[at] := b;
    forall k | at + 1 <= k < to {
      u[k] := 0;
    }
  }

  /** Sets the marker bit in the byte before `to`. */
  method Mark(u: array<bv8>, at: nat, to: nat, marker: bool)
    requires at < to <= u.Length
    modifies u
    ensures u[at..to] == WithMarker(old(u[at..to]), marker)
  {
    hide SetLowBit;
    if marker {
      u[to - 1] := SetLowBit(u[to - 1]);
    }
  }

  lemma Joins(a: Bytes, b: Bytes, c: Bytes)
    ensures a + (b + c) == a + b + c
  {
  }

  lemma BelowWord(size: nat)
    ensures Word(size) > BlockBits(size)
    ensures (Word(size) - BlockBits(size)) % Word(size) == Word(size) - BlockBits(size)
  {
  }

  /** The counter set for the padding-only block comes to zero. */
  lemma ZeroAgain(size: nat)
    ensures AddLow(size, Word(size) - BlockBits(size)) == 0
    ensures AddHigh(size, Word(size) - BlockBits(size), Word(size) - 1) == 0
  {
  }

  /** Absorbing a message in any pieces and closing gives the digest of the whole message. */
  method HashPieces(size: nat, f: Compress, iv: seq<nat>, pieces: seq<Bytes>, ub: bv8, n: nat, outWords: nat)
    returns (out: Bytes)
    requires IsSize(size) && n < 8
    requires |Digest(size, f, iv, Joined(pieces), ub, n, outWords == 8)| >= outWords
    ensures out == Encoded(Digest(size, f, iv, Joined(pieces), ub, n, outWords == 8)[..outWords], WordBytes(size))
  {
    hide Digest, Absorb, Encoded, Step;
    var c := new Context(size, f, iv);
    ghost var start := Start(iv);
    AbsorbNothing(size, Step(size, f), start);
    assert Joined(pieces[..0]) == [];
    for i := 0 to |pieces|
      invariant c.Valid() && fresh(c) && fresh(c.buf) && c.size == size && c.f == f
      invariant c.State() == Absorb(size, Step(size, f), start, Joined(pieces[..i]))
    {
      AbsorbAppend(size, Step(size, f), start, Joined(pieces[..i]), pieces[i]);
      JoinedAppend(pieces[..i], pieces[i]);
      assert pieces[..i] + [pieces[i]] == pieces[..i + 1];
      c.Update(pieces[i]);
    }
    assert pieces[..|pieces|] == pieces;
    out := c.Close(ub, n, outWords, iv, Joined(pieces));
  }
}
