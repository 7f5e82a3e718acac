/**
 Buffered block hashing: a chain value, and a buffer that is compressed whenever it is
 full. `f` is the compression step on a chain value and one whole block.
 */
module Streaming {
  import opened Arithmetic
  import opened Words

  type Bytes = seq<bv8>

  datatype Buffered<S> = Buffered(chain: S, pending: Bytes)

  /** What absorbing `data` does. */
  function Absorb<S>(size: nat, f: (S, Bytes) -> S, s: Buffered<S>, data: Bytes): (r: Buffered<S>)
    requires |s.pending| < size
    decreases |s.pending| + |data|
    ensures |r.pending| < size
  {
    var all := s.pending + data;
    if |all| < size then s.(pending := all)
    else Absorb(size, f, Buffered(f(s.chain, all[..size]), []), all[size..])
  }

  /** Splitting the data between two calls changes nothing. */
  lemma {:induction false} AbsorbAppend<S>(size: nat, f: (S, Bytes) -> S, s: Buffered<S>, a: Bytes, b: Bytes)
    requires |s.pending| < size
    decreases |s.pending| + |a|
    ensures Absorb(size, f, Absorb(size, f, s, a), b) == Absorb(size, f, s, a + b)
  {
    var all := s.pending + a;
    assert s.pending + (a + b) == all + b;
    if |all| >= size {
      AbsorbAppend(size, f, Buffered(f(s.chain, all[..size]), []), all[size..], b);
      assert (all + b)[..size] == all[..size];
      assert (all + b)[size..] == all[size..] + b;
    }
  }

  /** One block's worth of data is exactly one compression. */
  lemma AbsorbBlock<S>(size: nat, f: (S, Bytes) -> S, s: Buffered<S>, data: Bytes)
    requires |s.pending| < size && |s.pending| + |data| == size
    ensures Absorb(size, f, s, data) == Buffered(f(s.chain, s.pending + data), [])
  {
    var all := s.pending + data;
    assert all[..size] == all && all[size..] == [];
    var next := Buffered(f(s.chain, all), []);
    assert Absorb(size, f, next, []) == next;
  }

  /** Less than fills the block is only kept. */
  lemma AbsorbShort<S>(size: nat, f: (S, Bytes) -> S, s: Buffered<S>, data: Bytes)
    requires |s.pending| + |data| < size
    ensures Absorb(size, f, s, data) == s.(pending := s.pending + data)
  {
  }

  lemma AbsorbNothing<S>(size: nat, f: (S, Bytes) -> S, s: Buffered<S>)
    requires |s.pending| < size
    ensures Absorb(size, f, s, []) == s
  {
    assert s.pending + [] == s.pending;
  }

  /** The chain value after all whole blocks of `data`. */
  function FoldBlocks<S>(size: nat, f: (S, Bytes) -> S, chain: S, data: Bytes): S
    requires size > 0
    decreases |data|
  {
    if |data| < size then chain else FoldBlocks(size, f, f(chain, data[..size]), data[size..])
  }

  /** What is left after all whole blocks. */
  function Rest(size: nat, data: Bytes): (r: Bytes)
    requires size > 0
    decreases |data|
    ensures |r| < size && |r| <= |data|
  {
    if |data| < size then data else Rest(size, data[size..])
  }

  lemma {:induction false} AbsorbIsFold<S>(size: nat, f: (S, Bytes) -> S, chain: S, data: Bytes)
    requires size > 0
    decreases |data|
    ensures Absorb(size, f, Buffered(chain, []), data) == Buffered(FoldBlocks(size, f, chain, data), Rest(size, data))
  {
    assert [] + data == data;
    if |data| >= size {
      AbsorbIsFold(size, f, f(chain, data[..size]), data[size..]);
    }
  }

  /** A message's whole blocks come first, whatever is put behind the rest. */
  lemma {:induction false} FoldWhole<S>(size: nat, f: (S, Bytes) -> S, chain: S, data: Bytes, tail: Bytes)
    requires size > 0
    decreases |data|
    ensures FoldBlocks(size, f, chain, data + tail)
      == FoldBlocks(size, f, FoldBlocks(size, f, chain, data), Rest(size, data) + tail)
  {
    if |data| >= size {
      assert (data + tail)[..size] == data[..size];
      assert (data + tail)[size..] == data[size..] + tail;
      FoldWhole(size, f, f(chain, data[..size]), data[size..], tail);
    }
  }

  lemma FoldOne<S>(size: nat, f: (S, Bytes) -> S, chain: S, block: Bytes, tail: Bytes)
    requires size > 0 && |block| == size
    ensures FoldBlocks(size, f, chain, block + tail) == FoldBlocks(size, f, f(chain, block), tail)
  {
    assert (block + tail)[..size] == block && (block + tail)[size..] == tail;
  }

  function Joined(pieces: seq<Bytes>): Bytes {
    if pieces == [] then [] else pieces[0] + Joined(pieces[1..])
  }

  lemma {:induction false} JoinedAppend(pieces: seq<Bytes>, last: Bytes)
    ensures Joined(pieces + [last]) == Joined(pieces) + last
  {
    if pieces == [] {
      assert [last][1..] == [];
      assert Joined([last]) == last + [];
    } else {
      assert (pieces + [last])[1..] == pieces[1..] + [last];
      JoinedAppend(pieces[1..], last);
    }
  }

  /** The most significant byte first. */
  function BigEndian(x: nat, k: nat): (r: Bytes)
    ensures |r| == k
  {
    if k == 0 then [] else BigEndian(x / 256, k - 1) + [(x % 256) as bv8]
  }

  lemma {:induction false} ByteValue(y: nat)
    requires y < 256
    ensures (y as bv8) as nat == y
  {
    var d := ByteFor(y);
    assert (d as nat) as bv8 == d;
  }

  lemma {:induction false} ByteFor(y: nat) returns (d: bv8)
    requires y < 256
    ensures d as nat == y
  {
    if y == 0 {
      d := 0;
    } else {
      d := ByteFor(y - 1);
      NextByte(d);
      d := d + 1;
    }
  }

  lemma NextByte(d: bv8)
    requires d != 255
    ensures (d + 1) as nat == d as nat + 1
  {
  }

  /** Byte `i` from the end is the digit of weight 256^i. */
  lemma {:induction false} BigEndianDigit(x: nat, k: nat, i: nat)
    requires i < k
    ensures BigEndian(x, k)[k - 1 - i] as nat == x / Pow2(8 * i) % 256
  {
    ByteValue(x % 256);
    if i > 0 {
      BigEndianDigit(x / 256, k - 1, i - 1);
      PowAdd(8, 8 * (i - 1));
      Pow2Values();
      DivDiv(x, 256, Pow2(8 * (i - 1)));
    }
  }

  function ZeroBytes(n: nat): (r: Bytes)
    ensures |r| == n
  {
    seq(n, _ => 0)
  }
}
