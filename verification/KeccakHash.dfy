/**
 The source's hashes put together: the sponge of `Sha3` around the permutation of `Keccak`,
 which reads the 200 bytes of the state as 25 little-endian lanes. The result is the function
 that FIPS 202 defines on bit strings, section 4 for the sponge, 5.1 for the padding and 6.1
 for the hash functions; Keccak is the same without the suffix bits.
 */
module KeccakHash {
  import opened Arithmetic
  import opened KeccakSpec
  import opened Streaming
  import opened Words
  import Keccak
  import Sha3

  // ---------- bytes and bits ----------

  function Mask(k: nat): bv8 {
    if k == 0 then 0x01 else if k == 1 then 0x02 else if k == 2 then 0x04 else if k == 3 then 0x08
    else if k == 4 then 0x10 else if k == 5 then 0x20 else if k == 6 then 0x40 else 0x80
  }

  function BitOf(b: bv8, k: nat): bool {
    b & Mask(k) != 0
  }

  function Weight(k: nat, bit: bool): bv8 {
    if bit then Mask(k) else 0
  }

  function ByteOf(b0: bool, b1: bool, b2: bool, b3: bool, b4: bool, b5: bool, b6: bool, b7: bool): bv8 {
    Weight(0, b0) | Weight(1, b1) | Weight(2, b2) | Weight(3, b3)
    | Weight(4, b4) | Weight(5, b5) | Weight(6, b6) | Weight(7, b7)
  }

  /** The bits of bytes, least significant first in every byte. */
  function BitsOf(bytes: Bytes): (r: Bits)
    ensures |r| == 8 * |bytes|
  {
    seq(8 * |bytes|, i requires 0 <= i < 8 * |bytes| => BitOf(bytes[i / 8], i % 8))
  }

  function ByteAt(s: Bits, i: nat): bv8 {
    ByteOf(Bit(s, 8 * i), Bit(s, 8 * i + 1), Bit(s, 8 * i + 2), Bit(s, 8 * i + 3),
           Bit(s, 8 * i + 4), Bit(s, 8 * i + 5), Bit(s, 8 * i + 6), Bit(s, 8 * i + 7))
  }

  function BytesOf(s: Bits): (r: Bytes)
    ensures |r| == |s| / 8
  {
    seq(|s| / 8, i requires 0 <= i < |s| / 8 => ByteAt(s, i))
  }

  lemma ByteHasBits(b0: bool, b1: bool, b2: bool, b3: bool, b4: bool, b5: bool, b6: bool, b7: bool)
    ensures var b := ByteOf(b0, b1, b2, b3, b4, b5, b6, b7);
      && BitOf(b, 0) == b0 && BitOf(b, 1) == b1 && BitOf(b, 2) == b2 && BitOf(b, 3) == b3
      && BitOf(b, 4) == b4 && BitOf(b, 5) == b5 && BitOf(b, 6) == b6 && BitOf(b, 7) == b7
  {
  }

  lemma XorBit(a: bv8, b: bv8, k: nat)
    ensures BitOf(Sha3.XorByte(a, b), k) == (BitOf(a, k) != BitOf(b, k))
  {
  }

  lemma ByteAtBit(s: Bits, j: nat, k: nat)
    requires k < 8
    ensures BitOf(ByteAt(s, j), k) == Bit(s, 8 * j + k)
  {
    hide ByteOf, BitOf;
    ByteHasBits(Bit(s, 8 * j), Bit(s, 8 * j + 1), Bit(s, 8 * j + 2), Bit(s, 8 * j + 3),
                Bit(s, 8 * j + 4), Bit(s, 8 * j + 5), Bit(s, 8 * j + 6), Bit(s, 8 * j + 7));
  }

  /** Bits packed into bytes are the same bits. */
  lemma BitsOfBytesOf(s: Bits)
    requires |s| % 8 == 0
    ensures BitsOf(BytesOf(s)) == s
  {
    hide ByteAt, BitOf;
    forall i | 0 <= i < |s|
      ensures BitsOf(BytesOf(s))[i] == s[i]
    {
      ByteAtBit(s, i / 8, i % 8);
      assert BytesOf(s)[i / 8] == ByteAt(s, i / 8);
    }
  }

  lemma BitsAppend(a: Bytes, b: Bytes)
    ensures BitsOf(a + b) == BitsOf(a) + BitsOf(b)
  {
    hide BitOf;
    forall i | 0 <= i < 8 * |a + b|
      ensures BitsOf(a + b)[i] == (BitsOf(a) + BitsOf(b))[i]
    {
      if i >= 8 * |a| {
        var j := i - 8 * |a|;
        assert i / 8 == j / 8 + |a| && i % 8 == j % 8;
      }
    }
  }

  lemma BitsPrefix(a: Bytes, n: nat)
    requires n <= |a|
    ensures BitsOf(a[..n]) == BitsOf(a)[..8 * n]
  {
    BitsAppend(a[..n], a[n..]);
    assert a[..n] + a[n..] == a;
  }

  // ---------- the state ----------

  /** Lane i of a state string, FIPS 202 section 3.1.2. */
  function LaneAt(s: Bits, i: nat): Lane {
    Lane(seq(64, z => Bit(s, 64 * i + z)))
  }

  function StateOf(s: Bits): State {
    State(
      LaneAt(s, 0), LaneAt(s, 1), LaneAt(s, 2), LaneAt(s, 3), LaneAt(s, 4),
      LaneAt(s, 5), LaneAt(s, 6), LaneAt(s, 7), LaneAt(s, 8), LaneAt(s, 9),
      LaneAt(s, 10), LaneAt(s, 11), LaneAt(s, 12), LaneAt(s, 13), LaneAt(s, 14),
      LaneAt(s, 15), LaneAt(s, 16), LaneAt(s, 17), LaneAt(s, 18), LaneAt(s, 19),
      LaneAt(s, 20), LaneAt(s, 21), LaneAt(s, 22), LaneAt(s, 23), LaneAt(s, 24))
  }

  /** The state string, section 3.1.3. */
  function StringOf(a: State): (s: Bits)
    ensures |s| == 1600
  {
    seq(1600, b requires 0 <= b < 1600 => Bit(At(a, b / 64 % 5, b / 320).bits, b % 64))
  }

  /** KECCAK-f[1600] on state strings, section 3.4. */
  function KeccakF(s: Bits): (r: Bits)
    ensures |r| == 1600
  {
    StringOf(Rounds(StateOf(s), 24))
  }

  /** The same on the 200 bytes of the state. */
  function Permute(s: Bytes): (r: Bytes)
    ensures |r| == 200
  {
    BytesOf(KeccakF(BitsOf(s)))
  }

  lemma LaneBit(s: Bits, i: nat, z: nat)
    requires z < 64
    ensures |LaneAt(s, i).bits| == 64 && LaneAt(s, i).bits[z] == Bit(s, 64 * i + z)
  {
  }

  lemma BitIs(bytes: Bytes, j: nat, k: nat)
    requires j < |bytes| && k < 8
    ensures Bit(BitsOf(bytes), 8 * j + k) == BitOf(bytes[j], k)
  {
    hide BitOf;
    assert (8 * j + k) / 8 == j && (8 * j + k) % 8 == k;
  }

  /** Eight bytes are a lane, the least significant byte first. */
  lemma LaneIsLittleEndian(s: Bytes, i: nat)
    requires 8 * i + 8 <= |s|
    ensures LaneAt(BitsOf(s), i) == Lane(BitsOf(s[8 * i..8 * i + 8]))
  {
    hide BitOf, LaneAt, BitsOf;
    var eight := s[8 * i..8 * i + 8];
    var l, r := LaneAt(BitsOf(s), i).bits, BitsOf(eight);
    LaneBit(BitsOf(s), i, 0);
    forall z | 0 <= z < 64
      ensures l[z] == r[z]
    {
      var j, k := z / 8, z % 8;
      LaneBit(BitsOf(s), i, z);
      BitIs(s, 8 * i + j, k);
      BitIs(eight, j, k);
      assert 8 * (8 * i + j) + k == 64 * i + z;
    }
    assert l == r;
  }

  function LittleEndian(bytes: Bytes): nat {
    if bytes == [] then 0 else bytes[0] as nat + 256 * LittleEndian(bytes[1..])
  }

  lemma ByteValue(b: bv8)
    ensures b as nat
         == Digit(BitOf(b, 0), 1) + Digit(BitOf(b, 1), 2) + Digit(BitOf(b, 2), 4) + Digit(BitOf(b, 3), 8)
          + Digit(BitOf(b, 4), 16) + Digit(BitOf(b, 5), 32) + Digit(BitOf(b, 6), 64) + Digit(BitOf(b, 7), 128)
  {
  }

  lemma {:induction false} DigitsFrom(b: bv8, k: nat, weight: nat)
    requires k < 8
    ensures weight * ToNat(BitsOf([b])[k..])
         == Digit(BitOf(b, k), weight) + if k == 7 then 0 else 2 * weight * ToNat(BitsOf([b])[k + 1..])
  {
    hide BitOf;
    var bits := BitsOf([b]);
    BitIs([b], 0, k);
    assert bits[k..][1..] == bits[k + 1..];
    assert k == 7 ==> bits[k + 1..] == [];
  }

  lemma ByteNumber(b: bv8)
    ensures ToNat(BitsOf([b])) == b as nat
  {
    hide BitOf, BitsOf, Digit, ToNat;
    ByteValue(b);
    DigitsFrom(b, 0, 1); DigitsFrom(b, 1, 2); DigitsFrom(b, 2, 4); DigitsFrom(b, 3, 8);
    DigitsFrom(b, 4, 16); DigitsFrom(b, 5, 32); DigitsFrom(b, 6, 64); DigitsFrom(b, 7, 128);
    assert BitsOf([b])[0..] == BitsOf([b]);
  }

  lemma NoBits()
    ensures ToNat(BitsOf([])) == 0
  {
  }

  /** The lane as a number is the little-endian value of its bytes. */
  lemma {:induction false} LaneValue(bytes: Bytes)
    ensures ToNat(BitsOf(bytes)) == LittleEndian(bytes)
  {
    hide BitsOf, ToNat, Pow2;
    if bytes == [] {
      NoBits();
    } else {
      var b, rest := bytes[0], bytes[1..];
      LaneValue(rest);
      assert [b] + rest == bytes;
      BitsAppend([b], rest);
      ToNatConcat(BitsOf([b]), BitsOf(rest));
      Pow2Values();
      ByteNumber(b);
    }
  }

  lemma LanesAre(a: array<Lane>, s: Bits)
    requires a.Length == 25 && forall i :: 0 <= i < 25 ==> a[i] == LaneAt(s, i)
    ensures Keccak.StateOf(a) == StateOf(s)
  {
    hide LaneAt;
  }

  lemma LaneNumber(a: array<Lane>, i: nat)
    requires a.Length == 25 && i < 25
    ensures At(Keccak.StateOf(a), i % 5, i / 5) == a[i]
  {
  }

  /** `sha3llTransform` on the memory of the context: 25 lanes are loaded, permuted in place
      and stored. */
  method Transform(state: array<bv8>)
    requires state.Length == 200
    modifies state
    ensures state[..] == Permute(old(state[..]))
  {
    hide BitOf, BitsOf, Rounds, LaneAt, ByteAt, StringOf, StateOf, Keccak.StateOf, At;
    ghost var bytes := state[..];
    ghost var before := BitsOf(bytes);
    var lanes := new Lane[25];
    for i := 0 to 25
      invariant forall k :: 0 <= k < i ==> lanes[k] == LaneAt(before, k)
      invariant state[..] == bytes
    {
      LaneIsLittleEndian(state[..], i);
      lanes[i] := Lane(BitsOf(state[8 * i..8 * i + 8]));
    }
    LanesAre(lanes, before);
    Keccak.Transform(lanes);
    ghost var permuted := Keccak.StateOf(lanes);
    ghost var after := StringOf(permuted);
    for i := 0 to 25
      invariant forall k :: 0 <= k < 8 * i ==> state[k] == ByteAt(after, k)
      invariant Keccak.StateOf(lanes) == permuted
    {
      for j := 0 to 8
        invariant forall k :: 0 <= k < 8 * i + j ==> state[k] == ByteAt(after, k)
        invariant Keccak.StateOf(lanes) == permuted
      {
        LaneNumber(lanes, i);
        StoredByte(permuted, i, j);
        state[8 * i + j] := ByteAt(lanes[i].bits, j);
      }
    }
  }

  lemma StringBit(a: State, i: nat, z: nat)
    requires i < 25 && z < 64
    ensures Bit(StringOf(a), 64 * i + z) == Bit(At(a, i % 5, i / 5).bits, z)
  {
    hide At;
    var b := 64 * i + z;
    assert b / 64 == i && b % 64 == z && b / 320 == i / 5;
  }

  lemma StoredByte(a: State, i: nat, j: nat)
    requires i < 25 && j < 8
    ensures ByteAt(At(a, i % 5, i / 5).bits, j) == ByteAt(StringOf(a), 8 * i + j)
  {
    hide At, StringOf, ByteOf;
    StringBit(a, i, 8 * j); StringBit(a, i, 8 * j + 1); StringBit(a, i, 8 * j + 2); StringBit(a, i, 8 * j + 3);
    StringBit(a, i, 8 * j + 4); StringBit(a, i, 8 * j + 5); StringBit(a, i, 8 * j + 6); StringBit(a, i, 8 * j + 7);
  }

  // ---------- the standard's sponge ----------

  /** A block and the capacity's zeros, added to the state. */
  function XorBits(s: Bits, block: Bits): (r: Bits)
    ensures |r| == |s|
  {
    seq(|s|, i requires 0 <= i < |s| => s[i] != Bit(block, i))
  }

  function AbsorbBlocks(rate: nat, s: Bits, p: Bits): Bits
    requires rate > 0
    decreases |p|
  {
    if |p| < rate then s else AbsorbBlocks(rate, KeccakF(XorBits(s, p[..rate])), p[rate..])
  }

  function Squeeze(rate: nat, s: Bits, d: nat): Bits
    requires 0 < rate <= 1600 == |s|
    decreases d
  {
    if d <= rate then s[..d] else s[..rate] + Squeeze(rate, KeccakF(s), d - rate)
  }

  /** pad10*1, section 5.1. */
  function Pad(rate: nat, m: int): Bits
    requires rate > 0
  {
    var j: int := (-m - 2) % rate;
    [true] + ZeroBits(j) + [true]
  }

  /** The suffix bits of section 6.1; Keccak has none. */
  function Suffix(isKeccak: bool): Bits {
    if isKeccak then [] else [false, true]
  }

  /** The message digest of `d` bits with capacity `2 * d`. */
  function Standard(d: nat, isKeccak: bool, message: Bits): Bits
    requires 2 * d < 1600
  {
    var rate, n := 1600 - 2 * d, message + Suffix(isKeccak);
    var s := AbsorbBlocks(rate, ZeroBits(1600), n + Pad(rate, |n|));
    if |s| == 1600 then Squeeze(rate, s, d) else []
  }

  // ---------- the source's digest is the standard's ----------

  lemma StateBits(s: Bytes, block: Bytes)
    ensures BitsOf(Sha3.XorAt(s, 0, block)) == XorBits(BitsOf(s), BitsOf(block))
  {
    hide BitOf, BitsOf, Sha3.XorByte;
    var t := Sha3.XorAt(s, 0, block);
    var l, r := BitsOf(t), XorBits(BitsOf(s), BitsOf(block));
    forall i | 0 <= i < |l|
      ensures l[i] == r[i]
    {
      var j, k := i / 8, i % 8;
      BitIs(t, j, k);
      BitIs(s, j, k);
      if j < |block| {
        BitIs(block, j, k);
        XorBit(s[j], block[j], k);
      }
    }
    assert l == r;
  }

  lemma StepIs(s: Bytes, block: Bytes)
    ensures Sha3.Step(Permute)(s, block) == Permute(Sha3.XorAt(s, 0, block))
  {
    hide Permute, Sha3.XorAt;
  }

  lemma StepBits(s: Bytes, block: Bytes)
    ensures BitsOf(Sha3.Step(Permute)(s, block)) == KeccakF(XorBits(BitsOf(s), BitsOf(block)))
  {
    hide BitsOf, BytesOf, KeccakF, XorBits;
    StepIs(s, block);
    StateBits(s, block);
    BitsOfBytesOf(KeccakF(BitsOf(Sha3.XorAt(s, 0, block))));
  }

  lemma {:induction false} FoldBits(rate: nat, s: Bytes, data: Bytes)
    requires rate > 0
    decreases |data|
    ensures BitsOf(FoldBlocks(rate, Sha3.Step(Permute), s, data)) == AbsorbBlocks(8 * rate, BitsOf(s), BitsOf(data))
  {
    hide BitsOf, KeccakF, XorBits, Sha3.Step;
    if |data| >= rate {
      var next := Sha3.Step(Permute)(s, data[..rate]);
      StepBits(s, data[..rate]);
      BitsAppend(data[..rate], data[rate..]);
      assert data[..rate] + data[rate..] == data;
      var bits := BitsOf(data);
      assert bits[..8 * rate] == BitsOf(data[..rate]) && bits[8 * rate..] == BitsOf(data[rate..]);
      FoldBits(rate, next, data[rate..]);
    }
  }

  lemma {:induction false} FoldSize(rate: nat, s: Bytes, data: Bytes)
    requires rate > 0 && |s| == 200
    decreases |data|
    ensures |FoldBlocks(rate, Sha3.Step(Permute), s, data)| == 200
  {
    hide Sha3.Step, Permute;
    if |data| >= rate {
      StepIs(s, data[..rate]);
      FoldSize(rate, Sha3.Step(Permute)(s, data[..rate]), data[rate..]);
    }
  }

  lemma {:induction false} RestLength(rate: nat, msg: Bytes) returns (blocks: nat)
    requires rate > 0
    decreases |msg|
    ensures |msg| == rate * blocks + |Rest(rate, msg)|
  {
    blocks := 0;
    if |msg| >= rate {
      blocks := RestLength(rate, msg[rate..]);
      blocks := blocks + 1;
    }
  }

  /** The domain byte holds the suffix and the first padding bit; the last bit is 0x80. */
  lemma DomainBits(isKeccak: bool, k: nat)
    requires k < 8
    ensures BitOf(Sha3.DomainByte(isKeccak), k) == Bit(Suffix(isKeccak) + [true], k)
    ensures BitOf(0x80, k) == (k == 7) && !BitOf(0, k)
  {
  }

  lemma PadZeros(rate: nat, blocks: nat, rest: nat, u: nat)
    requires rest < rate && u <= 2
    ensures (-(8 * (rate * blocks + rest) + u) - 2) % (8 * rate) == 8 * (rate - rest) - u - 2
  {
    assert (8 * rate) * (-1 - blocks) == 0 - 8 * rate - 8 * (rate * blocks);
    DivMod(-(8 * (rate * blocks + rest) + u) - 2, 8 * rate, -1 - blocks, 8 * (rate - rest) - u - 2);
  }

  /** The bytes of the padding are the suffix, a one, zeros and a one. */
  lemma PaddingBits(rate: nat, rest: nat, isKeccak: bool)
    requires rest < rate
    ensures BitsOf(Sha3.Padding(rate, rest, isKeccak))
         == Suffix(isKeccak) + [true] + ZeroBits(8 * (rate - rest) - |Suffix(isKeccak)| - 2) + [true]
  {
    hide BitOf, BitsOf, Sha3.DomainByte, Sha3.XorByte;
    var padding := Sha3.Padding(rate, rest, isKeccak);
    var l := BitsOf(padding);
    var r := Suffix(isKeccak) + [true] + ZeroBits(8 * (rate - rest) - |Suffix(isKeccak)| - 2) + [true];
    forall i | 0 <= i < |l|
      ensures l[i] == r[i]
    {
      var j, k := i / 8, i % 8;
      BitIs(padding, j, k);
      DomainBits(isKeccak, k);
      XorBit(Sha3.DomainByte(isKeccak), 0x80, k);
    }
    assert l == r;
  }

  /** For every message and every digest size up to the rate, the source's digest is the
      standard's: SHA3, or Keccak without the suffix. */
  lemma DigestIsStandard(hashSize: nat, isKeccak: bool, msg: Bytes)
    requires hashSize <= Sha3.Rate(hashSize)
    ensures BitsOf(Sha3.Digest(Permute, hashSize, isKeccak, msg)) == Standard(8 * hashSize, isKeccak, BitsOf(msg))
  {
    hide BitsOf, Suffix, Sha3.Padding, Sha3.Step, FoldBlocks, Rest, AbsorbBlocks, Permute, Pad;
    var rate := Sha3.Rate(hashSize);
    var rest := |Rest(rate, msg)|;
    var padding := Sha3.Padding(rate, rest, isKeccak);
    PaddedBits(rate, isKeccak, msg);
    ZeroBytesAreZero(200);
    FoldBits(rate, ZeroBytes(200), msg + padding);
    FoldSize(rate, ZeroBytes(200), msg + padding);
    BitsPrefix(FoldBlocks(rate, Sha3.Step(Permute), ZeroBytes(200), msg + padding), hashSize);
  }

  lemma PaddedBits(rate: nat, isKeccak: bool, msg: Bytes)
    requires rate > 0
    ensures var n := BitsOf(msg) + Suffix(isKeccak);
      BitsOf(msg + Sha3.Padding(rate, |Rest(rate, msg)|, isKeccak)) == n + Pad(8 * rate, |n|)
  {
    hide BitsOf, Sha3.Padding;
    var blocks := RestLength(rate, msg);
    var rest := |Rest(rate, msg)|;
    var padding := Sha3.Padding(rate, rest, isKeccak);
    BitsAppend(msg, padding);
    PaddingBits(rate, rest, isKeccak);
    PadZeros(rate, blocks, rest, |Suffix(isKeccak)|);
    var n := BitsOf(msg) + Suffix(isKeccak);
    assert BitsOf(padding) == Suffix(isKeccak) + Pad(8 * rate, |n|);
    assert BitsOf(msg) + BitsOf(padding) == n + Pad(8 * rate, |n|);
  }

  lemma ZeroBytesAreZero(n: nat)
    ensures BitsOf(ZeroBytes(n)) == ZeroBits(8 * n)
  {
    DomainBits(true, 0);
    assert forall k :: BitOf(0, k) == false;
  }

  /** Any chunking of a message, and the one-shot form, compute the standard's digest. */
  method Hash(pieces: seq<Bytes>, hashSize: nat, isKeccak: bool) returns (hash: Bytes, oneShot: Bytes)
    requires hashSize <= Sha3.Rate(hashSize)
    ensures hash == oneShot && BitsOf(hash) == Standard(8 * hashSize, isKeccak, BitsOf(Joined(pieces)))
  {
    hide BitsOf, Sha3.Digest, Permute, Standard;
    hash, oneShot := Sha3.HashPieces(Permute, pieces, hashSize, isKeccak);
    DigestIsStandard(hashSize, isKeccak, Joined(pieces));
  }
}
