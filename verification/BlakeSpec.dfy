/**
 BLAKE-224/256 (64-byte blocks, 32-bit words) and BLAKE-384/512 (128-byte blocks, 64-bit
 words) around an arbitrary compression function: padding, and the counter each
 compression sees, as the BLAKE submission defines them.
 */
module BlakeSpec {
  import opened Arithmetic
  import opened Streaming
  import opened Words

  /** A compression function on a chain value, a block and the two counter words. */
  type Compress = (seq<nat>, Bytes, nat, nat) -> seq<nat>

  predicate IsSize(size: nat) {
    size == 64 || size == 128
  }

  function WordBytes(size: nat): nat {
    if size == 64 then 4 else 8
  }

  /** Where the length field starts in the last block. */
  function LengthAt(size: nat): nat {
    if size == 64 then 56 else 112
  }

  function BlockBits(size: nat): nat {
    if size == 64 then 512 else 1024
  }

  /** The modulus of a counter word. */
  function Word(size: nat): (w: nat)
    ensures w > 0
  {
    if size == 64 then 0x1_0000_0000 else 0x1_0000_0000_0000_0000
  }

  /** The low and high counter words of a number of bits. */
  function Low(size: nat, bits: nat): nat {
    bits % Word(size)
  }

  function High(size: nat, bits: nat): nat {
    bits / Word(size) % Word(size)
  }

  /** The first `n` bits of `ub`, a one bit, and zeros. */
  function TailByte(ub: bv8, n: nat): bv8
    requires n < 8
  {
    var z: bv8 := 0x80 >> n;
    (ub & -z) | z
  }

  /** The bits of a byte, the first one first. */
  const PLACES: seq<bv8> := [0x80, 0x40, 0x20, 0x10, 0x08, 0x04, 0x02, 0x01]

  lemma TailByteCuts(ub: bv8, n: nat)
    requires n < 8
    ensures TailByte(ub, n) == (ub & [0, 0x80, 0xC0, 0xE0, 0xF0, 0xF8, 0xFC, 0xFE][n]) | PLACES[n]
  {
    var z: bv8 := 0x80 >> n;
    assert z == PLACES[n];
  }

  /** Bit by bit: the first `n` bits of `ub`, then a one, then zeros. */
  lemma TailByteBits(ub: bv8, n: nat, i: nat)
    requires n < 8 && i < 8
    ensures TailByte(ub, n) & PLACES[i] == if i < n then ub & PLACES[i] else if i == n then PLACES[i] else 0
  {
    hide TailByte;
    TailByteCuts(ub, n);
  }

  function SetLowBit(b: bv8): bv8 {
    b | 1
  }

  /** The marker bit before the length field, for the full-size digests only. */
  function WithMarker(s: Bytes, marker: bool): (r: Bytes)
    requires |s| > 0
    ensures |r| == |s|
  {
    if marker then s[|s| - 1 := SetLowBit(s[|s| - 1])] else s
  }

  function LengthField(size: nat, bits: nat): (r: Bytes)
    requires IsSize(size)
    ensures |r| == size - LengthAt(size)
  {
    BigEndian(High(size, bits), WordBytes(size)) + BigEndian(Low(size, bits), WordBytes(size))
  }

  lemma MarkerIsLowBit(b: bv8)
    ensures SetLowBit(b) & 1 == 1 && SetLowBit(b) & 0xFE == b & 0xFE
  {
  }

  /** A digit survives a reduction modulo a higher power of the base. */
  lemma DigitBelow(x: nat, a: nat, c: nat)
    requires a >= 1 && c >= 1
    ensures a * (256 * c) >= 1 && x % (a * (256 * c)) / a % 256 == x / a % 256
  {
    ProductGrows(a, 256 * c);
    var w := a * (256 * c);
    var q, d, r := x / w, x / a, x % a;
    assert x == w * q + x % w && x == a * d + r;
    var e := d - 256 * (c * q);
    assert a * e == a * d - a * (256 * (c * q));
    assert a * (256 * (c * q)) == w * q by {
      assert 256 * (c * q) == 256 * c * q;
      assert a * (256 * c * q) == a * (256 * c) * q;
    }
    assert x % w == a * e + r;
    DivMod(x % w, a, e, r);
    SameRemainder(e, d, 256, -(c * q));
  }

  lemma WordDigit(size: nat, x: nat, i: nat)
    requires IsSize(size) && i < WordBytes(size)
    ensures x % Word(size) / Pow2(8 * i) % 256 == x / Pow2(8 * i) % 256
  {
    WordIsPower(size);
    var rest := WordBytes(size) - 1 - i;
    PowAdd(8 * i, 8 + 8 * rest);
    PowAdd(8, 8 * rest);
    Pow2Values();
    hide Pow2, Word;
    DigitBelow(x, Pow2(8 * i), Pow2(8 * rest));
  }

  lemma WordIsPower(size: nat)
    requires IsSize(size)
    ensures Word(size) == Pow2(8 * WordBytes(size))
  {
    hide Pow2;
    Pow2Values();
    PowAdd(8, 8);
    PowAdd(16, 16);
    PowAdd(32, 32);
  }

  /** The length field is the number of bits, most significant byte first. */
  lemma LengthFieldDigit(size: nat, bits: nat, i: nat)
    requires IsSize(size) && i < 2 * WordBytes(size)
    ensures |LengthField(size, bits)| == 2 * WordBytes(size)
    ensures LengthField(size, bits)[2 * WordBytes(size) - 1 - i] as nat == bits / Pow2(8 * i) % 256
  {
    hide BigEndian, Pow2, Word;
    var n := WordBytes(size);
    if i < n {
      BigEndianDigit(Low(size, bits), n, i);
      WordDigit(size, bits, i);
    } else {
      BigEndianDigit(High(size, bits), n, i - n);
      WordDigit(size, bits / Word(size), i - n);
      WordIsPower(size);
      PowAdd(8 * n, 8 * (i - n));
      DivDiv(bits, Word(size), Pow2(8 * (i - n)));
    }
  }

  /** Whether the message end leaves room for two padding bits and the length. */
  predicate FitsOneBlock(size: nat, rest: nat, n: nat) {
    8 * rest + n + 2 <= 8 * LengthAt(size)
  }

  /** The last block or two: `rest` is the message's incomplete block. */
  function LastBlocks(size: nat, rest: Bytes, ub: bv8, n: nat, marker: bool, bits: nat): Bytes
    requires IsSize(size) && |rest| < size && n < 8
  {
    if FitsOneBlock(size, |rest|, n) then
      rest + WithMarker([TailByte(ub, n)] + ZeroBytes(LengthAt(size) - |rest| - 1), marker) + LengthField(size, bits)
    else
      rest + [TailByte(ub, n)] + ZeroBytes(size - |rest| - 1)
      + WithMarker(ZeroBytes(LengthAt(size)), marker) + LengthField(size, bits)
  }

  function Padded(size: nat, msg: Bytes, ub: bv8, n: nat, marker: bool, bits: nat): Bytes
    requires IsSize(size) && n < 8
  {
    if |msg| >= size then msg[..size] + Padded(size, msg[size..], ub, n, marker, bits)
    else LastBlocks(size, msg, ub, n, marker, bits)
  }

  lemma LastBlocksLength(size: nat, rest: Bytes, ub: bv8, n: nat, marker: bool, bits: nat)
    requires IsSize(size) && |rest| < size && n < 8
    ensures |LastBlocks(size, rest, ub, n, marker, bits)| == if FitsOneBlock(size, |rest|, n) then size else 2 * size
    ensures rest <= LastBlocks(size, rest, ub, n, marker, bits)
  {
    hide TailByte, WithMarker, LengthField;
  }

  /** `k` blocks in bytes. */
  function BlockBytes(size: nat, k: nat): nat {
    if size == 64 then 64 * k else 128 * k
  }

  /** The padded message is the message, extended to the least whole number of blocks that
      also holds two padding bits and the length. */
  lemma {:induction false} PaddedIsLeast(size: nat, msg: Bytes, ub: bv8, n: nat, marker: bool, bits: nat)
    returns (k: nat)
    requires IsSize(size) && n < 8
    ensures msg <= Padded(size, msg, ub, n, marker, bits)
    ensures |Padded(size, msg, ub, n, marker, bits)| == BlockBytes(size, k)
    ensures var needed := 8 * |msg| + n + 2 + 8 * (size - LengthAt(size));
      k >= 1 && 8 * BlockBytes(size, k - 1) < needed <= 8 * BlockBytes(size, k)
  {
    hide LastBlocks;
    if |msg| >= size {
      k := PaddedIsLeast(size, msg[size..], ub, n, marker, bits);
      k := k + 1;
      assert msg == msg[..size] + msg[size..];
    } else {
      LastBlocksLength(size, msg, ub, n, marker, bits);
      k := if FitsOneBlock(size, |msg|, n) then 1 else 2;
    }
  }

  /** The counter of the block at byte `at`: the message bits up to the block's end, or zero
      when the block holds padding only. */
  function CounterAt(size: nat, at: nat, bits: nat): nat {
    if 8 * at >= bits then 0 else if 8 * (at + size) <= bits then 8 * (at + size) else bits
  }

  /** The chain value after all whole blocks of `data`, which starts at byte `at`. */
  function Fold(size: nat, f: Compress, h: seq<nat>, data: Bytes, at: nat, bits: nat): seq<nat>
    requires IsSize(size)
    decreases |data|
  {
    if |data| < size then h
    else
      var t := CounterAt(size, at, bits);
      Fold(size, f, f(h, data[..size], Low(size, t), High(size, t)), data[size..], at + size, bits)
  }

  /** The chain value of a message of bytes followed by the first `n` bits of `ub`. */
  function Digest(size: nat, f: Compress, iv: seq<nat>, msg: Bytes, ub: bv8, n: nat, marker: bool): seq<nat>
    requires IsSize(size) && n < 8
  {
    var bits := 8 * |msg| + n;
    Fold(size, f, iv, Padded(size, msg, ub, n, marker, bits), 0, bits)
  }
}
