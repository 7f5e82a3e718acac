/**
 SHA-256 as FIPS 180-4 defines it: the functions of section 4.1.2, the padding of section
 5.1.1 and the computation of section 6.2.2.
 */
module Sha256Spec {
  import opened Streaming
  import opened Words

  type Word = bv32

  datatype Hash = Hash(a: Word, b: Word, c: Word, d: Word, e: Word, f: Word, g: Word, h: Word)

  function Rotr(x: Word, n: Word): Word
    requires n <= 32
  {
    (x >> n) | (x << (32 - n))
  }

  function Xor3(a: Word, b: Word, c: Word): Word {
    a ^ b ^ c
  }

  function Add(a: Word, b: Word): Word {
    a + b
  }

  function Ch(x: Word, y: Word, z: Word): Word {
    (x & y) ^ (!x & z)
  }

  function Maj(x: Word, y: Word, z: Word): Word {
    (x & y) ^ (x & z) ^ (y & z)
  }

  function BigSigma0(x: Word): Word {
    Xor3(Rotr(x, 2), Rotr(x, 13), Rotr(x, 22))
  }

  function BigSigma1(x: Word): Word {
    Xor3(Rotr(x, 6), Rotr(x, 11), Rotr(x, 25))
  }

  function SmallSigma0(x: Word): Word {
    Xor3(Rotr(x, 7), Rotr(x, 18), x >> 3)
  }

  function SmallSigma1(x: Word): Word {
    Xor3(Rotr(x, 17), Rotr(x, 19), x >> 10)
  }

  /** A row of the table of constants; rows 0 to 7 hold eight constants each. */
  function ConstantRow(row: nat): (r: seq<Word>)
    ensures |r| == 8
  {
    if row == 0 then [0x428a2f98, 0x71374491, 0xb5c0fbcf, 0xe9b5dba5, 0x3956c25b, 0x59f111f1, 0x923f82a4, 0xab1c5ed5]
    else if row == 1 then [0xd807aa98, 0x12835b01, 0x243185be, 0x550c7dc3, 0x72be5d74, 0x80deb1fe, 0x9bdc06a7,
      0xc19bf174]
    else if row == 2 then [0xe49b69c1, 0xefbe4786, 0x0fc19dc6, 0x240ca1cc, 0x2de92c6f, 0x4a7484aa, 0x5cb0a9dc,
      0x76f988da]
    else if row == 3 then [0x983e5152, 0xa831c66d, 0xb00327c8, 0xbf597fc7, 0xc6e00bf3, 0xd5a79147, 0x06ca6351,
      0x14292967]
    else if row == 4 then [0x27b70a85, 0x2e1b2138, 0x4d2c6dfc, 0x53380d13, 0x650a7354, 0x766a0abb, 0x81c2c92e,
      0x92722c85]
    else if row == 5 then [0xa2bfe8a1, 0xa81a664b, 0xc24b8b70, 0xc76c51a3, 0xd192e819, 0xd6990624, 0xf40e3585,
      0x106aa070]
    else if row == 6 then [0x19a4c116, 0x1e376c08, 0x2748774c, 0x34b0bcb5, 0x391c0cb3, 0x4ed8aa4a, 0x5b9cca4f,
      0x682e6ff3]
    else [0x748f82ee, 0x78a5636f, 0x84c87814, 0x8cc70208, 0x90befffa, 0xa4506ceb, 0xbef9a3f7, 0xc67178f2]
  }

  function K(t: nat): Word {
    ConstantRow(t / 8)[t % 8]
  }

  /** Big-endian word `t` of a block. */
  function MessageWord(block: Bytes, t: nat): Word {
    if 4 * t + 3 < |block| then
      ((block[4 * t] as Word) << 24) | ((block[4 * t + 1] as Word) << 16) | ((block[4 * t
        + 2] as Word) << 8) | (block[4 * t + 3] as Word)
    else 0
  }

  /** The message schedule. */
  function W(block: Bytes, t: nat): Word {
    if t < 16 then MessageWord(block, t)
    else Add(Add(Add(SmallSigma1(W(block, t - 2)), W(block, t - 7)), SmallSigma0(W(block, t - 15))), W(block, t - 16))
  }

  /** One step on the eight working variables. */
  function Round(v: Hash, w: Word, k: Word): Hash {
    var t1 := Add(Add(Add(Add(v.h, BigSigma1(v.e)), Ch(v.e, v.f, v.g)), k), w);
    var t2 := Add(BigSigma0(v.a), Maj(v.a, v.b, v.c));
    Hash(Add(t1, t2), v.a, v.b, v.c, Add(v.d, t1), v.e, v.f, v.g)
  }

  function Rounds(v: Hash, block: Bytes, n: nat): Hash {
    if n == 0 then v else Round(Rounds(v, block, n - 1), W(block, n - 1), K(n - 1))
  }

  function AddHash(x: Hash, y: Hash): Hash {
    Hash(Add(x.a, y.a), Add(x.b, y.b), Add(x.c, y.c), Add(x.d, y.d), Add(x.e, y.e), Add(x.f, y.f), Add(x.g, y.g),
      Add(x.h, y.h))
  }

  /** One message block. */
  function Compress(h: Hash, block: Bytes): Hash {
    AddHash(h, Rounds(h, block, 64))
  }

  function InitialHash(): Hash {
    Hash(0x6a09e667, 0xbb67ae85, 0x3c6ef372, 0xa54ff53a, 0x510e527f, 0x9b05688c, 0x1f83d9ab, 0x5be0cd19)
  }

  /** The number of zero bytes after the one bit's byte: the least that leaves the message a
      whole number of blocks once the eight length bytes are added. */
  function PaddingZeros(length: nat): (k: nat)
    ensures k < 64 && (length + 1 + k + 8) % 64 == 0
  {
    (119 - length % 64) % 64
  }

  /** The padded message; the length in bits is taken modulo 2^64. */
  function Padded(msg: Bytes): Bytes {
    msg + ([0x80] + ZeroBytes(PaddingZeros(|msg|)) + BigEndian(8 * |msg| % 0x1_0000_0000_0000_0000, 8))
  }

  function WordBytes(w: Word): (r: Bytes)
    ensures |r| == 4
  {
    BigEndian(w as nat, 4)
  }

  function HashBytes(h: Hash): Bytes {
    WordBytes(h.a) + WordBytes(h.b) + WordBytes(h.c) + WordBytes(h.d) + WordBytes(h.e) + WordBytes(h.f)
      + WordBytes(h.g) + WordBytes(h.h)
  }

  function HashWord(h: Hash, i: nat): Word
    requires i < 8
  {
    [h.a, h.b, h.c, h.d, h.e, h.f, h.g, h.h][i]
  }

  /** Bytes 4 * i to 4 * i + 3 are those of word `i`, the most significant first. */
  lemma HashBytesDigit(h: Hash, i: nat, j: nat)
    requires i < 8 && j < 4
    ensures |HashBytes(h)| == 32
    ensures HashBytes(h)[4 * i + j] as nat == HashWord(h, i) as nat / Pow2(8 * (3 - j)) % 256
  {
    hide BigEndian, Pow2, WordBytes;
    WordInRow(WordBytes(h.a), WordBytes(h.b), WordBytes(h.c), WordBytes(h.d), WordBytes(h.e), WordBytes(h.f),
              WordBytes(h.g), WordBytes(h.h), i, j);
    assert HashBytes(h)[4 * i + j] == WordBytes(HashWord(h, i))[j];
    WordBytesDigit(HashWord(h, i), j);
  }

  lemma WordBytesDigit(w: Word, j: nat)
    requires j < 4
    ensures |WordBytes(w)| == 4 && WordBytes(w)[j] as nat == w as nat / Pow2(8 * (3 - j)) % 256
  {
    hide BigEndian, Pow2;
    BigEndianDigit(w as nat, 4, 3 - j);
  }

  lemma WordInRow(a: Bytes, b: Bytes, c: Bytes, d: Bytes, e: Bytes, f: Bytes, g: Bytes, h: Bytes, i: nat, j: nat)
    requires |a| == |b| == |c| == |d| == |e| == |f| == |g| == |h| == 4 && i < 8 && j < 4
    ensures (a + b + c + d + e + f + g + h)[4 * i + j] == [a, b, c, d, e, f, g, h][i][j]
  {
  }

  function Digest(msg: Bytes): Bytes {
    HashBytes(FoldBlocks(64, Compress, InitialHash(), Padded(msg)))
  }
}
