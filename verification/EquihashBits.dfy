/**
 Equihash's encodings bit by bit: which bit of the input every bit of a decoded index and
 of an expanded hash is, strings being read most significant bit first.
 */
module EquihashBits {
  import opened Arithmetic
  import opened Words
  import opened BitPacking
  import opened EquihashTree
  import opened Equihash

  /** Bit `q` of a string: bit 7 - q % 8 of byte q / 8. */
  predicate StringBit(s: Bytes, q: nat)
    requires q < 8 * |s|
  {
    s[q / 8] / Pow2(7 - q % 8) % 2 == 1
  }

  lemma {:induction false} BitsOfNatBit(n: nat, width: nat, j: nat)
    requires j < width
    ensures BitsOfNat(n, width)[j] <==> n / Pow2(width - 1 - j) % 2 == 1
  {
    if j < width - 1 {
      BitsOfNatBit(n / 2, width - 1, j);
      DivDiv(n, 2, Pow2(width - 2 - j));
    }
  }

  lemma {:induction false} BitsOfBit(s: Bytes, q: nat)
    requires q < 8 * |s|
    ensures BitsOf(s)[q] <==> StringBit(s, q)
  {
    hide BitsOfNat, Pow2;
    var n := |s| - 1;
    if q < 8 * n {
      BitsOfBit(s[..n], q);
    } else {
      BitsOfNatBit(s[n], 8, q - 8 * n);
    }
  }

  lemma {:induction false} ValBit(bits: Bits, k: nat)
    requires k < |bits|
    ensures Val(bits) / Pow2(k) % 2 == 1 <==> bits[|bits| - 1 - k]
  {
    hide Val, BitsOfNat, Pow2;
    BitsOfNatVal(bits);
    BitsOfNatBit(Val(bits), |bits|, |bits| - 1 - k);
  }

  /** Byte `x` of `width` big-endian bytes has weight 256^(width - 1 - x). */
  lemma BigEndianDigit(n: nat, width: nat, x: nat)
    requires x < width
    ensures BigEndian(n, width)[x] == n / Pow2(8 * (width - 1 - x)) % 256
  {
    hide BigEndian, Pow2;
    BigEndianAt(n, width, x);
  }

  /** Xor of bytes, bit by bit. */
  lemma XorByteBit(a: Byte, b: Byte, k: nat)
    requires k < 8
    ensures XorByte(a, b) / Pow2(k) % 2 == 1 <==> a / Pow2(k) % 2 != b / Pow2(k) % 2
  {
    hide XorByte, BitsOfNat, Pow2;
    XorByteBits(a, b);
    BitsOfNatBit(a, 8, 7 - k);
    BitsOfNatBit(b, 8, 7 - k);
    BitsOfNatBit(XorByte(a, b), 8, 7 - k);
  }

  // ---------- groups ----------

  lemma {:induction false} GroupValueAt(bits: Bits, len: nat, n: nat, m: nat)
    requires m < n && n * len <= |bits|
    ensures 0 <= m * len <= m * len + len <= |bits|
    ensures GroupValues(bits, len, n)[m] == Val(bits[m * len..m * len + len])
  {
    Times(n - 1, len);
    Times(m, len);
    if m < n - 1 {
      GroupValueAt(bits, len, n - 1, m);
    }
  }

  /** Bit `k` of index `m` stands `k` places before the end of group `m`. */
  lemma IndexBit(minimal: Bytes, c: nat, m: nat, k: nat)
    requires c <= 24 && m < |MinimalIndices(minimal, c)| && k <= c
    ensures m * (c + 1) + (c - k) < 8 * |minimal|
    ensures MinimalIndices(minimal, c)[m] / Pow2(k) % 2 == 1 <==> StringBit(minimal, m * (c + 1) + (c - k))
  {
    hide BitsOf, Val, Pow2, StringBit, GroupValues;
    var bits, len := BitsOf(minimal), c + 1;
    Divided(8 * |minimal|, len);
    GroupValueAt(bits, len, 8 * |minimal| / len, m);
    GroupBit(minimal, m * len, len, k);
  }

  lemma GroupBit(s: Bytes, at: nat, len: nat, k: nat)
    requires at + len <= 8 * |s| && k < len
    ensures Val(BitsOf(s)[at..at + len]) / Pow2(k) % 2 == 1 <==> StringBit(s, at + (len - 1 - k))
  {
    hide BitsOf, Val, Pow2, StringBit;
    ValBit(BitsOf(s)[at..at + len], k);
    BitsOfBit(s, at + (len - 1 - k));
  }

  lemma {:induction false} ExpandedAt(bits: Bits, len: nat, width: nat, n: nat, m: nat, x: nat)
    requires m < n && n * len <= |bits| && x < width
    ensures 0 <= m * len <= m * len + len <= |bits| && 0 <= m * width + x < n * width
    ensures Expanded(bits, len, width, n)[m * width + x] == BigEndian(Val(bits[m * len..m * len + len]), width)[x]
  {
    hide BigEndian, Val;
    Times(n - 1, len);
    Times(n - 1, width);
    Times(m, len);
    Times(m, width);
    if m < n - 1 {
      ExpandedAt(bits, len, width, n - 1, m, x);
    }
  }

  /** Every group of the input is written as a number of `width` big-endian bytes. */
  lemma ExpandedDigit(input: Bytes, len: nat, pad: nat, m: nat, x: nat)
    requires len > 0 && m < 8 * |input| / len && x < (len + 7) / 8 + pad
    ensures
      var width := (len + 7) / 8 + pad;
      && 0 <= m * len <= m * len + len <= 8 * |input| && 0 <= m * width + x < |ExpandedArray(input, len, pad)|
      && ExpandedArray(input, len, pad)[m * width + x]
         == Val(BitsOf(input)[m * len..m * len + len]) / Pow2(8 * (width - 1 - x)) % 256
  {
    hide BigEndian, Val, BitsOf, Expanded, Pow2;
    var width, n := (len + 7) / 8 + pad, 8 * |input| / len;
    Divided(8 * |input|, len);
    ExpandedAt(BitsOf(input), len, width, n, m, x);
    BigEndianDigit(Val(BitsOf(input)[m * len..m * len + len]), width, x);
  }
}
