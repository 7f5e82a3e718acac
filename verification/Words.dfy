/**
 Machine words as their bits, least significant first, with the C++ operators
 on `uint64_t` that the OdoCrypt block cipher uses. Indices and table entries
 are numbers, so the module also relates a run of bits to the number it denotes.
 */
module Words {

  const WORD_BITS: nat := 64

  type Bits = seq<bool>
  type Byte = b: nat | b < 256

  predicate IsWord(x: Bits) {
    |x| == 64
  }

  predicate Bit(x: Bits, i: int) {
    0 <= i < |x| && x[i]
  }

  /** `n` zero bits, and the zero word. */
  function ZeroBits(n: nat): (z: Bits)
    ensures |z| == n
  {
    seq(n, _ => false)
  }

  function Zero(): (r: Bits)
    ensures IsWord(r)
  {
    ZeroBits(64)
  }

  function Xor(a: Bits, b: Bits): (r: Bits)
    ensures IsWord(r)
  {
    seq(64, i => Bit(a, i) != Bit(b, i))
  }

  function And(a: Bits, b: Bits): (r: Bits)
    ensures IsWord(r)
  {
    seq(64, i => Bit(a, i) && Bit(b, i))
  }

  function Or(a: Bits, b: Bits): (r: Bits)
    ensures IsWord(r)
  {
    seq(64, i => Bit(a, i) || Bit(b, i))
  }

  /** `x << n`: bits shifted out at the top are lost. */
  function Shl(x: Bits, n: nat): (r: Bits)
    ensures IsWord(r)
  {
    seq(64, i => Bit(x, i - n))
  }

  /** `x >> n` */
  function Shr(x: Bits, n: nat): (r: Bits)
    ensures IsWord(r)
  {
    seq(64, i => Bit(x, i + n))
  }

  /** The source's `Rot`. */
  function Rot(x: Bits, r: nat): Bits
    requires r <= 64
  {
    if r == 0 then x else Xor(Shl(x, r), Shr(x, 64 - r))
  }

  /** The sum of two rotation counts, reduced below the word size. */
  function AddRot(a: nat, b: nat): (c: nat)
    requires a < 64 && b < 64
    ensures c < 64
  {
    if a + b < 64 then a + b else a + b - 64
  }

  lemma RotBit(x: Bits, r: nat, i: nat)
    requires IsWord(x) && r <= 64 && i < 64
    ensures IsWord(Rot(x, r)) && Rot(x, r)[i] == x[if i >= r then i - r else i + 64 - r]
  {
    assert Shl(x, r)[i] == Bit(x, i - r);
    assert Shr(x, 64 - r)[i] == Bit(x, i + (64 - r));
  }

  lemma RotCompose(x: Bits, a: nat, b: nat)
    requires IsWord(x) && a < 64 && b < 64
    ensures Rot(Rot(x, a), b) == Rot(x, AddRot(a, b))
  {
    var y, z := Rot(x, a), Rot(x, AddRot(a, b));
    forall i: nat | i < 64
      ensures Rot(y, b)[i] == z[i]
    {
      RotBit(y, b, i);
      RotBit(x, a, if i >= b then i - b else i + 64 - b);
      RotBit(x, AddRot(a, b), i);
    }
  }

  lemma RotXor(x: Bits, y: Bits, r: nat)
    requires IsWord(x) && IsWord(y) && r <= 64
    ensures Rot(Xor(x, y), r) == Xor(Rot(x, r), Rot(y, r))
  {
    forall i: nat | i < 64
      ensures Rot(Xor(x, y), r)[i] == Xor(Rot(x, r), Rot(y, r))[i]
    {
      RotBit(Xor(x, y), r, i);
      RotBit(x, r, i);
      RotBit(y, r, i);
    }
  }

  // ---------- bits and numbers ----------

  /** The number that a run of bits denotes. */
  function ToNat(bits: Bits): nat {
    if bits == [] then 0 else (if bits[0] then 1 else 0) + 2 * ToNat(bits[1..])
  }

  /** The low `width` bits of `n`. */
  function FromNat(n: nat, width: nat): (bits: Bits)
    ensures |bits| == width
  {
    if width == 0 then [] else [n % 2 == 1] + FromNat(n / 2, width - 1)
  }

  function Pow2(e: nat): (p: nat)
    ensures p > 0
  {
    if e == 0 then 1 else 2 * Pow2(e - 1)
  }

  lemma {:induction false} PowAdd(a: nat, b: nat)
    ensures Pow2(a + b) == Pow2(a) * Pow2(b)
  {
    if a > 0 {
      PowAdd(a - 1, b);
    }
  }

  lemma {:induction false} PowGrows(a: nat, b: nat)
    requires a <= b
    ensures Pow2(a) <= Pow2(b)
  {
    if a < b {
      PowGrows(a, b - 1);
    }
  }

  lemma {:induction false} ToNatBound(bits: Bits)
    ensures ToNat(bits) < Pow2(|bits|)
  {
    if bits != [] {
      ToNatBound(bits[1..]);
    }
  }

  lemma {:induction false} FromToNat(bits: Bits)
    ensures FromNat(ToNat(bits), |bits|) == bits
  {
    if bits != [] {
      FromToNat(bits[1..]);
      assert bits == [bits[0]] + bits[1..];
    }
  }

  lemma {:induction false} ToFromNat(n: nat, width: nat)
    requires n < Pow2(width)
    ensures ToNat(FromNat(n, width)) == n
  {
    if width > 0 {
      ToFromNat(n / 2, width - 1);
      assert FromNat(n, width)[1..] == FromNat(n / 2, width - 1);
    }
  }

  lemma {:induction false} ToNatConcat(a: Bits, b: Bits)
    ensures ToNat(a + b) == ToNat(a) + Pow2(|a|) * ToNat(b)
  {
    if a == [] {
      assert a + b == b;
    } else {
      ToNatConcat(a[1..], b);
      assert (a + b)[1..] == a[1..] + b;
      assert Pow2(|a|) * ToNat(b) == 2 * (Pow2(|a| - 1) * ToNat(b));
    }
  }

  lemma {:induction false} ToNatZero(n: nat)
    ensures ToNat(ZeroBits(n)) == 0
  {
    if n > 0 {
      ToNatZero(n - 1);
      assert ZeroBits(n)[1..] == ZeroBits(n - 1);
    }
  }

  lemma HalfBelow(n: nat, w: nat)
    requires w > 0
    ensures n < Pow2(w) ==> n / 2 < Pow2(w - 1)
  {
  }

  lemma NoBitsOf(n: nat)
    ensures n < Pow2(0) ==> n == 0 && n / 2 < Pow2(0)
  {
  }

  lemma {:induction false} FromNatConcat(n: nat, w: nat, v: nat)
    ensures FromNat(n, w + v)[..w] == FromNat(n, w)
    ensures n < Pow2(w) ==> FromNat(n, w + v)[w..] == ZeroBits(v)
  {
    hide Pow2;
    if w > 0 {
      FromNatConcat(n / 2, w - 1, v);
      HalfBelow(n, w);
      var rest := FromNat(n / 2, w - 1 + v);
      assert FromNat(n, w + v) == [n % 2 == 1] + rest;
      assert ([n % 2 == 1] + rest)[..w] == [n % 2 == 1] + rest[..w - 1];
    } else if v > 0 {
      FromNatConcat(n / 2, 0, v - 1);
      NoBitsOf(n);
    }
  }

  lemma Pow2Values()
    ensures Pow2(6) == 64 && Pow2(8) == 256 && Pow2(10) == 1024
  {
    assert Pow2(6) == 64;
    assert Pow2(8) == 4 * Pow2(6);
  }

  /** `width` ones as a 64-bit word. */
  lemma MaskBits(mask: nat, width: nat)
    requires mask == Pow2(width) - 1 && width <= 64
    ensures FromNat(mask, 64) == seq(width, _ => true) + ZeroBits(64 - width)
  {
    FromNatConcat(mask, width, 64 - width);
    Ones(width);
    var m := FromNat(mask, 64);
    assert m == m[..width] + m[width..];
  }

  lemma {:induction false} Ones(width: nat)
    ensures FromNat(Pow2(width) - 1, width) == seq(width, _ => true)
  {
    if width > 0 {
      Ones(width - 1);
      assert (Pow2(width) - 1) / 2 == Pow2(width - 1) - 1;
    }
  }
}
