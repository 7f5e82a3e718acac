/**
 The Equihash verifier on flat byte rows. The hash generator is a parameter. A
 solution is accepted exactly when its width is right and the decoded indices form a
 generalised-birthday tree with pairwise distinct indices and zero total.
 */
module Equihash {
  import opened Arithmetic
  import opened Words
  import opened BitPacking
  import opened EquihashTree

  /** The template parameters N and K, with the collision length N / (K + 1) in bits. */
  datatype Params = Params(n: nat, k: nat, bits: nat)

  /** The parameters that the source's assertions admit, such as <200, 9> and <48, 5>:
      K + 1 collision groups make up a hash of whole bytes. */
  predicate Ok(p: Params) {
    && 3 <= p.k && 8 <= p.bits <= 24 && p.n == Offset(p.bits, p.k + 1) && p.n % 8 == 0 && p.n <= 512
  }

  lemma {:induction false} OffsetIsProduct(c: nat, m: nat)
    ensures Offset(c, m) == m * c
  {
    if m > 0 {
      OffsetIsProduct(c, m - 1);
      Times(m - 1, c);
    }
  }

  lemma CollisionBitLength(p: Params)
    requires Ok(p)
    ensures p.n > 0 && p.bits == p.n / (p.k + 1) && p.n / p.bits == p.k + 1
  {
    OffsetIsProduct(p.bits, p.k + 1);
    DivMod(p.n, p.k + 1, p.bits, 0);
    DivMod(p.n, p.bits, p.k + 1, 0);
  }

  function CollisionBits(p: Params): (c: nat)
    requires Ok(p)
    ensures 8 <= c <= 24
  {
    p.bits
  }

  function CollisionBytes(p: Params): (c: nat)
    requires Ok(p)
    ensures 1 <= c <= 3
  {
    (p.bits + 7) / 8
  }

  function HashLength(p: Params): nat
    requires Ok(p)
  {
    Offset(CollisionBytes(p), p.k + 1)
  }

  /** Leaf hashes cut from one generated hash. */
  function PerHash(p: Params): (c: nat)
    requires Ok(p)
    ensures c > 0
  {
    CollisionBitLength(p);
    Divided(512, p.n);
    MultipleBelow(1 - 512 / p.n, p.n);
    assert 512 / p.n >= 1;
    512 / p.n
  }

  function HashOutput(p: Params): nat
    requires Ok(p)
  {
    PerHash(p) * (p.n / 8)
  }

  function RowWidth(p: Params): nat
    requires Ok(p)
  {
    2 * CollisionBytes(p) + 4 * Pow2(p.k)
  }

  function SolutionWidth(p: Params): nat
    requires Ok(p)
  {
    Pow2(p.k) * (CollisionBits(p) + 1) / 8
  }

  type Generator = nat -> Bytes

  // ---------- the order of index rows is the order of their bytes ----------

  lemma {:induction false} PrecedesConcat(a: seq<nat>, b: seq<nat>, p: seq<nat>, q: seq<nat>)
    requires |a| == |b| && |p| == |q|
    ensures Precedes(a + p, b + q) <==> Precedes(a, b) || (a == b && Precedes(p, q))
  {
    if a == [] {
      assert a + p == p && b + q == q;
    } else {
      PrecedesConcat(a[1..], b[1..], p, q);
      assert (a + p)[1..] == a[1..] + p && (b + q)[1..] == b[1..] + q;
      assert a == [a[0]] + a[1..] && b == [b[0]] + b[1..];
    }
  }

  lemma BytePower(w: nat)
    ensures Pow2(8 * (w + 1)) == 256 * Pow2(8 * w)
  {
    Pow8();
    PowAdd(8, 8 * w);
  }

  lemma {:induction false} BigEndianOrder(x: nat, y: nat, w: nat)
    requires x < Pow2(8 * w) && y < Pow2(8 * w)
    ensures Precedes(BigEndian(x, w), BigEndian(y, w)) <==> x < y
    ensures BigEndian(x, w) == BigEndian(y, w) <==> x == y
  {
    if w > 0 {
      BytePower(w - 1);
      BigEndianOrder(x / 256, y / 256, w - 1);
      PrecedesConcat(BigEndian(x / 256, w - 1), BigEndian(y / 256, w - 1), [x % 256], [y % 256]);
      LastByte(BigEndian(x / 256, w - 1), BigEndian(y / 256, w - 1), x % 256, y % 256);
    }
  }

  lemma LastByte(a: Bytes, b: Bytes, x: Byte, y: Byte)
    requires |a| == |b|
    ensures a + [x] == b + [y] <==> a == b && x == y
    ensures Precedes([x], [y]) <==> x < y
  {
    if a + [x] == b + [y] {
      assert a == (a + [x])[..|a|] && b == (b + [y])[..|a|];
    }
    assert [x][1..] == [] && [y][1..] == [];
  }

  predicate Are32Bit(values: seq<nat>) {
    forall i :: 0 <= i < |values| ==> values[i] < 0x1_0000_0000
  }

  lemma {:induction false} RowsCons(x: nat, values: seq<nat>)
    ensures Rows([x] + values, 4) == BigEndian(x, 4) + Rows(values, 4)
  {
    hide BigEndian;
    var all := [x] + values;
    if values == [] {
      assert all[..0] == [] && all[0] == x;
      assert Rows(all, 4) == Rows([], 4) + BigEndian(x, 4);
    } else {
      var n := |values| - 1;
      RowsCons(x, values[..n]);
      assert all[..n + 1] == [x] + values[..n];
    }
  }

  lemma {:induction false} RowsOrder(a: seq<nat>, b: seq<nat>)
    requires |a| == |b| && Are32Bit(a) && Are32Bit(b)
    ensures Precedes(Rows(a, 4), Rows(b, 4)) <==> Precedes(a, b)
  {
    hide BigEndian;
    if a != [] {
      RowsOrder(a[1..], b[1..]);
      assert a == [a[0]] + a[1..] && b == [b[0]] + b[1..];
      RowsCons(a[0], a[1..]);
      RowsCons(b[0], b[1..]);
      Pow32();
      BigEndianOrder(a[0], b[0], 4);
      PrecedesConcat(BigEndian(a[0], 4), BigEndian(b[0], 4), Rows(a[1..], 4), Rows(b[1..], 4));
    }
  }

  lemma {:induction false} RowsAt(values: seq<nat>, i: nat)
    requires i < |values|
    ensures Rows(values, 4)[4 * i..4 * i + 4] == BigEndian(values[i], 4)
  {
    hide BigEndian;
    var n := |values| - 1;
    var rest, last := Rows(values[..n], 4), BigEndian(values[n], 4);
    assert Rows(values, 4) == rest + last && |rest| == 4 * n;
    if i < n {
      RowsAt(values[..n], i);
      assert (rest + last)[4 * i..4 * i + 4] == rest[4 * i..4 * i + 4];
    } else {
      assert (rest + last)[4 * n..4 * n + 4] == last;
    }
  }

  lemma {:induction false} RowsConcat(a: seq<nat>, b: seq<nat>)
    ensures Rows(a + b, 4) == Rows(a, 4) + Rows(b, 4)
  {
    hide BigEndian;
    if b == [] {
      assert a + b == a;
    } else {
      var n := |b| - 1;
      RowsConcat(a, b[..n]);
      assert (a + b)[..|a + b| - 1] == a + b[..n];
    }
  }

  // ---------- decoding the indices ----------

  /** Big-endian bytes as a number. */
  function FromBytes(bytes: Bytes): nat {
    if bytes == [] then 0 else 256 * FromBytes(bytes[..|bytes| - 1]) + bytes[|bytes| - 1]
  }

  lemma {:induction false} FromBigEndian(n: nat, w: nat)
    requires n < Pow2(8 * w)
    ensures FromBytes(BigEndian(n, w)) == n
  {
    if w > 0 {
      BytePower(w - 1);
      FromBigEndian(n / 256, w - 1);
      assert BigEndian(n, w)[..w - 1] == BigEndian(n / 256, w - 1);
    }
  }

  /** The values of the first `n` groups of `len` bits. */
  function GroupValues(bits: Bits, len: nat, n: nat): (values: seq<nat>)
    requires n * len <= |bits|
    ensures |values| == n
  {
    if n == 0 then []
    else
      Times(n - 1, len);
      GroupValues(bits, len, n - 1) + [Val(Group(bits, len, n - 1))]
  }

  lemma {:induction false} ExpandedIsRows(bits: Bits, len: nat, width: nat, n: nat)
    requires n * len <= |bits|
    ensures Expanded(bits, len, width, n) == Rows(GroupValues(bits, len, n), width)
  {
    hide BigEndian, Group, Expanded, GroupValues, Rows, Val;
    if n == 0 {
      NoGroups(bits, len, width);
    } else {
      Times(n - 1, len);
      ExpandedIsRows(bits, len, width, n - 1);
      OneGroupMore(bits, len, width, n);
      OneRowMore(GroupValues(bits, len, n - 1), Val(Group(bits, len, n - 1)), width);
    }
  }

  lemma NoGroups(bits: Bits, len: nat, width: nat)
    ensures 0 * len <= |bits| && Expanded(bits, len, width, 0) == Rows(GroupValues(bits, len, 0), width)
  {
  }

  lemma OneGroupMore(bits: Bits, len: nat, width: nat, n: nat)
    requires n > 0 && n * len <= |bits|
    ensures 0 <= (n - 1) * len <= (n - 1 + 1) * len <= |bits|
    ensures
      var v := Val(Group(bits, len, n - 1));
      && Expanded(bits, len, width, n) == Expanded(bits, len, width, n - 1) + BigEndian(v, width)
      && GroupValues(bits, len, n) == GroupValues(bits, len, n - 1) + [v]
  {
    hide BigEndian, Group, Val;
    Times(n - 1, len);
  }

  lemma OneRowMore(values: seq<nat>, v: nat, width: nat)
    ensures Rows(values + [v], width) == Rows(values, width) + BigEndian(v, width)
  {
    hide BigEndian;
    assert (values + [v])[..|values|] == values;
  }

  lemma {:induction false} GroupValuesBound(bits: Bits, len: nat, n: nat)
    requires n * len <= |bits| && len <= 32
    ensures Are32Bit(GroupValues(bits, len, n))
  {
    if n > 0 {
      Times(n - 1, len);
      GroupValuesBound(bits, len, n - 1);
      hide Pow2;
      ValBound(Group(bits, len, n - 1));
      Pow32();
      PowAdd(len, 32 - len);
      Grows(Pow2(len), Pow2(32 - len));
    }
  }

  /** The indices that a minimal encoding holds: its groups of `cBitLen + 1` bits. */
  function MinimalIndices(minimal: Bytes, cBitLen: nat): (idx: seq<nat>)
    requires cBitLen <= 24
    ensures |idx| == 8 * |minimal| / (cBitLen + 1) && Are32Bit(idx)
  {
    Divided(8 * |minimal|, cBitLen + 1);
    GroupValuesBound(BitsOf(minimal), cBitLen + 1, 8 * |minimal| / (cBitLen + 1));
    GroupValues(BitsOf(minimal), cBitLen + 1, 8 * |minimal| / (cBitLen + 1))
  }

  lemma ExpandedMinimal(minimal: Bytes, cBitLen: nat)
    requires 8 <= cBitLen <= 24
    ensures ExpandedArray(minimal, cBitLen + 1, 4 - (cBitLen + 8) / 8) == Rows(MinimalIndices(minimal, cBitLen), 4)
  {
    hide Expanded, Rows, GroupValues;
    Divided(8 * |minimal|, cBitLen + 1);
    ExpandedIsRows(BitsOf(minimal), cBitLen + 1, 4, 8 * |minimal| / (cBitLen + 1));
  }

  lemma IndexAt(bytes: Bytes, idx: seq<nat>, m: nat)
    requires m < |idx| && Are32Bit(idx) && bytes == Rows(idx, 4)
    ensures FromBytes(bytes[4 * m..4 * m + 4]) == idx[m]
  {
    hide Rows, BigEndian, FromBytes, Pow2;
    RowsAt(idx, m);
    Pow32();
    FromBigEndian(idx[m], 4);
  }

  /** `GetIndicesFromMinimal`, for an encoding of whole groups. */
  method GetIndicesFromMinimal(minimal: Bytes, cBitLen: nat) returns (ret: seq<nat>)
    requires 8 <= cBitLen <= 24 && 8 * |minimal| % (cBitLen + 1) == 0
    ensures ret == MinimalIndices(minimal, cBitLen)
  {
    hide MinimalIndices, ExpandedArray, Rows, BigEndian, FromBytes, Pow2;
    var lenIndices := 32 * |minimal| / (cBitLen + 1);
    var bytePad := 4 - (cBitLen + 8) / 8;
    var arr := new Byte[lenIndices];
    ghost var idx := MinimalIndices(minimal, cBitLen);
    ExpandedMinimal(minimal, cBitLen);
    WholeGroups(8 * |minimal|, cBitLen + 1);
    ExpandArray(minimal, arr, cBitLen + 1, bytePad);
    assert arr[..] == Rows(idx, 4);
    ret := [];
    var i := 0;
    while i < lenIndices
      invariant i == 4 * |ret| && |ret| <= |idx| && ret == idx[..|ret|]
      invariant arr[..] == Rows(idx, 4)
      decreases lenIndices - i
    {
      IndexAt(arr[..], idx, |ret|);
      ret := ret + [FromBytes(arr[..][i..i + 4])];
      i := i + 4;
    }
  }

  lemma WholeGroups(bits: nat, len: nat)
    requires len > 0 && bits % len == 0
    ensures 4 * bits / len == 4 * (bits / len)
  {
    Divided(bits, len);
    var q := bits / len;
    assert 4 * bits == 4 * q * len + 0;
    DivMod(4 * bits, len, 4 * q, 0);
  }
}
