/**
 The generalised-birthday condition on an Equihash solution, and its equivalence with
 the conditions that the verifier checks node by node.
 */
module EquihashTree {
  import opened Words
  import opened BitPacking

  // ---------- exclusive-or of byte strings ----------

  function XorBits(a: Bits, b: Bits): (r: Bits)
    requires |a| == |b|
    ensures |r| == |a|
  {
    seq(|a|, i requires 0 <= i < |a| => a[i] != b[i])
  }

  function XorByte(a: Byte, b: Byte): Byte {
    Pow8();
    ValBound(XorBits(BitsOfNat(a, 8), BitsOfNat(b, 8)));
    Val(XorBits(BitsOfNat(a, 8), BitsOfNat(b, 8)))
  }

  lemma XorByteBits(a: Byte, b: Byte)
    ensures BitsOfNat(XorByte(a, b), 8) == XorBits(BitsOfNat(a, 8), BitsOfNat(b, 8))
  {
    BitsOfNatVal(XorBits(BitsOfNat(a, 8), BitsOfNat(b, 8)));
  }

  lemma ByteFromBits(a: Byte, b: Byte)
    requires BitsOfNat(a, 8) == BitsOfNat(b, 8)
    ensures a == b
  {
    hide BitsOfNat, Val, Pow2;
    Pow8();
    ValBitsOfNat(a, 8);
    ValBitsOfNat(b, 8);
  }

  lemma XorByteAssoc(a: Byte, b: Byte, c: Byte)
    ensures XorByte(XorByte(a, b), c) == XorByte(a, XorByte(b, c))
  {
    hide BitsOfNat, XorByte;
    var x, y, z := BitsOfNat(a, 8), BitsOfNat(b, 8), BitsOfNat(c, 8);
    XorByteBits(a, b);
    XorByteBits(b, c);
    XorByteBits(XorByte(a, b), c);
    XorByteBits(a, XorByte(b, c));
    assert XorBits(XorBits(x, y), z) == XorBits(x, XorBits(y, z));
    ByteFromBits(XorByte(XorByte(a, b), c), XorByte(a, XorByte(b, c)));
  }

  lemma {:induction false} ZeroHasNoBits(w: nat)
    ensures BitsOfNat(0, w) == ZeroBits(w)
  {
    if w > 0 {
      ZeroHasNoBits(w - 1);
    }
  }

  lemma XorByteZero(a: Byte)
    ensures XorByte(a, 0) == a
  {
    hide XorByte;
    ZeroHasNoBits(8);
    XorByteBits(a, 0);
    assert XorBits(BitsOfNat(a, 8), ZeroBits(8)) == BitsOfNat(a, 8) by {
      hide BitsOfNat;
    }
    ByteFromBits(XorByte(a, 0), a);
  }

  /** Two bytes cancel exactly when they are equal. */
  lemma XorByteCancel(a: Byte, b: Byte)
    ensures XorByte(a, b) == 0 <==> a == b
  {
    hide XorByte, BitsOfNat;
    var x, y := BitsOfNat(a, 8), BitsOfNat(b, 8);
    ZeroHasNoBits(8);
    XorByteBits(a, b);
    if XorByte(a, b) == 0 {
      forall i | 0 <= i < 8
        ensures x[i] == y[i]
      {
        assert XorBits(x, y)[i] == ZeroBits(8)[i];
      }
      ByteFromBits(a, b);
    }
    if a == b {
      assert XorBits(x, y) == ZeroBits(8);
      ByteFromBits(XorByte(a, b), 0);
    }
  }

  function XorBytes(a: Bytes, b: Bytes): (r: Bytes)
    requires |a| == |b|
    ensures |r| == |a|
  {
    seq(|a|, i requires 0 <= i < |a| => XorByte(a[i], b[i]))
  }

  predicate AllZero(a: Bytes) {
    forall i :: 0 <= i < |a| ==> a[i] == 0
  }

  function ZeroBytes(n: nat): (z: Bytes)
    ensures |z| == n
  {
    seq(n, _ => 0)
  }

  lemma XorCancel(a: Bytes, b: Bytes)
    requires |a| == |b|
    ensures AllZero(XorBytes(a, b)) <==> a == b
  {
    hide XorByte;
    forall i | 0 <= i < |a|
      ensures XorBytes(a, b)[i] == 0 <==> a[i] == b[i]
    {
      XorByteCancel(a[i], b[i]);
    }
    if AllZero(XorBytes(a, b)) {
      forall i | 0 <= i < |a|
        ensures a[i] == b[i]
      {
        assert XorBytes(a, b)[i] == 0;
      }
    }
  }

  lemma XorAssoc(a: Bytes, b: Bytes, c: Bytes)
    requires |a| == |b| == |c|
    ensures XorBytes(XorBytes(a, b), c) == XorBytes(a, XorBytes(b, c))
  {
    hide XorByte;
    forall i | 0 <= i < |a|
      ensures XorBytes(XorBytes(a, b), c)[i] == XorBytes(a, XorBytes(b, c))[i]
    {
      XorByteAssoc(a[i], b[i], c[i]);
    }
  }

  // ---------- the solution condition ----------

  /** The leaf hashes and the indices that they belong to. */
  datatype Solution = Solution(leaves: seq<Bytes>, idx: seq<nat>, width: nat)

  predicate IsSolution(s: Solution) {
    |s.leaves| == |s.idx| && forall i :: 0 <= i < |s.leaves| ==> |s.leaves[i]| == s.width
  }

  /** The exclusive-or of the leaf hashes `lo` to `lo + n - 1`. */
  function XorRange(s: Solution, lo: nat, n: nat): (h: Bytes)
    requires IsSolution(s) && lo + n <= |s.leaves|
    ensures |h| == s.width
  {
    if n == 0 then ZeroBytes(s.width) else XorBytes(XorRange(s, lo, n - 1), s.leaves[lo + n - 1])
  }

  predicate DistinctIn(s: Solution, lo: nat, n: nat)
    requires lo + n <= |s.idx|
  {
    forall i, j :: lo <= i < j < lo + n ==> s.idx[i] != s.idx[j]
  }

  /** `a` precedes `b` in the lexicographic order of index lists. */
  predicate Precedes(a: seq<nat>, b: seq<nat>) {
    if |a| == 0 || |b| == 0 then |a| == 0 && |b| > 0
    else a[0] < b[0] || (a[0] == b[0] && Precedes(a[1..], b[1..]))
  }

  /** Where collision group `r` starts, the groups being `c` bytes long. */
  function Offset(c: nat, r: nat): nat {
    if r == 0 then 0 else Offset(c, r - 1) + c
  }

  /** The node of level `r` over the leaves from `lo`: its exclusive-or is zero on the first
      `r` collision groups of `c` bytes, its left indices precede its right ones, and its
      subtrees are such trees. */
  predicate BirthdayTree(s: Solution, c: nat, r: nat, lo: nat)
    requires IsSolution(s) && lo + Pow2(r) <= |s.idx| && Offset(c, r) <= s.width
  {
    r == 0 ||
    (var h := Pow2(r - 1);
     && BirthdayTree(s, c, r - 1, lo) && BirthdayTree(s, c, r - 1, lo + h)
     && AllZero(XorRange(s, lo, 2 * h)[..Offset(c, r)])
     && Precedes(s.idx[lo..lo + h], s.idx[lo + h..lo + 2 * h]))
  }

  /** What the verifier checks of one pair of rows: they agree on the next group, the
      right indices do not precede the left ones, and no index is on both sides. */
  predicate NodeChecks(s: Solution, c: nat, r: nat, lo: nat)
    requires IsSolution(s) && r > 0 && lo + Pow2(r) <= |s.idx| && Offset(c, r) <= s.width
  {
    var h := Pow2(r - 1);
    && XorRange(s, lo, h)[Offset(c, r - 1)..Offset(c, r)] == XorRange(s, lo + h, h)[Offset(c, r - 1)..Offset(c, r)]
    && !Precedes(s.idx[lo + h..lo + 2 * h], s.idx[lo..lo + h])
    && Disjoint(s, lo, lo + h, h)
  }

  predicate Disjoint(s: Solution, a: nat, b: nat, n: nat)
    requires a + n <= |s.idx| && b + n <= |s.idx|
  {
    forall i, j :: a <= i < a + n && b <= j < b + n ==> s.idx[i] != s.idx[j]
  }

  /** All the verifier's checks below and at a node. */
  predicate CheckedTree(s: Solution, c: nat, r: nat, lo: nat)
    requires IsSolution(s) && lo + Pow2(r) <= |s.idx| && Offset(c, r) <= s.width
  {
    r == 0 ||
    (CheckedTree(s, c, r - 1, lo) && CheckedTree(s, c, r - 1, lo + Pow2(r - 1)) && NodeChecks(s, c, r, lo))
  }

  // ---------- the equivalence ----------

  lemma {:induction false} XorRangeSplit(s: Solution, lo: nat, m: nat, n: nat)
    requires IsSolution(s) && lo + m + n <= |s.leaves|
    ensures XorRange(s, lo, m + n) == XorBytes(XorRange(s, lo, m), XorRange(s, lo + m, n))
    decreases n
  {
    hide XorBytes;
    if n == 0 {
      XorZero(XorRange(s, lo, m));
    } else {
      XorRangeSplit(s, lo, m, n - 1);
      XorAssoc(XorRange(s, lo, m), XorRange(s, lo + m, n - 1), s.leaves[lo + m + n - 1]);
    }
  }

  lemma XorZero(a: Bytes)
    ensures XorBytes(a, ZeroBytes(|a|)) == a
  {
    hide XorByte;
    forall i | 0 <= i < |a|
      ensures XorBytes(a, ZeroBytes(|a|))[i] == a[i]
    {
      XorByteZero(a[i]);
    }
  }

  lemma XorSlice(a: Bytes, b: Bytes, from: nat, to: nat)
    requires |a| == |b| && from <= to <= |a|
    ensures XorBytes(a, b)[from..to] == XorBytes(a[from..to], b[from..to])
  {
    hide XorByte;
  }

  lemma AllZeroSplit(a: Bytes, m: nat)
    requires m <= |a|
    ensures AllZero(a) <==> AllZero(a[..m]) && AllZero(a[m..])
  {
    if AllZero(a[..m]) && AllZero(a[m..]) {
      forall i | 0 <= i < |a|
        ensures a[i] == 0
      {
        if i < m { assert a[..m][i] == 0; } else { assert a[m..][i - m] == 0; }
      }
    }
  }

  /** For disjoint lists of the same positive length, not preceding is being preceded. */
  lemma {:induction false} PrecedesTotal(a: seq<nat>, b: seq<nat>)
    requires |a| == |b|
    ensures a != b ==> (Precedes(a, b) <==> !Precedes(b, a))
  {
    if a != [] && a[0] == b[0] {
      PrecedesTotal(a[1..], b[1..]);
      assert a == [a[0]] + a[1..] && b == [b[0]] + b[1..];
    }
  }

  lemma DistinctSplit(s: Solution, lo: nat, h: nat)
    requires lo + 2 * h <= |s.idx|
    ensures DistinctIn(s, lo, 2 * h) <==> DistinctIn(s, lo, h) && DistinctIn(s, lo + h, h) && Disjoint(s, lo, lo + h, h)
  {
  }

  /** On a node whose subtrees vanish on the earlier groups, agreement on the next group
      is vanishing on one group more. */
  lemma NodeZero(s: Solution, c: nat, r: nat, lo: nat)
    requires IsSolution(s) && r > 0 && lo + Pow2(r) <= |s.idx| && Offset(c, r) <= s.width
    requires
      var h := Pow2(r - 1);
      AllZero(XorRange(s, lo, h)[..Offset(c, r - 1)]) && AllZero(XorRange(s, lo + h, h)[..Offset(c, r - 1)])
    ensures
      var h := Pow2(r - 1);
      AllZero(XorRange(s, lo, 2 * h)[..Offset(c, r)])
      <==> XorRange(s, lo, h)[Offset(c, r - 1)..Offset(c, r)] == XorRange(s, lo + h, h)[Offset(c, r - 1)..Offset(c, r)]
  {
    hide XorRange, XorBytes;
    var h, m, n := Pow2(r - 1), Offset(c, r - 1), Offset(c, r);
    var a, b := XorRange(s, lo, h), XorRange(s, lo + h, h);
    XorRangeSplit(s, lo, h, h);
    XorSlice(a, b, 0, m);
    XorSlice(a, b, m, n);
    var x := XorBytes(a, b)[..n];
    AllZeroSplit(x, m);
    assert x[..m] == XorBytes(a, b)[0..m] && x[m..] == XorBytes(a, b)[m..n];
    assert a[0..m] == b[0..m];
    XorCancel(a[0..m], b[0..m]);
    XorCancel(a[m..n], b[m..n]);
  }

  lemma BirthdayZero(s: Solution, c: nat, r: nat, lo: nat)
    requires IsSolution(s) && lo + Pow2(r) <= |s.idx| && Offset(c, r) <= s.width && BirthdayTree(s, c, r, lo)
    ensures AllZero(XorRange(s, lo, Pow2(r))[..Offset(c, r)])
  {
  }

  /** The part of the birthday condition that a node adds to its subtrees. */
  predicate BirthdayNode(s: Solution, c: nat, r: nat, lo: nat)
    requires IsSolution(s) && r > 0 && lo + Pow2(r) <= |s.idx| && Offset(c, r) <= s.width
  {
    var h := Pow2(r - 1);
    && AllZero(XorRange(s, lo, 2 * h)[..Offset(c, r)])
    && Precedes(s.idx[lo..lo + h], s.idx[lo + h..lo + 2 * h])
  }

  lemma NodeEquivalence(s: Solution, c: nat, r: nat, lo: nat)
    requires IsSolution(s) && r > 0 && lo + Pow2(r) <= |s.idx| && Offset(c, r) <= s.width
    requires
      var h := Pow2(r - 1);
      AllZero(XorRange(s, lo, h)[..Offset(c, r - 1)]) && AllZero(XorRange(s, lo + h, h)[..Offset(c, r - 1)])
    ensures NodeChecks(s, c, r, lo) <==> BirthdayNode(s, c, r, lo) && Disjoint(s, lo, lo + Pow2(r - 1), Pow2(r - 1))
  {
    hide XorRange, Precedes, AllZero;
    var h := Pow2(r - 1);
    NodeZero(s, c, r, lo);
    if Disjoint(s, lo, lo + h, h) {
      var left, right := s.idx[lo..lo + h], s.idx[lo + h..lo + 2 * h];
      assert left[0] == s.idx[lo] && right[0] == s.idx[lo + h];
      PrecedesTotal(left, right);
    }
  }

  /** The checks of a tree hold exactly when its indices are distinct and it is a
      generalised-birthday tree. */
  lemma {:induction false} CheckedIsBirthday(s: Solution, c: nat, r: nat, lo: nat)
    requires IsSolution(s) && lo + Pow2(r) <= |s.idx| && Offset(c, r) <= s.width
    ensures CheckedTree(s, c, r, lo) <==> DistinctIn(s, lo, Pow2(r)) && BirthdayTree(s, c, r, lo)
    decreases r
  {
    hide XorRange, NodeChecks, Precedes, Disjoint, AllZero, IsSolution, Offset, BirthdayNode, BirthdayTree, DistinctIn;
    if r == 0 {
      LeafTrivial(s, c, lo);
    } else {
      var h := Pow2(r - 1);
      OffsetMonotone(c, r);
      CheckedIsBirthday(s, c, r - 1, lo);
      CheckedIsBirthday(s, c, r - 1, lo + h);
      DistinctSplit(s, lo, h);
      BirthdayUnfold(s, c, r, lo);
      if BirthdayTree(s, c, r - 1, lo) && BirthdayTree(s, c, r - 1, lo + h) {
        BirthdayZero(s, c, r - 1, lo);
        BirthdayZero(s, c, r - 1, lo + h);
        NodeEquivalence(s, c, r, lo);
      }
    }
  }

  lemma OffsetMonotone(c: nat, r: nat)
    requires r > 0
    ensures Offset(c, r - 1) <= Offset(c, r)
  {
  }

  lemma LeafTrivial(s: Solution, c: nat, lo: nat)
    requires IsSolution(s) && lo + 1 <= |s.idx|
    ensures Pow2(0) == 1 && Offset(c, 0) == 0 && DistinctIn(s, lo, 1) && BirthdayTree(s, c, 0, lo)
  {
  }

  lemma BirthdayUnfold(s: Solution, c: nat, r: nat, lo: nat)
    requires IsSolution(s) && r > 0 && lo + Pow2(r) <= |s.idx| && Offset(c, r) <= s.width
    ensures BirthdayTree(s, c, r, lo)
       <==> BirthdayTree(s, c, r - 1, lo) && BirthdayTree(s, c, r - 1, lo + Pow2(r - 1)) && BirthdayNode(s, c, r, lo)
  {
    hide XorRange, Precedes, AllZero, IsSolution;
  }
}
