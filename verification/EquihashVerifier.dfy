/**
 `Equihash::IsValidSolution`: leaf rows from the decoded indices, then rounds that
 check and merge neighbouring rows until one is left.
 */
module EquihashVerifier {
  import opened Arithmetic
  import opened Arrays
  import opened Words
  import opened BitPacking
  import opened EquihashTree
  import opened Equihash

  // ---------- sizes ----------

  lemma {:induction false} PowerGap(r: nat, k: nat)
    requires r <= k
    ensures Pow2(k) >= Pow2(r) + (k - r)
    decreases k - r
  {
    if r < k {
      PowerGap(r + 1, k);
    }
  }

  /** Bytes of hash still carried by a row after `r` rounds. */
  function HashLen(p: Params, r: nat): nat
    requires Ok(p) && r <= p.k
  {
    Offset(CollisionBytes(p), p.k + 1 - r)
  }

  /** A row's hash and indices stay inside its width in every round. */
  lemma RowFits(p: Params, r: nat)
    requires Ok(p) && r <= p.k
    ensures HashLen(p, r) + 4 * Pow2(r) <= RowWidth(p)
    ensures r < p.k ==> HashLen(p, r) == CollisionBytes(p) + HashLen(p, r + 1)
    ensures HashLen(p, r) + Offset(CollisionBytes(p), r) == HashLength(p)
    ensures HashLen(p, 0) == HashLength(p) && HashLen(p, p.k) == CollisionBytes(p)
  {
    var c := CollisionBytes(p);
    PowerGap(r, p.k);
    OffsetBound(c, p.k - r);
    OffsetAdd(c, p.k + 1 - r, r);
    assert Offset(c, 1) == c + Offset(c, 0);
  }

  lemma {:induction false} OffsetBound(c: nat, m: nat)
    requires c <= 3
    ensures Offset(c, m) <= 3 * m
  {
    if m > 0 {
      OffsetBound(c, m - 1);
    }
  }

  lemma {:induction false} OffsetAdd(c: nat, m: nat, n: nat)
    ensures Offset(c, m + n) == Offset(c, m) + Offset(c, n)
    decreases n
  {
    if n > 0 {
      OffsetAdd(c, m, n - 1);
    }
  }

  lemma SolutionBits(p: Params)
    requires Ok(p)
    ensures 8 * SolutionWidth(p) == Pow2(p.k) * (CollisionBits(p) + 1)
  {
    PowAdd(3, p.k - 3);
    assert Pow2(3) == 8;
    var q, len := Pow2(p.k - 3), CollisionBits(p) + 1;
    assert Pow2(p.k) * len == q * len * 8;
  }

  // ---------- the solution that a string encodes ----------

  /** Where the hash of index `i` starts in its generated hash. */
  function SlotStart(i: nat, p: Params): (at: nat)
    requires Ok(p)
    ensures at + p.n / 8 <= HashOutput(p)
  {
    Slot(i, PerHash(p), p.n / 8);
    i % PerHash(p) * (p.n / 8)
  }

  /** The hashes cut from generated hash `g` lie in it side by side from its start, as many as
      fit 512 bits. */
  lemma SlotsInOrder(p: Params, g: nat, t: nat)
    requires Ok(p) && t < PerHash(p)
    ensures PerHash(p) * p.n <= 512 < (PerHash(p) + 1) * p.n
    ensures g * PerHash(p) + t >= 0 && (g * PerHash(p) + t) / PerHash(p) == g
    ensures SlotStart(g * PerHash(p) + t, p) == t * (p.n / 8)
  {
    hide SlotStart;
    var per := PerHash(p);
    PerHashIs(p);
    ProductNotNegative(g, per);
    DivMod(g * per + t, per, g, t);
    SlotIs(g * per + t, p);
  }

  lemma PerHashIs(p: Params)
    requires Ok(p)
    ensures PerHash(p) * p.n <= 512 < (PerHash(p) + 1) * p.n
  {
    CollisionBitLength(p);
    var q := 512 / p.n;
    assert 512 == p.n * q + 512 % p.n;
    assert (q + 1) * p.n == p.n * q + p.n;
  }

  lemma SlotIs(i: nat, p: Params)
    requires Ok(p)
    ensures SlotStart(i, p) == i % PerHash(p) * (p.n / 8)
  {
    hide PerHash;
  }

  /** Every byte of a generated hash belongs to exactly one of them. */
  lemma SlotsTile(p: Params, at: nat) returns (t: nat)
    requires Ok(p) && at < HashOutput(p)
    ensures t < PerHash(p) && SlotStart(t, p) <= at < SlotStart(t, p) + p.n / 8
    ensures forall u: nat :: u < PerHash(p) && SlotStart(u, p) <= at < SlotStart(u, p) + p.n / 8 ==> u == t
  {
    hide SlotStart, PerHash, Ok;
    var size := SlotSize(p);
    t := SlotHolding(at, size, PerHash(p));
    FirstSlot(t, p);
    forall u: nat | u < PerHash(p) && SlotStart(u, p) <= at < SlotStart(u, p) + p.n / 8
      ensures u == t
    {
      FirstSlot(u, p);
      OneSlot(at, size, t, u);
    }
  }

  lemma SlotSize(p: Params) returns (size: nat)
    requires Ok(p)
    ensures size == p.n / 8 >= 1
  {
    CollisionBitLength(p);
    size := p.n / 8;
  }

  lemma SlotHolding(at: nat, size: nat, per: nat) returns (t: nat)
    requires size >= 1 && at < per * size
    ensures t < per && t * size <= at < t * size + size
  {
    t := at / size;
    assert at == size * t + at % size;
    OnlyBelow(t, per, size, at);
  }

  lemma OneSlot(at: nat, size: nat, t: nat, u: nat)
    requires t * size <= at < t * size + size && u * size <= at < u * size + size
    ensures u == t
  {
    DivMod(at, size, u, at - u * size);
    DivMod(at, size, t, at - t * size);
  }

  lemma OnlyBelow(t: nat, per: nat, size: nat, at: nat)
    requires size >= 1 && size * t <= at < per * size
    ensures t < per
  {
    if t >= per {
      Scale(per, t, size);
    }
  }

  lemma FirstSlot(t: nat, p: Params)
    requires Ok(p) && t < PerHash(p)
    ensures SlotStart(t, p) == t * (p.n / 8)
  {
    SlotsInOrder(p, 0, t);
  }

  /** The sizes for Zcash's parameters. */
  lemma ZcashSizes()
    ensures Ok(Params(200, 9, 20))
    ensures var p := Params(200, 9, 20);
      && PerHash(p) == 2 && HashOutput(p) == 50 && SlotStart(0, p) == 0 && SlotStart(1, p) == 25
      && CollisionBytes(p) == 3 && HashLength(p) == 30 && SolutionWidth(p) == 1344 && RowWidth(p) == 2054
  {
    OffsetIsProduct(20, 10);
    OffsetIsProduct(3, 10);
    assert Pow2(9) == 512;
  }

  function LeafHash(gen: Generator, i: nat, p: Params): (h: Bytes)
    requires Ok(p) && |gen(i / PerHash(p))| == HashOutput(p)
    ensures |h| == HashLength(p)
  {
    var at := SlotStart(i, p);
    LeafLength(gen(i / PerHash(p))[at..at + p.n / 8], p);
    ExpandedArray(gen(i / PerHash(p))[at..at + p.n / 8], CollisionBits(p), 0)
  }

  lemma Slot(i: nat, per: nat, size: nat)
    requires per > 0
    ensures i % per * size + size <= per * size
  {
    assert (i % per + 1) * size <= per * size;
  }

  lemma LeafLength(slice: Bytes, p: Params)
    requires Ok(p) && |slice| == p.n / 8
    ensures |ExpandedArray(slice, CollisionBits(p), 0)| == HashLength(p)
  {
    hide ExpandedArray;
    ExpandedLength(slice, CollisionBits(p), 0);
    assert 8 * |slice| == p.n;
    OffsetIsProduct(CollisionBytes(p), p.k + 1);
    CollisionBitLength(p);
  }

  lemma IndexCount(soln: Bytes, p: Params)
    requires Ok(p) && |soln| == SolutionWidth(p)
    ensures |MinimalIndices(soln, CollisionBits(p))| == Pow2(p.k)
    ensures 8 * |soln| % (CollisionBits(p) + 1) == 0
  {
    hide MinimalIndices, SolutionWidth, CollisionBits, Pow2;
    SolutionBits(p);
    DivMod(8 * |soln|, CollisionBits(p) + 1, Pow2(p.k), 0);
  }

  function Indices(soln: Bytes, p: Params): (idx: seq<nat>)
    requires Ok(p) && |soln| == SolutionWidth(p)
    ensures |idx| == Pow2(p.k) && Are32Bit(idx)
  {
    IndexCount(soln, p);
    MinimalIndices(soln, CollisionBits(p))
  }

  function Leaves(gen: Generator, idx: seq<nat>, p: Params): (leaves: seq<Bytes>)
    requires Ok(p) && forall g :: |gen(g)| == HashOutput(p)
    ensures |leaves| == |idx| && forall i :: 0 <= i < |leaves| ==> |leaves[i]| == HashLength(p)
  {
    seq(|idx|, j requires 0 <= j < |idx| => LeafHash(gen, idx[j], p))
  }

  function Decoded(gen: Generator, soln: Bytes, p: Params): (s: Solution)
    requires Ok(p) && |soln| == SolutionWidth(p) && forall g :: |gen(g)| == HashOutput(p)
    ensures IsSolution(s) && |s.idx| == Pow2(p.k) && s.width == HashLength(p) && Are32Bit(s.idx)
  {
    var idx := Indices(soln, p);
    Solution(Leaves(gen, idx, p), idx, HashLength(p))
  }

  /** What it means to solve: distinct indices, a generalised-birthday tree, total zero. */
  predicate Solves(s: Solution, p: Params)
    requires Ok(p) && IsSolution(s) && |s.idx| == Pow2(p.k) && s.width == HashLength(p)
  {
    RowFits(p, p.k);
    && DistinctIn(s, 0, Pow2(p.k))
    && BirthdayTree(s, CollisionBytes(p), p.k, 0)
    && AllZero(XorRange(s, 0, Pow2(p.k)))
  }

  // ---------- rows ----------

  /** A row of round `r` over the leaves from `lo`. */
  predicate RowOf(row: Bytes, s: Solution, p: Params, r: nat, lo: nat)
    requires Ok(p) && r <= p.k && IsSolution(s) && s.width == HashLength(p) && lo + Pow2(r) <= |s.idx|
  {
    RowFits(p, r);
    var (c, len) := (CollisionBytes(p), HashLen(p, r));
    && |row| == RowWidth(p)
    && row[..len] == XorRange(s, lo, Pow2(r))[Offset(c, r)..]
    && row[len..len + 4 * Pow2(r)] == Rows(s.idx[lo..lo + Pow2(r)], 4)
  }

  /** A leaf row: the expanded hash followed by the big-endian index. */
  method LeafRow(hashIn: Bytes, p: Params, i: nat) returns (row: Bytes)
    requires Ok(p) && |hashIn| == p.n / 8 && i < 0x1_0000_0000
    ensures |row| == RowWidth(p) && HashLength(p) + 4 <= |row|
    ensures row[..HashLength(p)] == ExpandedArray(hashIn, CollisionBits(p), 0)
    ensures row[HashLength(p)..HashLength(p) + 4] == BigEndian(i, 4)
  {
    hide ExpandedArray, BigEndian, HashLength, Pow2, HashLen, RowWidth;
    RowFits(p, 0);
    PowZero();
    var hash := new Byte[RowWidth(p)];
    var len := HashLength(p);
    LeafLength(hashIn, p);
    ExpandArray(hashIn, hash, CollisionBits(p), 0);
    ghost var h := hash[..len];
    var index := BigEndian(i, 4);
    for t := 0 to 4
      invariant hash[..len] == h
      invariant forall u :: 0 <= u < t ==> hash[len + u] == index[u]
    {
      hash[len + t] := index[t];
    }
    row := hash[..];
  }

  lemma PowZero()
    ensures Pow2(0) == 1
  {
  }

  /** `HasCollision` */
  method HasCollision(a: Bytes, b: Bytes, l: nat) returns (same: bool)
    requires l <= |a| && l <= |b|
    ensures same <==> a[..l] == b[..l]
  {
    for j := 0 to l
      invariant a[..j] == b[..j]
    {
      if a[j] != b[j] {
        assert a[..l][j] != b[..l][j];
        return false;
      }
    }
    return true;
  }

  /** `IndicesBefore`: memcmp on the index parts. */
  predicate IndicesBefore(a: Bytes, b: Bytes, len: nat, lenIndices: nat) {
    && len + lenIndices <= |a| && len + lenIndices <= |b|
    && Precedes(a[len..len + lenIndices], b[len..len + lenIndices])
  }

  /** `DistinctIndices` */
  method DistinctIndices(a: Bytes, b: Bytes, len: nat, lenIndices: nat) returns (distinct: bool)
    requires len + lenIndices <= |a| && len + lenIndices <= |b| && lenIndices % 4 == 0
    ensures distinct <==>
      forall i: nat, j: nat | i < lenIndices / 4 && j < lenIndices / 4 :: !SameIndex(a, b, len, i, j)
  {
    hide SameIndex;
    var i := 0;
    while i < lenIndices
      invariant i % 4 == 0 && i <= lenIndices
      invariant forall u: nat, v: nat | u < i / 4 && v < lenIndices / 4 :: !SameIndex(a, b, len, u, v)
    {
      var j := 0;
      while j < lenIndices
        invariant j % 4 == 0 && j <= lenIndices
        invariant forall v: nat | v < j / 4 :: !SameIndex(a, b, len, i / 4, v)
      {
        var same := CompareIndices(a, b, len, i, j);
        if same {
          return false;
        }
        j := j + 4;
      }
      i := i + 4;
    }
    return true;
  }

  predicate SameIndex(a: Bytes, b: Bytes, len: nat, i: nat, j: nat) {
    && len + 4 * i + 4 <= |a| && len + 4 * j + 4 <= |b|
    && a[len + 4 * i..len + 4 * i + 4] == b[len + 4 * j..len + 4 * j + 4]
  }

  /** The memcmp of two four-byte indices. */
  method CompareIndices(a: Bytes, b: Bytes, len: nat, i: nat, j: nat) returns (same: bool)
    requires i % 4 == 0 && j % 4 == 0 && len + i + 4 <= |a| && len + j + 4 <= |b|
    ensures same <==> SameIndex(a, b, len, i / 4, j / 4)
  {
    assert 4 * (i / 4) == i && 4 * (j / 4) == j;
    same := a[len + i..len + i + 4] == b[len + j..len + j + 4];
  }

  /** `IsZero` */
  method IsZero(row: Bytes, len: nat) returns (zero: bool)
    requires len <= |row|
    ensures zero <==> AllZero(row[..len])
  {
    for i := 0 to len
      invariant AllZero(row[..i])
    {
      if row[i] != 0 {
        assert row[..len][i] != 0;
        return false;
      }
    }
    return true;
  }

  /** Xors the hashes of two rows, leaving out the bytes before `trim`. */
  method XorFront(hash: array<Byte>, a: Bytes, b: Bytes, len: nat, trim: nat)
    requires hash.Length == |a| == |b| && trim <= len <= |a|
    modifies hash
    ensures hash[..len - trim] == XorBytes(a[trim..len], b[trim..len])
  {
    hide XorByte;
    for i := trim to len
      invariant forall t :: 0 <= t < i - trim ==> hash[t] == XorByte(a[trim + t], b[trim + t])
    {
      hash[i - trim] := XorByte(a[i], b[i]);
    }
  }

  /** The hashes of both rows xored, without the first `c` bytes, then the indices of the row whose
      indices come first, then those of the other. */
  predicate IsMerge(row: Bytes, a: Bytes, b: Bytes, len: nat, li: nat, c: nat) {
    && len + li <= |a| == |b| == |row| && c <= len && len - c + 2 * li <= |a|
    && row[..len - c] == XorBytes(a[c..len], b[c..len])
    && row[len - c..len - c + 2 * li] ==
        (if IndicesBefore(a, b, len, li) then a[len..len + li] + b[len..len + li]
          else b[len..len + li] + a[len..len + li])
  }

  /** The merging constructor: hash bytes from `trim` on are combined and moved to the
      front, followed by the indices of the row whose indices come first, then the other's. */
  method MergeRows(a: Bytes, b: Bytes, len: nat, lenIndices: nat, trim: nat) returns (row: Bytes)
    requires |a| == |b| && trim <= len && len + lenIndices <= |a| && len - trim + 2 * lenIndices <= |a|
    ensures IsMerge(row, a, b, len, lenIndices, trim)
  {
    hide XorBytes, IndicesBefore, Precedes;
    var hash := new Byte[|a|];
    forall t | 0 <= t < |a| {
      hash[t] := a[t];
    }
    XorFront(hash, a, b, len, trim);
    ghost var front := hash[..len - trim];
    var at := len - trim;
    var first, second := a, b;
    if !IndicesBefore(a, b, len, lenIndices) {
      first, second := b, a;
    }
    CopyTo(hash, at, first[len..len + lenIndices]);
    CopyTo(hash, at + lenIndices, second[len..len + lenIndices]);
    row := hash[..];
    assert row[..at] == front;
    assert row[at..at + 2 * lenIndices] == first[len..len + lenIndices] + second[len..len + lenIndices];
  }

  // ---------- one node ----------

  predicate IsFor(s: Solution, p: Params) {
    && Ok(p) && IsSolution(s) && s.width == HashLength(p) && |s.idx| == Pow2(p.k) && Are32Bit(s.idx)
  }

  /** The node of round `r` at place `q`: where its leaves start. */
  function Start(q: nat, r: nat): nat
    decreases r
  {
    if r == 0 then q else Start(2 * q, r - 1)
  }

  lemma {:induction false} StartIsProduct(q: nat, r: nat)
    ensures Start(q, r) == q * Pow2(r)
    decreases r
  {
    if r > 0 {
      StartIsProduct(2 * q, r - 1);
      assert 2 * q * Pow2(r - 1) == q * (2 * Pow2(r - 1));
    }
  }

  lemma StartFits(p: Params, q: nat, r: nat)
    requires r <= p.k && q < Pow2(p.k - r)
    ensures Start(q, r) + Pow2(r) <= Pow2(p.k)
  {
    hide Pow2;
    StartIsProduct(q, r);
    PowAdd(p.k - r, r);
    Times(q, Pow2(r));
    Scale(q + 1, Pow2(p.k - r), Pow2(r));
  }

  lemma StartHalves(q: nat, r: nat)
    ensures Start(2 * q, r) == Start(q, r + 1) && Start(2 * q + 1, r) == Start(q, r + 1) + Pow2(r)
  {
    StartIsProduct(2 * q, r);
    StartIsProduct(2 * q + 1, r);
    Times(2 * q, Pow2(r));
  }

  /** The rows' index parts compare as the index lists do. */
  lemma RowsCompare(a: Bytes, b: Bytes, s: Solution, p: Params, r: nat, lo: nat, lo': nat)
    requires IsFor(s, p) && r <= p.k && lo + Pow2(r) <= |s.idx| && lo' + Pow2(r) <= |s.idx|
    requires RowOf(a, s, p, r, lo) && RowOf(b, s, p, r, lo')
    ensures HashLen(p, r) + 4 * Pow2(r) <= |a| && HashLen(p, r) + 4 * Pow2(r) <= |b|
    ensures IndicesBefore(a, b, HashLen(p, r), 4 * Pow2(r))
       <==> Precedes(s.idx[lo..lo + Pow2(r)], s.idx[lo'..lo' + Pow2(r)])
  {
    hide HashLen, Rows, Precedes, XorRange, Pow2, RowWidth;
    RowFits(p, r);
    RowsOrder(s.idx[lo..lo + Pow2(r)], s.idx[lo'..lo' + Pow2(r)]);
  }

  lemma SubSlice(row: Bytes, at: nat, size: nat, from: nat, len: nat)
    requires at + size <= |row| && from + len <= size
    ensures row[at..at + size][from..from + len] == row[at + from..at + from + len]
  {
    var left, right := row[at..at + size][from..from + len], row[at + from..at + from + len];
    forall i | 0 <= i < len
      ensures left[i] == right[i]
    {
    }
  }

  lemma IndexOfRow(row: Bytes, s: Solution, p: Params, r: nat, lo: nat, i: nat)
    requires IsFor(s, p) && r <= p.k && lo + Pow2(r) <= |s.idx| && RowOf(row, s, p, r, lo) && i < Pow2(r)
    ensures HashLen(p, r) + 4 * i + 4 <= |row|
    ensures row[HashLen(p, r) + 4 * i..HashLen(p, r) + 4 * i + 4] == BigEndian(s.idx[lo + i], 4)
  {
    hide HashLen, Rows, XorRange, Pow2, RowWidth, BigEndian;
    RowFits(p, r);
    var len, list := HashLen(p, r), s.idx[lo..lo + Pow2(r)];
    RowsAt(list, i);
    SubSlice(row, len, 4 * Pow2(r), 4 * i, 4);
  }

  lemma SameIndexIs(a: Bytes, b: Bytes, s: Solution, p: Params, r: nat, lo: nat, lo': nat, i: nat, j: nat)
    requires IsFor(s, p) && r <= p.k && lo + Pow2(r) <= |s.idx| && lo' + Pow2(r) <= |s.idx|
    requires RowOf(a, s, p, r, lo) && RowOf(b, s, p, r, lo') && i < Pow2(r) && j < Pow2(r)
    ensures SameIndex(a, b, HashLen(p, r), i, j) <==> s.idx[lo + i] == s.idx[lo' + j]
  {
    hide HashLen, Pow2, BigEndian, RowOf;
    IndexOfRow(a, s, p, r, lo, i);
    IndexOfRow(b, s, p, r, lo', j);
    Pow32();
    BigEndianOrder(s.idx[lo + i], s.idx[lo' + j], 4);
  }

  lemma DisjointIs(a: Bytes, b: Bytes, s: Solution, p: Params, r: nat, lo: nat, lo': nat)
    requires IsFor(s, p) && r <= p.k && lo + Pow2(r) <= |s.idx| && lo' + Pow2(r) <= |s.idx|
    requires RowOf(a, s, p, r, lo) && RowOf(b, s, p, r, lo')
    ensures (forall i: nat, j: nat | i < Pow2(r) && j < Pow2(r) :: !SameIndex(a, b, HashLen(p, r), i, j))
       <==> Disjoint(s, lo, lo', Pow2(r))
  {
    hide HashLen, Pow2, RowOf, SameIndex;
    var n := Pow2(r);
    forall i: nat, j: nat | i < n && j < n
      ensures SameIndex(a, b, HashLen(p, r), i, j) <==> s.idx[lo + i] == s.idx[lo' + j]
    {
      SameIndexIs(a, b, s, p, r, lo, lo', i, j);
    }
    if forall i: nat, j: nat | i < n && j < n :: !SameIndex(a, b, HashLen(p, r), i, j) {
      forall i, j | lo <= i < lo + n && lo' <= j < lo' + n
        ensures s.idx[i] != s.idx[j]
      {
        assert !SameIndex(a, b, HashLen(p, r), i - lo, j - lo');
      }
    }
  }

  /** A row starts with its node's next collision group. */
  lemma GroupOfRow(row: Bytes, s: Solution, p: Params, r: nat, lo: nat)
    requires IsFor(s, p) && r < p.k && lo + Pow2(r) <= |s.idx| && RowOf(row, s, p, r, lo)
    ensures |row| == RowWidth(p) && CollisionBytes(p) <= HashLen(p, r) <= |row|
    ensures Offset(CollisionBytes(p), r) <= Offset(CollisionBytes(p), r + 1) <= s.width
    ensures row[..CollisionBytes(p)]
         == XorRange(s, lo, Pow2(r))[Offset(CollisionBytes(p), r)..Offset(CollisionBytes(p), r + 1)]
  {
    hide Rows, XorRange, HashLen, CollisionBytes, RowWidth, HashLength, Pow2;
    RowFits(p, r);
    RowFits(p, r + 1);
    var c, len, x := CollisionBytes(p), HashLen(p, r), XorRange(s, lo, Pow2(r));
    assert row[..c] == row[..len][..c];
    assert x[Offset(c, r)..][..c] == x[Offset(c, r)..Offset(c, r + 1)];
  }

  /** The checks on two neighbouring rows are the checks of their parent node. */
  lemma ChecksAre(a: Bytes, b: Bytes, s: Solution, p: Params, r: nat, lo: nat)
    requires IsFor(s, p) && r < p.k && lo + Pow2(r + 1) <= |s.idx|
    requires RowOf(a, s, p, r, lo) && RowOf(b, s, p, r, lo + Pow2(r))
    ensures Offset(CollisionBytes(p), r + 1) <= s.width
    ensures HashLen(p, r) + 4 * Pow2(r) <= |a| == |b| && CollisionBytes(p) <= HashLen(p, r)
    ensures NodeChecks(s, CollisionBytes(p), r + 1, lo)
       <==> && a[..CollisionBytes(p)] == b[..CollisionBytes(p)]
            && !IndicesBefore(b, a, HashLen(p, r), 4 * Pow2(r))
            && Disjoint(s, lo, lo + Pow2(r), Pow2(r))
  {
    hide Rows, Precedes, XorRange, Disjoint, IndicesBefore, HashLen, CollisionBytes, RowOf, RowWidth, IsSolution;
    RowFits(p, r);
    RowFits(p, r + 1);
    RowsCompare(b, a, s, p, r, lo + Pow2(r), lo);
    GroupOfRow(a, s, p, r, lo);
    GroupOfRow(b, s, p, r, lo + Pow2(r));
  }

  // ---------- one round ----------

  lemma MergedHash(row: Bytes, a: Bytes, b: Bytes, s: Solution, p: Params, r: nat, lo: nat)
    requires IsFor(s, p) && r < p.k && lo + 2 * Pow2(r) <= |s.idx|
    requires RowOf(a, s, p, r, lo) && RowOf(b, s, p, r, lo + Pow2(r))
    requires IsMerge(row, a, b, HashLen(p, r), 4 * Pow2(r), CollisionBytes(p))
    ensures Offset(CollisionBytes(p), r + 1) <= s.width && HashLen(p, r + 1) <= |row|
    ensures row[..HashLen(p, r + 1)] == XorRange(s, lo, 2 * Pow2(r))[Offset(CollisionBytes(p), r + 1)..]
  {
    hide Rows, Precedes, XorRange, IndicesBefore, HashLen, CollisionBytes, XorBytes, Pow2, RowWidth, HashLength,
      Offset, Are32Bit, RowOf, IsMerge;
    var n, c, len := Pow2(r), CollisionBytes(p), HashLen(p, r);
    RowFits(p, r);
    RowFits(p, r + 1);
    HashOfRow(a, s, p, r, lo);
    HashOfRow(b, s, p, r, lo + n);
    MergeHead(row, a, b, len, 4 * n, c);
    XorRangeSplit(s, lo, n, n);
    OffsetNext(c, r);
    XoredTails(row, a, b, XorRange(s, lo, n), XorRange(s, lo + n, n), len, Offset(c, r), c);
  }

  lemma HashOfRow(row: Bytes, s: Solution, p: Params, r: nat, lo: nat)
    requires IsFor(s, p) && r <= p.k && lo + Pow2(r) <= |s.idx| && RowOf(row, s, p, r, lo)
    ensures HashLen(p, r) <= |row| && Offset(CollisionBytes(p), r) <= s.width
    ensures row[..HashLen(p, r)] == XorRange(s, lo, Pow2(r))[Offset(CollisionBytes(p), r)..]
  {
    hide XorRange, Rows, HashLen, Pow2, Offset, RowWidth;
    RowFits(p, r);
  }

  lemma MergeHead(row: Bytes, a: Bytes, b: Bytes, len: nat, li: nat, c: nat)
    requires IsMerge(row, a, b, len, li, c)
    ensures c <= len <= |a| == |b| == |row|
    ensures row[..len - c] == XorBytes(a[c..len], b[c..len])
  {
    hide XorBytes, IndicesBefore;
  }

  lemma XoredTails(row: Bytes, a: Bytes, b: Bytes, x: Bytes, y: Bytes, len: nat, at: nat, c: nat)
    requires c <= len <= |a| == |b| == |row| && |x| == |y| == at + len && a[..len] == x[at..] && b[..len] == y[at..]
    requires row[..len - c] == XorBytes(a[c..len], b[c..len])
    ensures row[..len - c] == XorBytes(x, y)[at + c..]
  {
    hide XorBytes;
    XorSlice(x, y, at + c, |x|);
    assert XorBytes(x, y)[at + c..|x|] == XorBytes(x, y)[at + c..];
    SkipSlice(a, x, len, at, c);
    SkipSlice(b, y, len, at, c);
  }

  lemma IndicesOfRow(row: Bytes, s: Solution, p: Params, r: nat, lo: nat)
    requires IsFor(s, p) && r <= p.k && lo + Pow2(r) <= |s.idx| && RowOf(row, s, p, r, lo)
    ensures HashLen(p, r) + 4 * Pow2(r) <= |row|
    ensures row[HashLen(p, r)..HashLen(p, r) + 4 * Pow2(r)] == Rows(s.idx[lo..lo + Pow2(r)], 4)
  {
    hide XorRange, Rows, HashLen, Pow2;
    RowFits(p, r);
  }

  lemma MergedSlice(row: Bytes, a: Bytes, b: Bytes, len: nat, li: nat, c: nat)
    requires IsMerge(row, a, b, len, li, c)
    ensures len + li <= |a| == |b| == |row| && c <= len && len - c + 2 * li <= |row|
    ensures row[len - c..len - c + 2 * li] ==
        (if IndicesBefore(a, b, len, li) then a[len..len + li] + b[len..len + li]
          else b[len..len + li] + a[len..len + li])
  {
    hide IndicesBefore, XorBytes;
  }

  lemma MergedIndices(row: Bytes, a: Bytes, b: Bytes, s: Solution, p: Params, r: nat, lo: nat)
    requires IsFor(s, p) && r < p.k && lo + 2 * Pow2(r) <= |s.idx|
    requires RowOf(a, s, p, r, lo) && RowOf(b, s, p, r, lo + Pow2(r))
    requires Disjoint(s, lo, lo + Pow2(r), Pow2(r))
    requires !IndicesBefore(b, a, HashLen(p, r), 4 * Pow2(r))
    requires IsMerge(row, a, b, HashLen(p, r), 4 * Pow2(r), CollisionBytes(p))
    ensures HashLen(p, r + 1) + 4 * (2 * Pow2(r)) <= |row|
    ensures row[HashLen(p, r + 1)..HashLen(p, r + 1) + 4 * (2 * Pow2(r))] == Rows(s.idx[lo..lo + 2 * Pow2(r)], 4)
  {
    hide Rows, Precedes, XorRange, Disjoint, IndicesBefore, HashLen, CollisionBytes, XorBytes, Pow2, RowOf, RowWidth,
      HashLength, Offset, IsMerge;
    var n := Pow2(r);
    RowFits(p, r);
    MergedSlice(row, a, b, HashLen(p, r), 4 * n, CollisionBytes(p));
    LeftFirst(a, b, s, p, r, lo);
    RowsConcat(s.idx[lo..lo + n], s.idx[lo + n..lo + 2 * n]);
    IndicesOfRow(a, s, p, r, lo);
    IndicesOfRow(b, s, p, r, lo + n);
    assert s.idx[lo..lo + n] + s.idx[lo + n..lo + 2 * n] == s.idx[lo..lo + 2 * n];
  }

  /** Disjoint index lists in the right order are in strict order. */
  lemma LeftFirst(a: Bytes, b: Bytes, s: Solution, p: Params, r: nat, lo: nat)
    requires IsFor(s, p) && r < p.k && lo + 2 * Pow2(r) <= |s.idx|
    requires RowOf(a, s, p, r, lo) && RowOf(b, s, p, r, lo + Pow2(r))
    requires Disjoint(s, lo, lo + Pow2(r), Pow2(r)) && !IndicesBefore(b, a, HashLen(p, r), 4 * Pow2(r))
    ensures IndicesBefore(a, b, HashLen(p, r), 4 * Pow2(r))
  {
    hide Precedes, Disjoint, IndicesBefore, HashLen, CollisionBytes, Pow2, RowOf, RowWidth, HashLength, Offset;
    var n := Pow2(r);
    DisjointDiffer(s, lo, n);
    PrecedesTotal(s.idx[lo..lo + n], s.idx[lo + n..lo + 2 * n]);
    RowsCompare(a, b, s, p, r, lo, lo + n);
    RowsCompare(b, a, s, p, r, lo + n, lo);
  }

  /** Merging the two rows of a node that passes its checks gives the node's row. */
  lemma MergedRow(row: Bytes, a: Bytes, b: Bytes, s: Solution, p: Params, r: nat, lo: nat)
    requires IsFor(s, p) && r < p.k && lo + Pow2(r + 1) <= |s.idx|
    requires RowOf(a, s, p, r, lo) && RowOf(b, s, p, r, lo + Pow2(r))
    requires Disjoint(s, lo, lo + Pow2(r), Pow2(r))
    requires !IndicesBefore(b, a, HashLen(p, r), 4 * Pow2(r))
    requires IsMerge(row, a, b, HashLen(p, r), 4 * Pow2(r), CollisionBytes(p))
    ensures RowOf(row, s, p, r + 1, lo)
  {
    hide Rows, XorRange, Disjoint, IndicesBefore, HashLen, CollisionBytes, XorBytes, IsMerge, Precedes, RowOf, RowWidth,
      HashLength, Offset;
    DoubledPower(r);
    MergedHash(row, a, b, s, p, r, lo);
    MergedIndices(row, a, b, s, p, r, lo);
    MergedWidth(row, a, b, s, p, r, lo);
    RowParts(row, s, p, r + 1, lo);
  }

  lemma MergedWidth(row: Bytes, a: Bytes, b: Bytes, s: Solution, p: Params, r: nat, lo: nat)
    requires IsFor(s, p) && r < p.k && lo + Pow2(r) <= |s.idx| && RowOf(a, s, p, r, lo)
    requires IsMerge(row, a, b, HashLen(p, r), 4 * Pow2(r), CollisionBytes(p))
    ensures |row| == RowWidth(p)
  {
    hide Rows, XorRange, HashLen, CollisionBytes, Pow2, Offset, RowWidth, XorBytes, IndicesBefore;
  }

  lemma DoubledPower(r: nat)
    ensures Pow2(r + 1) == 2 * Pow2(r)
  {
  }

  lemma RowParts(row: Bytes, s: Solution, p: Params, r: nat, lo: nat)
    requires IsFor(s, p) && r <= p.k && lo + Pow2(r) <= |s.idx| && |row| == RowWidth(p)
    requires Offset(CollisionBytes(p), r) <= s.width && HashLen(p, r) + 4 * Pow2(r) <= |row|
    requires row[..HashLen(p, r)] == XorRange(s, lo, Pow2(r))[Offset(CollisionBytes(p), r)..]
    requires row[HashLen(p, r)..HashLen(p, r) + 4 * Pow2(r)] == Rows(s.idx[lo..lo + Pow2(r)], 4)
    ensures RowOf(row, s, p, r, lo)
  {
    hide Rows, XorRange, HashLen, CollisionBytes, Pow2, Offset, RowWidth;
  }

  lemma OffsetNext(c: nat, r: nat)
    ensures Offset(c, r + 1) == Offset(c, r) + c
  {
  }

  lemma SkipSlice(a: Bytes, x: Bytes, len: nat, at: nat, c: nat)
    requires len <= |a| && at + len == |x| && c <= len && a[..len] == x[at..]
    ensures a[c..len] == x[at + c..] == x[at + c..|x|]
  {
    assert a[c..len] == a[..len][c..];
    assert x[at..][c..] == x[at + c..];
  }

  lemma DisjointDiffer(s: Solution, lo: nat, n: nat)
    requires n > 0 && lo + 2 * n <= |s.idx| && Disjoint(s, lo, lo + n, n)
    ensures s.idx[lo..lo + n] != s.idx[lo + n..lo + 2 * n]
  {
    assert s.idx[lo..lo + n][0] == s.idx[lo] && s.idx[lo + n..lo + 2 * n][0] == s.idx[lo + n];
  }

  /** Row `q` of round `r`: it belongs to its node, whose tree passes all its checks. */
  predicate Checked(row: Bytes, s: Solution, p: Params, r: nat, q: nat)
    requires IsFor(s, p) && r <= p.k && q < Pow2(p.k - r)
  {
    StartFits(p, q, r);
    RowFits(p, r);
    && RowOf(row, s, p, r, Start(q, r))
    && CheckedTree(s, CollisionBytes(p), r, Start(q, r))
  }

  /** The whole tree passes its checks. */
  predicate RootOk(s: Solution, p: Params)
    requires IsFor(s, p)
  {
    RowFits(p, p.k);
    CheckedTree(s, CollisionBytes(p), p.k, 0)
  }

  lemma ChildrenOk(s: Solution, c: nat, r: nat, lo: nat)
    requires IsSolution(s) && lo + Pow2(r + 1) <= |s.idx| && Offset(c, r + 1) <= s.width && Offset(c, r) <= s.width
    requires CheckedTree(s, c, r + 1, lo)
    ensures CheckedTree(s, c, r, lo) && CheckedTree(s, c, r, lo + Pow2(r))
  {
    hide IsSolution, NodeChecks;
  }

  /** If the whole tree passes its checks then so does every subtree. */
  lemma {:induction false} RootImplies(s: Solution, p: Params, r: nat, q: nat)
    requires IsFor(s, p) && r <= p.k && q < Pow2(p.k - r) && RootOk(s, p)
    ensures Start(q, r) + Pow2(r) <= |s.idx| && Offset(CollisionBytes(p), r) <= s.width
    ensures CheckedTree(s, CollisionBytes(p), r, Start(q, r))
    decreases p.k - r
  {
    hide IsSolution, CheckedTree, CollisionBytes, Start, HashLen, RowWidth;
    StartFits(p, q, r);
    RowFits(p, r);
    if r == p.k {
      assert Pow2(0) == 1;
      StartZero(r);
    } else {
      assert Pow2(p.k - r) == 2 * Pow2(p.k - (r + 1));
      RootImplies(s, p, r + 1, q / 2);
      StartHalves(q / 2, r);
      ChildrenOk(s, CollisionBytes(p), r, Start(q / 2, r + 1));
      assert q == 2 * (q / 2) || q == 2 * (q / 2) + 1;
    }
  }

  lemma StartZero(r: nat)
    ensures Start(0, r) == 0
  {
    StartIsProduct(0, r);
  }

  /** The rows at the start of round `r`. */
  predicate AtRound(x: seq<Bytes>, s: Solution, p: Params, r: nat)
    requires IsFor(s, p) && r <= p.k
  {
    |x| == Pow2(p.k - r) && forall q: nat {:trigger Checked(x[q], s, p, r, q)} | q < |x| :: Checked(x[q], s, p, r, q)
  }

  /** The rows that the current round has produced so far. */
  predicate HalfRound(xc: seq<Bytes>, s: Solution, p: Params, r: nat)
    requires IsFor(s, p) && r < p.k
  {
    |xc| <= Pow2(p.k - (r + 1)) && forall q: nat | q < |xc| :: Checked(xc[q], s, p, r + 1, q)
  }

  /** The verifier's three checks on a pair of rows. */
  predicate PairOk(a: Bytes, b: Bytes, len: nat, li: nat, c: nat) {
    && len + li <= |a| == |b| && c <= len
    && a[..c] == b[..c] && !IndicesBefore(b, a, len, li)
    && forall i: nat, j: nat | i < li / 4 && j < li / 4 :: !SameIndex(a, b, len, i, j)
  }

  /** The checks on neighbouring rows `2 * q` and `2 * q + 1` decide those of node `q`. */
  lemma PairChecks(x: seq<Bytes>, a: Bytes, b: Bytes, s: Solution, p: Params, r: nat, q: nat)
    requires IsFor(s, p) && r < p.k && AtRound(x, s, p, r) && 2 * q + 1 < |x| && a == x[2 * q] && b == x[2 * q + 1]
    ensures HashLen(p, r) + 4 * Pow2(r) <= |a| == |b| && CollisionBytes(p) <= HashLen(p, r)
    ensures HashLen(p, r) - CollisionBytes(p) + 2 * (4 * Pow2(r)) <= |a|
    ensures Start(q, r + 1) + Pow2(r + 1) <= |s.idx| && Offset(CollisionBytes(p), r + 1) <= s.width
    ensures CheckedTree(s, CollisionBytes(p), r + 1, Start(q, r + 1))
       <==> PairOk(a, b, HashLen(p, r), 4 * Pow2(r), CollisionBytes(p))
  {
    hide NodeChecks, CollisionBytes, HashLen, IndicesBefore, SameIndex, IsSolution, Disjoint, RowOf, Start;
    assert Checked(x[2 * q], s, p, r, 2 * q) && Checked(x[2 * q + 1], s, p, r, 2 * q + 1);
    var lo := Start(q, r + 1);
    StartHalves(q, r);
    StartFits(p, q, r + 1);
    RowFits(p, r);
    RowFits(p, r + 1);
    assert Pow2(r + 1) == 2 * Pow2(r);
    RowLength(a, s, p, r, Start(2 * q, r));
    ChecksAre(a, b, s, p, r, lo);
    DisjointIs(a, b, s, p, r, lo, lo + Pow2(r));
  }

  lemma RowLength(row: Bytes, s: Solution, p: Params, r: nat, lo: nat)
    requires IsFor(s, p) && r <= p.k && lo + Pow2(r) <= |s.idx| && RowOf(row, s, p, r, lo)
    ensures |row| == RowWidth(p)
  {
  }

  lemma PairMerged(x: seq<Bytes>, row: Bytes, a: Bytes, b: Bytes, s: Solution, p: Params, r: nat, q: nat)
    requires IsFor(s, p) && r < p.k && AtRound(x, s, p, r) && 2 * q + 1 < |x| && a == x[2 * q] && b == x[2 * q + 1]
    requires PairOk(a, b, HashLen(p, r), 4 * Pow2(r), CollisionBytes(p))
    requires IsMerge(row, a, b, HashLen(p, r), 4 * Pow2(r), CollisionBytes(p))
    ensures Checked(row, s, p, r + 1, q)
  {
    hide NodeChecks, CollisionBytes, HashLen, IndicesBefore, SameIndex, IsSolution, Disjoint, RowOf, Start, IsMerge,
      CheckedTree;
    PairChecks(x, a, b, s, p, r, q);
    assert Checked(x[2 * q], s, p, r, 2 * q) && Checked(x[2 * q + 1], s, p, r, 2 * q + 1);
    StartHalves(q, r);
    StartFits(p, q, r + 1);
    var lo := Start(q, r + 1);
    assert Pow2(r + 1) == 2 * Pow2(r);
    DisjointIs(a, b, s, p, r, lo, lo + Pow2(r));
    MergedRow(row, a, b, s, p, r, lo);
  }

  lemma PowStep(n: nat)
    requires n > 0
    ensures Pow2(n) == 2 * Pow2(n - 1)
  {
  }

  /** One step of a round: checks two rows and merges them, or finds the solution invalid. */
  method MergePair(x: seq<Bytes>, i: nat, hashLen: nat, lenIndices: nat, p: Params, ghost s: Solution, ghost r: nat,
      ghost q: nat)
      returns (ok: bool, row: Bytes)
    requires IsFor(s, p) && r < p.k && AtRound(x, s, p, r) && i == 2 * q && i + 1 < |x|
    requires hashLen == HashLen(p, r) && lenIndices == 4 * Pow2(r)
    ensures ok ==> Checked(row, s, p, r + 1, q)
    ensures !ok ==> !RootOk(s, p)
  {
    hide CollisionBytes, HashLen, IndicesBefore, SameIndex, IsSolution, Checked, CheckedTree, Start, XorBytes, RootOk,
      Pow2, Ok, Are32Bit, HashLength, Precedes, IsMerge;
    var a, b := x[i], x[i + 1];
    PairChecks(x, a, b, s, p, r, q);
    row := [];
    ok := HasCollision(a, b, CollisionBytes(p));
    if ok {
      ok := !IndicesBefore(b, a, hashLen, lenIndices);
      if ok {
        ok := DistinctIndices(a, b, hashLen, lenIndices);
        if ok {
          row := MergeRows(a, b, hashLen, lenIndices, CollisionBytes(p));
          PairMerged(x, row, a, b, s, p, r, q);
        }
      }
    }
    PowStep(p.k - r);
    if !ok && RootOk(s, p) {
      RootImplies(s, p, r + 1, q);
    }
  }

  // ---------- the whole verifier ----------

  /** The leaf rows pass the (empty) checks of round 0. */
  lemma LeafChecked(row: Bytes, s: Solution, p: Params, q: nat)
    requires IsFor(s, p) && q < Pow2(p.k) && |row| == RowWidth(p) && HashLength(p) + 4 <= |row|
    requires row[..HashLength(p)] == s.leaves[q] && row[HashLength(p)..HashLength(p) + 4] == BigEndian(s.idx[q], 4)
    ensures Checked(row, s, p, 0, q)
  {
    hide BigEndian, CollisionBytes, XorBytes;
    PowZero();
    StartFits(p, q, 0);
    RowFits(p, 0);
    assert Start(q, 0) == q && HashLen(p, 0) == HashLength(p);
    XorOne(s, q);
    assert XorRange(s, q, 1)[Offset(CollisionBytes(p), 0)..] == XorRange(s, q, 1);
    assert s.idx[q..q + 1] == [s.idx[q]];
    RowsCons(s.idx[q], []);
    assert [s.idx[q]] + [] == [s.idx[q]];
  }

  lemma XorOne(s: Solution, q: nat)
    requires IsSolution(s) && q < |s.leaves|
    ensures XorRange(s, q, 1) == s.leaves[q]
  {
    hide XorByte;
    assert XorRange(s, q, 0) == ZeroBytes(s.width);
    XorBytesZero(s.leaves[q]);
  }

  lemma XorBytesZero(a: Bytes)
    ensures XorBytes(ZeroBytes(|a|), a) == a
  {
    hide XorByte;
    forall i | 0 <= i < |a|
      ensures XorBytes(ZeroBytes(|a|), a)[i] == a[i]
    {
      XorByteZeroLeft(a[i]);
    }
  }

  lemma XorByteZeroLeft(a: Byte)
    ensures XorByte(0, a) == a
  {
    hide XorByte, BitsOfNat;
    ZeroHasNoBits(8);
    XorByteBits(0, a);
    assert XorBits(ZeroBits(8), BitsOfNat(a, 8)) == BitsOfNat(a, 8);
    ByteFromBits(XorByte(0, a), a);
  }

  /** With the tree checked, a zero last group is a zero total. */
  lemma Verdict(row: Bytes, s: Solution, p: Params)
    requires IsFor(s, p) && CollisionBytes(p) <= |row| && 0 < Pow2(p.k - p.k) && Checked(row, s, p, p.k, 0)
    ensures Solves(s, p) <==> AllZero(row[..CollisionBytes(p)])
  {
    hide AllZero, XorRange, CheckedTree, BirthdayTree, Rows, CollisionBytes, HashLen;
    var c, n := CollisionBytes(p), Pow2(p.k);
    StartZero(p.k);
    RowFits(p, p.k);
    CheckedIsBirthday(s, c, p.k, 0);
    BirthdayZero(s, c, p.k, 0);
    AllZeroSplit(XorRange(s, 0, n), Offset(c, p.k));
  }

  lemma NoSolution(s: Solution, p: Params)
    requires IsFor(s, p) && !RootOk(s, p)
    ensures !Solves(s, p)
  {
    hide AllZero, XorRange, CheckedTree, BirthdayTree, CollisionBytes, IsSolution;
    RowFits(p, p.k);
    CheckedIsBirthday(s, CollisionBytes(p), p.k, 0);
  }

  /** The rows built from the decoded indices. */
  method LeafRows(gen: Generator, soln: Bytes, p: Params) returns (x: seq<Bytes>)
    requires Ok(p) && |soln| == SolutionWidth(p) && forall g :: |gen(g)| == HashOutput(p)
    ensures IsFor(Decoded(gen, soln, p), p) && AtRound(x, Decoded(gen, soln, p), p, 0)
  {
    hide MinimalIndices, Checked, HashLength, HashOutput, CollisionBits, CollisionBytes, PerHash, SolutionWidth,
      RowWidth, ExpandedArray, BigEndian, Pow2;
    ghost var s := Decoded(gen, soln, p);
    IndexCount(soln, p);
    var indices := GetIndicesFromMinimal(soln, CollisionBits(p));
    x := [];
    for t := 0 to |indices|
      invariant |x| == t
      invariant forall q: nat | q < t :: Checked(x[q], s, p, 0, q)
    {
      var i := indices[t];
      var tmpHash := gen(i / PerHash(p));
      var at := SlotStart(i, p);
      var row := LeafRow(tmpHash[at..at + p.n / 8], p, i);
      LeafChecked(row, s, p, t);
      x := x + [row];
    }
  }

  /** One pass over the rows of a round. */
  method Round(x: seq<Bytes>, hashLen: nat, lenIndices: nat, p: Params, ghost s: Solution, ghost r: nat)
    returns (ok: bool, xc: seq<Bytes>)
    requires IsFor(s, p) && r < p.k && AtRound(x, s, p, r)
    requires hashLen == HashLen(p, r) && lenIndices == 4 * Pow2(r)
    ensures ok ==> AtRound(xc, s, p, r + 1)
    ensures !ok ==> !RootOk(s, p)
  {
    hide Checked, HashLen, IsSolution, RootOk;
    assert |x| == 2 * Pow2(p.k - (r + 1));
    xc := [];
    var i := 0;
    while i < |x|
      invariant i == 2 * |xc| && i <= |x|
      invariant HalfRound(xc, s, p, r)
      decreases |x| - i
    {
      var row;
      ok, row := MergePair(x, i, hashLen, lenIndices, p, s, r, |xc|);
      if !ok {
        return;
      }
      xc := xc + [row];
      i := i + 2;
    }
    ok := true;
  }

  /** `IsValidSolution` accepts exactly the solutions. */
  method IsValidSolution(gen: Generator, soln: Bytes, p: Params) returns (valid: bool)
    requires Ok(p) && forall g :: |gen(g)| == HashOutput(p)
    ensures valid <==> |soln| == SolutionWidth(p) && Solves(Decoded(gen, soln, p), p)
  {
    hide Checked, IsSolution, RootOk, Solves, Decoded, SolutionWidth, HashOutput, CollisionBytes, HashLength, HashLen;
    if |soln| != SolutionWidth(p) {
      return false;
    }
    var x := LeafRows(gen, soln, p);
    ghost var s := Decoded(gen, soln, p);
    ghost var r := 0;
    var hashLen, lenIndices := HashLength(p), 4;
    RowFits(p, 0);
    PowZero();
    while |x| > 1
      invariant r <= p.k && AtRound(x, s, p, r)
      invariant hashLen == HashLen(p, r) && lenIndices == 4 * Pow2(r)
      decreases p.k - r
    {
      if r == p.k {
        PowZero();
        assert false;
      }
      var ok, xc := Round(x, hashLen, lenIndices, p, s, r);
      if !ok {
        NoSolution(s, p);
        return false;
      }
      RowFits(p, r);
      x, r := xc, r + 1;
      hashLen := hashLen - CollisionBytes(p);
      lenIndices := lenIndices * 2;
    }
    OneRowLeft(p, r);
    RowFits(p, r);
    CheckedLength(x[0], s, p, r, 0);
    Verdict(x[0], s, p);
    valid := IsZero(x[0], hashLen);
  }

  lemma OneRowLeft(p: Params, r: nat)
    requires r <= p.k && Pow2(p.k - r) <= 1
    ensures r == p.k
  {
  }

  lemma CheckedLength(row: Bytes, s: Solution, p: Params, r: nat, q: nat)
    requires IsFor(s, p) && r <= p.k && q < Pow2(p.k - r) && Checked(row, s, p, r, q)
    ensures |row| == RowWidth(p) && HashLen(p, r) <= |row|
  {
    hide HashLen, CheckedTree, IsSolution, Rows, XorRange;
    RowFits(p, r);
  }
}
