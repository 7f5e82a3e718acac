/**
 The trial-division table of the prime-chain proof of work: the first primes, and for each one
 a reciprocal and the powers of 2^32 that fold a long number into one machine word.
 */
module DivisionChecker {
  import opened Arithmetic
  import opened Primes
  import opened Reciprocals
  import opened Words

  // ---------- the primes ----------

  /** Everything below `n` with a divisor below `factor` is marked, from its square on. */
  predicate IsMarked(composite: seq<bool>, factor: nat) {
    && (forall m :: 2 <= m < |composite| && composite[m] ==> !IsPrime(m))
    && (forall m, f :: 2 <= f < factor && f * f <= m < |composite| && Divides(f, m) ==> composite[m])
  }

  lemma OnlyMultiple(m: int, f: int, c: int)
    requires f >= 1 && f * c <= m < f * c + f && Divides(f, m)
    ensures m == f * c
  {
    var k := m / f;
    assert m == f * k;
    assert f * (k - c) == m - f * c;
    ProductGrows(f, k - c);
  }

  lemma MultipleIsComposite(f: nat, c: nat)
    requires 2 <= f <= c
    ensures f < f * c && !IsPrime(f * c)
  {
    ProductGrows(f, c - 1);
    assert f * (c - 1) == f * c - f;
    ProductDivides(f, c);
  }

  /** Crossing out the multiples of one factor. */
  method Mark(composite: array<bool>, factor: nat)
    requires factor >= 2 && IsMarked(composite[..], factor)
    modifies composite
    ensures IsMarked(composite[..], factor + 1)
  {
    hide IsPrime, Divides;
    var n := factor * factor;
    ghost var c := factor;
    while n < composite.Length
      invariant factor <= c && n == factor * c
      invariant IsMarked(composite[..], factor)
      invariant forall m :: factor * factor <= m < n && m < composite.Length && Divides(factor, m) ==> composite[m]
      decreases composite.Length - n
    {
      MultipleIsComposite(factor, c);
      composite[n] := true;
      forall m | n <= m < n + factor && m < composite.Length && Divides(factor, m)
        ensures composite[m]
      {
        OnlyMultiple(m, factor, c);
      }
      assert factor * (c + 1) == factor * c + factor;
      n, c := n + factor, c + 1;
    }
  }

  /** The multiples of a composite factor are marked already. */
  lemma SkipComposite(composite: seq<bool>, factor: nat)
    requires 2 <= factor < |composite| && IsMarked(composite, factor) && composite[factor]
    ensures IsMarked(composite, factor + 1)
  {
    hide IsPrime, Divides;
    var d := SmallDivisor(factor);
    SquareGrows(d, factor);
    forall m | factor * factor <= m < |composite| && Divides(factor, m)
      ensures composite[m]
    {
      DividesTransitive(d, factor, m);
    }
  }

  lemma UnmarkedIsPrime(composite: seq<bool>, factor: nat, n: nat)
    requires IsMarked(composite, factor) && 2 <= n < |composite| <= factor * factor
    ensures composite[n] <==> !IsPrime(n)
  {
    hide IsPrime, Divides;
    if !IsPrime(n) {
      var d := SmallDivisor(n);
      SquareGrows(factor, d);
    }
  }

  lemma NothingMarked(composite: seq<bool>)
    requires forall m :: 0 <= m < |composite| ==> !composite[m]
    ensures IsMarked(composite, 2)
  {
  }

  /** The prime table: the first primes, as many as there are below the limit or fit. */
  method Sieve(limit: nat, primes: array<nat>) returns (primesNum: nat)
    modifies primes
    ensures primesNum == if |PrimesBelow(limit)| < primes.Length then |PrimesBelow(limit)| else primes.Length
    ensures primes[..primesNum] == PrimesBelow(limit)[..primesNum]
  {
    hide IsPrime, PrimesBelow, Divides, IsMarked;
    var composite := new bool[limit](_ => false);
    NothingMarked(composite[..]);
    var factor := 2;
    while factor * factor < limit
      invariant 2 <= factor && IsMarked(composite[..], factor)
      decreases limit - factor
    {
      SquareGrows(1, factor - 1);
      assert factor * factor >= factor;
      if !composite[factor] {
        Mark(composite, factor);
      } else {
        SkipComposite(composite[..], factor);
      }
      factor := factor + 1;
    }
    primesNum := 0;
    ghost var marked := composite[..];
    var n := 2;
    assert PrimesBelow(2) == [] by {
      FirstPrime();
    }
    while n < limit && primesNum < primes.Length
      invariant 2 <= n && (n <= limit || n == 2) && primesNum <= primes.Length
      invariant primes[..primesNum] == PrimesBelow(n) && composite[..] == marked
    {
      UnmarkedIsPrime(marked, factor, n);
      NextPrime(n);
      if !composite[n] {
        primes[primesNum] := n;
        primesNum := primesNum + 1;
      }
      n := n + 1;
    }
    if n <= limit {
      PrimesGrow(n, limit);
    } else {
      PrimesGrow(limit, n);
    }
  }

  lemma FirstPrime()
    ensures PrimesBelow(2) == []
  {
    assert PrimesBelow(0) == [] && PrimesBelow(1) == [];
  }

  lemma NextPrime(n: nat)
    ensures PrimesBelow(n + 1) == PrimesBelow(n) + if IsPrime(n) then [n] else []
  {
  }

  // ---------- folding a long number ----------

  /** The number with these 32-bit limbs, the least significant one first. */
  function Value(limbs: seq<nat>): nat {
    if limbs == [] then 0 else limbs[0] + Pow2(32) * Value(limbs[1..])
  }

  /** 2^(32 (j + 1)) modulo the prime, the factor of limb j + 1. */
  function Folded(j: nat, prime: nat): nat
    requires prime >= 1
  {
    Pow2(32 * (j + 1)) % prime
  }

  predicate AreLimbs(limbs: seq<nat>) {
    forall i :: 0 <= i < |limbs| ==> limbs[i] < Pow2(32)
  }

  /** Row `i` of the flat table: the powers of 2^32 modulo the prime, from the first one on. */
  predicate IsRow(modulos: seq<nat>, width: nat, i: nat, prime: nat)
    requires prime >= 1
  {
    && width * i + width <= |modulos|
    && forall j :: 0 <= j < width - 1 ==> modulos[width * i + j] == Folded(j, prime)
  }

  /** Limb `i` is the digit of weight 2^(32 i). */
  lemma {:induction false} LimbIsDigit(limbs: seq<nat>, i: nat)
    requires AreLimbs(limbs) && i < |limbs|
    ensures Value(limbs) / Pow2(32 * i) % Pow2(32) == limbs[i]
  {
    hide Pow2;
    var w, tail := Pow2(32), limbs[1..];
    DivMod(Value(limbs), w, Value(tail), limbs[0]);
    if i == 0 {
      PowOfZero();
    } else {
      LimbIsDigit(tail, i - 1);
      PowAdd(32, 32 * (i - 1));
      DivDiv(Value(limbs), w, Pow2(32 * (i - 1)));
    }
  }

  lemma {:induction false} ValueNext(limbs: seq<nat>, x: nat)
    ensures Value(limbs + [x]) == Value(limbs) + Pow2(32 * |limbs|) * x
  {
    hide Pow2;
    if limbs == [] {
      assert ([] + [x])[1..] == [];
      PowOfZero();
    } else {
      var tail := limbs[1..];
      assert (limbs + [x])[1..] == tail + [x];
      ValueNext(tail, x);
      PowAdd(32, 32 * |tail|);
      assert Pow2(32) * (Value(tail) + Pow2(32 * |tail|) * x)
          == Pow2(32) * Value(tail) + Pow2(32) * Pow2(32 * |tail|) * x;
    }
  }

  /** The sum of `n` folded limbs, each below 2^32 times the prime. */
  lemma FoldedBound(acc: nat, n: nat, prime: nat, m: nat, x: nat)
    requires acc < Pow2(32) * (n * prime) && m < prime && x < Pow2(32)
    ensures acc + m * x < Pow2(32) * ((n + 1) * prime)
  {
    hide Pow2;
    var w := Pow2(32);
    assert w * ((n + 1) * prime) == w * (n * prime) + w * prime;
    Scale(m, prime, x);
    Scale(x, w, prime);
  }

  /** One row of powers, each the previous one times 2^32. */
  method FillRow(modulos: array<nat>, width: nat, i: nat, prime: nat)
    requires prime >= 2 && width >= 1 && width * i + width <= modulos.Length
    modifies modulos
    ensures IsRow(modulos[..], width, i, prime)
    ensures modulos[..width * i] == old(modulos[..width * i])
  {
    hide Pow2, Folded;
    var start := width * i;
    FirstFolded(prime);
    var modulo32 := Pow2(32) % prime;
    var acc := modulo32;
    for j := 0 to width - 1
      invariant acc == Folded(j, prime)
      invariant forall k :: 0 <= k < j ==> modulos[start + k] == Folded(k, prime)
      invariant modulos[..start] == old(modulos[..start])
    {
      modulos[start + j] := acc;
      NextFolded(j, prime);
      acc := acc * modulo32 % prime;
    }
  }

  lemma FirstFolded(prime: nat)
    requires prime >= 1
    ensures Folded(0, prime) == Pow2(32) % prime
  {
  }

  lemma NextFolded(j: nat, prime: nat)
    requires prime >= 1
    ensures Folded(j, prime) * (Pow2(32) % prime) % prime == Folded(j + 1, prime)
  {
    hide Pow2;
    var a, b := Pow2(32 * (j + 1)), Pow2(32);
    PowAdd(32 * (j + 1), 32);
    ProductRemainder(a, b % prime, prime);
    ProductRemainder(b, a, prime);
    assert a * (b % prime) == (b % prime) * a && a * b == b * a;
  }

  lemma RowKept(before: seq<nat>, after: seq<nat>, width: nat, i: nat, k: nat, prime: nat)
    requires prime >= 1 && k < i && width * i <= |before| == |after|
    requires after[..width * i] == before[..width * i] && IsRow(before, width, k, prime)
    ensures IsRow(after, width, k, prime)
  {
    assert width * k + width <= width * i by {
      Scale(k + 1, i, width);
      assert (k + 1) * width == width * k + width && i * width == width * i;
    }
    hide Folded;
    forall j | 0 <= j < width - 1
      ensures after[width * k + j] == Folded(j, prime)
    {
      assert after[..width * i][width * k + j] == before[..width * i][width * k + j];
    }
  }

  /** One prime's part of the tables. */
  ghost predicate IsEntry(prime: nat, m: nat, shift: nat, modulos: seq<nat>, width: nat, i: nat) {
    prime >= 2 && width * prime <= Pow2(31) && DividesBy(prime, m, shift) && IsRow(modulos, width, i, prime)
  }

  /** The first `n` entries are there. */
  ghost predicate IsTable(primes: seq<nat>, invM: seq<nat>, offsets: seq<nat>, modulos: seq<nat>, width: nat, n: nat) {
    && width >= 1 && n <= |primes| == |invM| == |offsets|
    && forall i :: 0 <= i < n ==> IsEntry(primes[i], invM[i], offsets[i], modulos, width, i)
  }

  lemma TableNext(primes: seq<nat>, invM: seq<nat>, offsets: seq<nat>, modulos: seq<nat>, width: nat, i: nat,
                  m: nat, shift: nat, after: seq<nat>)
    requires IsTable(primes, invM, offsets, modulos, width, i) && i < |primes|
    requires width * i <= |modulos| == |after| && after[..width * i] == modulos[..width * i]
    requires IsEntry(primes[i], m, shift, after, width, i)
    ensures IsTable(primes, invM[i := m], offsets[i := shift], after, width, i + 1)
  {
    hide IsRow, DividesBy;
    forall k | 0 <= k < i
      ensures IsEntry(primes[k], invM[k], offsets[k], after, width, k)
    {
      RowKept(modulos, after, width, i, k, primes[k]);
    }
  }

  /** The sum of the first `n` limbs, each times its power of 2^32 modulo the prime. */
  function FoldedSum(limbs: seq<nat>, n: nat, prime: nat): nat
    requires 1 <= n <= |limbs| && prime >= 1
  {
    if n == 1 then limbs[0] else FoldedSum(limbs, n - 1, prime) + Folded(n - 2, prime) * limbs[n - 1]
  }

  /** Folding keeps the remainder and stays below 2^63. */
  lemma {:induction false} FoldedSumIs(limbs: seq<nat>, n: nat, prime: nat)
    requires 1 <= n <= |limbs| && prime >= 2 && AreLimbs(limbs)
    ensures FoldedSum(limbs, n, prime) % prime == Value(limbs[..n]) % prime
    ensures FoldedSum(limbs, n, prime) < Pow2(32) * (n * prime)
  {
    hide Pow2, Folded, Value;
    if n == 1 {
      OneLimb(limbs[0]);
      assert limbs[..1] == [limbs[0]];
      Scale(1, prime, Pow2(32));
    } else {
      var x, m := limbs[n - 1], Folded(n - 2, prime);
      FoldedSumIs(limbs, n - 1, prime);
      FoldedBelow(n - 2, prime);
      FoldedBound(FoldedSum(limbs, n - 1, prime), n - 1, prime, m, x);
      assert limbs[..n] == limbs[..n - 1] + [x];
      ValueNext(limbs[..n - 1], x);
      FoldedProduct(n - 2, prime, x);
      SumRemainder(FoldedSum(limbs, n - 1, prime), m * x, Value(limbs[..n - 1]), Pow2(32 * (n - 1)) * x, prime);
    }
  }

  lemma OneLimb(x: nat)
    ensures Value([x]) == x
  {
  }

  lemma FoldedBelow(j: nat, prime: nat)
    requires prime >= 1
    ensures Folded(j, prime) < prime
  {
  }

  lemma FoldedProduct(j: nat, prime: nat, x: nat)
    requires prime >= 1
    ensures Folded(j, prime) * x % prime == Pow2(32 * (j + 1)) * x % prime
  {
    hide Pow2;
    ProductRemainder(Pow2(32 * (j + 1)), x, prime);
  }

  /** For as many limbs as the table is made for, the sum fits the reciprocal. */
  lemma FoldedFits(limbs: seq<nat>, width: nat, prime: nat)
    requires 1 <= |limbs| <= width && prime >= 2 && AreLimbs(limbs) && width * prime <= Pow2(31)
    ensures FoldedSum(limbs, |limbs|, prime) < Pow2(63)
    ensures FoldedSum(limbs, |limbs|, prime) % prime == Value(limbs) % prime
  {
    hide Pow2, FoldedSum, Value;
    FoldedSumIs(limbs, |limbs|, prime);
    assert limbs[..|limbs|] == limbs;
    Scale(|limbs|, width, prime);
    Scale(|limbs| * prime, Pow2(31), Pow2(32));
    PowAdd(31, 32);
  }

  lemma NextSum(limbs: seq<nat>, n: nat, prime: nat)
    requires n < |limbs| && prime >= 1
    ensures FoldedSum(limbs, n + 1, prime)
         == if n == 0 then limbs[0] else FoldedSum(limbs, n, prime) + Folded(n - 1, prime) * limbs[n]
  {
  }

  lemma Subtracted(n: nat, d: nat, m: nat, shift: nat)
    requires d >= 1 && DividesBy(d, m, shift) && n < Pow2(63)
    ensures n - ShiftedProduct(n, m, shift) * d == n % d
  {
    hide Pow2, ShiftedProduct;
  }

  class Checker {
    const limit: nat
    const maxLimbs: nat
    const primesNum: nat
    const primes: array<nat>
    const invM: array<nat>
    const offsets: array<nat>
    const modulos: array<nat>

    ghost predicate Valid()
      reads primes, invM, offsets, modulos
    {
      && IsTable(primes[..], invM[..], offsets[..], modulos[..], maxLimbs, primesNum)
      && primesNum <= |PrimesBelow(limit)| && primes[..primesNum] == PrimesBelow(limit)[..primesNum]
    }

    /** `init`. The sieve's limit comes from floating-point logarithms and is a parameter; the
        table is filled as far as the sieve found primes. */
    constructor (primeTableLimit: nat, maxPrimesNum: nat, maxDividendSizeInLimbs: nat)
      requires maxDividendSizeInLimbs >= 1 && maxDividendSizeInLimbs * primeTableLimit <= Pow2(31)
      ensures Valid() && fresh(primes) && fresh(invM) && fresh(offsets) && fresh(modulos)
      ensures limit == primeTableLimit && maxLimbs == maxDividendSizeInLimbs
      ensures primesNum == if |PrimesBelow(limit)| < maxPrimesNum then |PrimesBelow(limit)| else maxPrimesNum
    {
      hide Pow2, PrimesBelow, DividesBy, IsRow, IsPrime, IsTable;
      var table := new nat[maxPrimesNum];
      var num := Sieve(primeTableLimit, table);
      limit, maxLimbs, primesNum, primes := primeTableLimit, maxDividendSizeInLimbs, num, table;
      invM := new nat[maxPrimesNum];
      offsets := new nat[maxPrimesNum];
      modulos := new nat[maxDividendSizeInLimbs * maxPrimesNum];
      new;
      ghost var listed := primes[..];
      assert IsTable(primes[..], invM[..], offsets[..], modulos[..], maxLimbs, 0) by {
        EmptyTable(primes[..], invM[..], offsets[..], modulos[..], maxLimbs);
      }
      for i := 0 to primesNum
        invariant primes[..] == listed
        invariant IsTable(listed, invM[..], offsets[..], modulos[..], maxLimbs, i)
      {
        var prime := primes[i];
        PrimeOfTable(limit, prime, maxLimbs, listed[..primesNum], i);
        RowFits(maxLimbs, i, maxPrimesNum);
        ghost var rows, ms, os := modulos[..], invM[..], offsets[..];
        var m, shift := FindReciprocal(prime);
        invM[i], offsets[i] := m, shift;
        FillRow(modulos, maxLimbs, i, prime);
        TableNext(listed, ms, os, rows, maxLimbs, i, m, shift, modulos[..]);
        assert invM[..] == ms[i := m] && offsets[..] == os[i := shift];
      }
    }

    /** The remainder of a long number: fold the limbs, then subtract the prime as often as
        the multiplied and shifted sum says. */
    method Mod32(limbs: seq<nat>, primeIdx: nat) returns (remainder: nat)
      requires Valid() && primeIdx < primesNum && 1 <= |limbs| <= maxLimbs && AreLimbs(limbs)
      ensures primes[primeIdx] >= 2 && remainder == Value(limbs) % primes[primeIdx]
    {
      hide Pow2, Folded, Value, FoldedSum, DividesBy, ShiftedProduct, PrimesBelow, IsPrime, AreLimbs;
      var prime, width := primes[primeIdx], maxLimbs;
      assert IsEntry(prime, invM[primeIdx], offsets[primeIdx], modulos[..], width, primeIdx);
      var acc := limbs[0];
      NextSum(limbs, 0, prime);
      for i := 1 to |limbs|
        invariant acc == FoldedSum(limbs, i, prime)
      {
        NextSum(limbs, i, prime);
        assert modulos[..][width * primeIdx + (i - 1)] == Folded(i - 1, prime);
        acc := acc + modulos[width * primeIdx + (i - 1)] * limbs[i];
      }
      FoldedFits(limbs, width, prime);
      Subtracted(acc, prime, invM[primeIdx], offsets[primeIdx]);
      var quotient := ShiftedProduct(acc, invM[primeIdx], offsets[primeIdx]);
      remainder := acc - quotient * prime;
    }
  }

  lemma EmptyTable(primes: seq<nat>, invM: seq<nat>, offsets: seq<nat>, modulos: seq<nat>, width: nat)
    requires width >= 1 && |primes| == |invM| == |offsets|
    ensures IsTable(primes, invM, offsets, modulos, width, 0)
  {
  }

  lemma PrimeOfTable(limit: nat, prime: nat, width: nat, primes: seq<nat>, i: nat)
    requires i < |primes| <= |PrimesBelow(limit)| && primes == PrimesBelow(limit)[..|primes|] && prime == primes[i]
    requires width >= 1 && width * limit <= Pow2(31)
    ensures 2 <= prime < Pow2(32) && (prime == 2 || prime % 2 == 1) && width * prime <= Pow2(31)
  {
    hide Pow2, Divides;
    assert prime == PrimesBelow(limit)[i];
    if prime != 2 {
      PrimeIsOdd(prime);
    }
    Scale(prime, limit, width);
    Scale(1, width, prime);
    PowDoubles(31, 0);
  }

  lemma RowFits(width: nat, i: nat, n: nat)
    requires i < n
    ensures width * i + width <= width * n
  {
    Scale(i + 1, n, width);
  }
}
