/**
 The generator behind OdoCrypt's key schedule and the shuffle built on it. The
 generator keeps an affine map that it composes with the linear congruential step
 at every draw, so draw number n is output number 1 + 2 + ... + n of the plain
 generator.
 */
module OdoRandom {
  import opened OdoLayers

  const BASE_MULTIPLICAND: nat := 6364136223846793005
  const BASE_ADDEND: nat := 1442695040888963407
  const TWO32: nat := 0x1_0000_0000
  const TWO64: nat := 0x1_0000_0000_0000_0000

  function Reduce(x: nat): (r: nat)
    ensures r < TWO64
  {
    x % TWO64
  }

  /** One step of the plain generator, and `n` of them. */
  function Lcg(x: nat): nat {
    Reduce(x * BASE_MULTIPLICAND + BASE_ADDEND)
  }

  function LcgSteps(x: nat, n: nat): nat
    decreases n
  {
    if n == 0 then x else LcgSteps(Lcg(x), n - 1)
  }

  function Triangle(n: nat): nat {
    if n == 0 then 0 else Triangle(n - 1) + n
  }

  /** The generator's draw number `n`, counted from 0. */
  function Draw(seed: nat, n: nat): nat {
    LcgSteps(seed, Triangle(n + 1)) / TWO32
  }

  lemma {:induction false} LcgStepsAdd(x: nat, m: nat, n: nat)
    ensures LcgSteps(x, m + n) == LcgSteps(LcgSteps(x, m), n)
    decreases m
  {
    if m > 0 {
      LcgStepsAdd(Lcg(x), m - 1, n);
    }
  }

  lemma {:induction false} LcgStepsBound(x: nat, n: nat)
    requires x < TWO64
    ensures LcgSteps(x, n) < TWO64
    decreases n
  {
    if n > 0 {
      LcgStepsBound(Lcg(x), n - 1);
    }
  }

  lemma DrawBound(seed: nat, n: nat)
    requires seed < TWO64
    ensures Draw(seed, n) < TWO32
  {
    LcgStepsBound(seed, Triangle(n + 1));
    hide LcgSteps, Triangle;
  }

  // ---------- composing affine maps modulo 2^64 ----------

  function Affine(x: nat, m: nat, a: nat): nat {
    Reduce(x * m + a)
  }

  /** The map x -> m * x + a takes `k` steps of the plain generator at once. */
  ghost predicate Leaps(m: nat, a: nat, k: nat) {
    forall x: nat | x < TWO64 :: Affine(x, m, a) == LcgSteps(x, k)
  }

  lemma ReduceUnique(x: nat, y: nat, q: int)
    requires x == y + TWO64 * q && y < TWO64
    ensures Reduce(x) == y
  {
  }

  lemma ReduceCong(x: nat, y: nat, q: int)
    requires x == y + TWO64 * q
    ensures Reduce(x) == Reduce(y)
  {
    ReduceUnique(x, Reduce(y), q + y / TWO64);
  }

  /** Substituting a reduced step into an affine map. */
  lemma AffineStep(x: nat, m: nat, a: nat)
    ensures Affine(Lcg(x), m, a) == Affine(x, Reduce(m * BASE_MULTIPLICAND), Reduce(a + m * BASE_ADDEND))
  {
    hide Reduce;
    Distribute(x, m, a);
    ReducedFactor(x * BASE_MULTIPLICAND + BASE_ADDEND, m, a);
    ReducedCoefficients(x, m * BASE_MULTIPLICAND, a + m * BASE_ADDEND);
  }

  lemma Parts(x: nat)
    ensures x == Reduce(x) + TWO64 * (x / TWO64)
  {
  }

  lemma ReducedFactor(y: nat, m: nat, a: nat)
    ensures Reduce(Reduce(y) * m + a) == Reduce(y * m + a)
  {
    hide Reduce;
    Parts(y);
    Substitute(y, Reduce(y), y / TWO64, m, a);
    ReduceCong(y * m + a, Reduce(y) * m + a, y / TWO64 * m);
  }

  lemma ReducedCoefficients(x: nat, m: nat, a: nat)
    ensures Reduce(x * m + a) == Reduce(x * Reduce(m) + Reduce(a))
  {
    hide Reduce;
    Parts(m);
    Parts(a);
    Substitute2(x, m, Reduce(m), m / TWO64);
    ReduceCong(x * m + a, x * Reduce(m) + Reduce(a), x * (m / TWO64) + a / TWO64);
  }

  lemma Distribute(x: nat, m: nat, a: nat)
    ensures x * (m * BASE_MULTIPLICAND) + (a + m * BASE_ADDEND) == (x * BASE_MULTIPLICAND + BASE_ADDEND) * m + a
  {
    calc {
      (x * BASE_MULTIPLICAND + BASE_ADDEND) * m;
      (x * BASE_MULTIPLICAND) * m + BASE_ADDEND * m;
      x * (m * BASE_MULTIPLICAND) + m * BASE_ADDEND;
    }
  }

  lemma Substitute(y: nat, z: nat, q: nat, m: nat, a: nat)
    requires y == z + TWO64 * q
    ensures y * m + a == z * m + a + TWO64 * (q * m)
  {
    calc {
      y * m;
      (z + TWO64 * q) * m;
      z * m + (TWO64 * q) * m;
      z * m + TWO64 * (q * m);
    }
  }

  lemma Substitute2(x: nat, m: nat, r: nat, q: nat)
    requires m == r + TWO64 * q
    ensures x * m == x * r + TWO64 * (x * q)
  {
    calc {
      x * m;
      x * (r + TWO64 * q);
      x * r + x * (TWO64 * q);
      x * r + TWO64 * (x * q);
    }
  }

  lemma LeapsStep(m: nat, a: nat, k: nat)
    requires Leaps(m, a, k)
    ensures Leaps(Reduce(m * BASE_MULTIPLICAND), Reduce(a + m * BASE_ADDEND), k + 1)
  {
    var m', a' := Reduce(m * BASE_MULTIPLICAND), Reduce(a + m * BASE_ADDEND);
    forall x: nat | x < TWO64
      ensures Affine(x, m', a') == LcgSteps(x, k + 1)
    {
      hide Affine;
      AffineStep(x, m, a);
      assert Affine(Lcg(x), m, a) == LcgSteps(Lcg(x), k);
    }
  }

  // ---------- the generator ----------

  class Generator {
    var current: nat
    var multiplicand: nat
    var addend: nat
    ghost const seed: nat
    ghost var drawn: nat

    ghost predicate Valid()
      reads this
    {
      && seed < TWO64
      && Leaps(multiplicand, addend, drawn)
      && current == LcgSteps(seed, Triangle(drawn))
    }

    constructor (seed: nat)
      requires seed < TWO32
      ensures Valid() && drawn == 0 && this.seed == seed
    {
      current, multiplicand, addend := seed, 1, 0;
      this.seed, drawn := seed, 0;
    }

    method NextInt() returns (r: nat)
      requires Valid()
      modifies this
      ensures Valid() && drawn == old(drawn) + 1
      ensures r == Draw(seed, old(drawn)) && r < TWO32
    {
      hide LcgSteps;
      LeapsStep(multiplicand, addend, drawn);
      LcgStepsBound(seed, Triangle(drawn));
      addend := Reduce(addend + multiplicand * BASE_ADDEND);
      multiplicand := Reduce(multiplicand * BASE_MULTIPLICAND);
      assert Affine(current, multiplicand, addend) == LcgSteps(current, drawn + 1);
      LcgStepsAdd(seed, Triangle(drawn), drawn + 1);
      current := Reduce(current * multiplicand + addend);
      drawn := drawn + 1;
      r := current / TWO32;
      DrawBound(seed, drawn - 1);
    }

    method NextLong() returns (r: nat)
      requires Valid()
      modifies this
      ensures Valid() && drawn == old(drawn) + 2
      ensures r == DrawLong(seed, old(drawn))
    {
      var hi := NextInt();
      var lo := NextInt();
      r := hi * TWO32 + lo;
    }

    method Next(n: nat) returns (r: nat)
      requires Valid() && 0 < n < TWO32
      modifies this
      ensures Valid() && drawn == old(drawn) + 1
      ensures r == DrawBelow(seed, old(drawn), n) && r < n
    {
      var i := NextInt();
      r := i * n / TWO32;
      DrawBelowBound(seed, drawn - 1, n);
    }

    method Permutation(size: nat) returns (arr: array<nat>)
      requires Valid() && 0 < size < TWO32
      modifies this
      ensures Valid() && drawn == old(drawn) + size - 1
      ensures fresh(arr) && arr[..] == Shuffle(seed, old(drawn), size, size)
      ensures IsPermutation(arr[..])
    {
      hide Leaps, LcgSteps, Triangle, DrawBelow;
      arr := new nat[size];
      for i := 0 to size
        invariant fresh(arr) && unchanged(this)
        invariant forall k :: 0 <= k < i ==> arr[k] == k
      {
        arr[i] := i;
      }
      assert arr[..] == Shuffle(seed, drawn, size, 1);
      for i := 1 to size
        invariant fresh(arr)
        invariant Valid() && drawn == old(drawn) + i - 1
        invariant arr[..] == Shuffle(seed, old(drawn), size, i)
      {
        var j := Next(i + 1);
        arr[i], arr[j] := arr[j], arr[i];
      }
      ShuffleIsPermutation(seed, old(drawn), size, size);
    }
  }

  function DrawLong(seed: nat, n: nat): nat {
    Draw(seed, n) * TWO32 + Draw(seed, n + 1)
  }

  function DrawBelow(seed: nat, n: nat, bound: nat): nat {
    Draw(seed, n) * bound / TWO32
  }

  lemma DrawBelowBound(seed: nat, n: nat, bound: nat)
    requires seed < TWO64 && bound > 0
    ensures DrawBelow(seed, n, bound) < bound
  {
    DrawBound(seed, n);
    hide Draw;
    var d := Draw(seed, n);
    Scaled(d, TWO32, bound);
    Quotient(d * bound, bound);
  }

  lemma Scaled(x: nat, y: nat, k: nat)
    requires x < y && k > 0
    ensures x * k < y * k
  {
  }

  lemma Quotient(x: nat, bound: nat)
    requires x < TWO32 * bound
    ensures x / TWO32 < bound
  {
  }

  // ---------- the shuffle ----------

  function Swap(s: seq<nat>, i: nat, j: nat): (t: seq<nat>)
    requires i < |s| && j < |s|
    ensures |t| == |s|
  {
    s[i := s[j]][j := s[i]]
  }

  /** The identity on `size` indices after the first `n` rounds of the shuffle. */
  function Shuffle(seed: nat, from: nat, size: nat, n: nat): (s: seq<nat>)
    requires seed < TWO64 && 0 < n <= size
    ensures |s| == size
    decreases seed, n
  {
    if n == 1 then seq(size, i => i)
    else
      DrawBelowBound(seed, from + n - 2, n);
      Swap(Shuffle(seed, from, size, n - 1), n - 1, DrawBelow(seed, from + n - 2, n))
  }

  lemma SwapIsPermutation(s: seq<nat>, i: nat, j: nat)
    requires IsPermutation(s) && i < |s| && j < |s|
    ensures IsPermutation(Swap(s, i, j))
  {
  }

  /** Every seed shuffles to a true permutation. */
  lemma {:induction false} ShuffleIsPermutation(seed: nat, from: nat, size: nat, n: nat)
    requires seed < TWO64 && 0 < n <= size
    ensures IsPermutation(Shuffle(seed, from, size, n))
    decreases n
  {
    if n > 1 {
      DrawBelowBound(seed, from + n - 2, n);
      ShuffleIsPermutation(seed, from, size, n - 1);
      SwapIsPermutation(Shuffle(seed, from, size, n - 1), n - 1, DrawBelow(seed, from + n - 2, n));
    }
  }
}
