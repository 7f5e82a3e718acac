/**
 Ethash: the largest prime not above a bound, by trial division with odd numbers, and the
 cached search for the epoch a seed belongs to.
 */
module Ethash {
  import opened Arithmetic
  import opened PrimeCertificate
  import opened Primes

  lemma EvenFactor(a: int, b: int)
    ensures a % 2 == 0 ==> a * b % 2 == 0
  {
    if a % 2 == 0 {
      assert a * b == 2 * (a / 2 * b);
    }
  }

  /** A divisor of an odd number is odd, and so is the quotient. */
  lemma OddFactors(n: int, d: int)
    requires n % 2 == 1 && d > 0 && Divides(d, n)
    ensures d % 2 == 1 && n / d % 2 == 1 && n == d * (n / d)
  {
    var q := n / d;
    assert n == d * q == q * d;
    EvenFactor(d, q);
    EvenFactor(q, d);
  }

  /** An odd number without an odd divisor up to its root is prime. */
  lemma NoSmallDivisor(n: int, limit: int)
    requires n >= 3 && n % 2 == 1 && limit * limit > n && limit >= 3
    requires forall d :: 3 <= d < limit && d % 2 == 1 ==> !Divides(d, n)
    ensures IsPrime(n)
  {
    if !IsPrime(n) {
      var d := SmallDivisor(n);
      OddFactors(n, d);
      SquareGrows(limit, d);
    }
  }

  /** `isOddPrime` on odd numbers from 3 on. */
  method IsOddPrime(number: int) returns (prime: bool)
    requires number >= 3 && number % 2 == 1
    ensures prime <==> IsPrime(number)
  {
    hide IsPrime, Divides;
    var d := 3;
    while d * d <= number
      invariant d >= 3 && d % 2 == 1
      invariant forall e :: 3 <= e < d && e % 2 == 1 ==> !Divides(e, number)
      decreases number - d
    {
      Growing(d);
      if number % d == 0 {
        HasDivisor(number, d);
        return false;
      }
      NotDivides(number, d);
      d := d + 2;
    }
    NoSmallDivisor(number, d);
    prime := true;
  }

  lemma Growing(d: int)
    requires d >= 3
    ensures d * d >= 3 * d
  {
  }

  lemma HasDivisor(n: int, d: int)
    requires 3 <= d && d * d <= n && n % d == 0
    ensures !IsPrime(n)
  {
    Growing(d);
    assert Divides(d, n);
  }

  lemma NotDivides(n: int, d: int)
    requires d > 0 && n % d != 0
    ensures !Divides(d, n)
  {
  }

  lemma EvenIsNotPrime(n: int)
    requires n > 2 && n % 2 == 0
    ensures !IsPrime(n)
  {
    assert Divides(2, n);
  }

  lemma SmallPrimes()
    ensures IsPrime(2) && IsPrime(3)
  {
    assert !Divides(2, 3);
  }

  predicate IsLargestPrime(n: int, upperBound: int) {
    IsPrime(n) && n <= upperBound && forall p :: n < p <= upperBound ==> !IsPrime(p)
  }

  /** `findLargestPrime`: the largest prime not above the bound, or 0 when there is none. */
  method FindLargestPrime(upperBound: int) returns (n: int)
    ensures upperBound < 2 ==> n == 0
    ensures upperBound >= 2 ==> IsLargestPrime(n, upperBound)
  {
    hide IsPrime;
    n := upperBound;
    SmallPrimes();
    if n < 2 {
      return 0;
    }
    if n == 2 {
      return 2;
    }
    if n % 2 == 0 {
      EvenIsNotPrime(n);
      n := n - 1;
    }
    var prime := IsOddPrime(n);
    while !prime
      invariant n >= 3 && n % 2 == 1 && n <= upperBound
      invariant prime <==> IsPrime(n)
      invariant forall p :: n < p <= upperBound ==> !IsPrime(p)
      decreases n, !prime
    {
      EvenIsNotPrime(n - 1);
      n := n - 2;
      prime := IsOddPrime(n);
    }
  }

  // ---------- the sizes of an epoch ----------

  predicate FitsInt(x: int) {
    -0x8000_0000 <= x <= 0x7FFF_FFFF
  }

  /** The bounds on the number of items: 64-byte items of the light cache, 128-byte items of
      the full dataset. */
  function LightBound(epoch: nat): nat {
    0x100_0000 / 64 + epoch * (0x2_0000 / 64)
  }

  function FullBound(epoch: nat): nat {
    0x4000_0000 / 128 + epoch * (0x80_0000 / 128)
  }

  /** The growth that Ethash fixes: 16 MiB and 128 KiB an epoch for the cache of 64-byte items,
      1 GiB and 8 MiB an epoch for the dataset of 128-byte items. */
  lemma BoundsGrow(epoch: nat)
    ensures 64 * LightBound(0) == 16 * 1024 * 1024 && 128 * FullBound(0) == 1024 * 1024 * 1024
    ensures 64 * (LightBound(epoch + 1) - LightBound(epoch)) == 128 * 1024
    ensures 128 * (FullBound(epoch + 1) - FullBound(epoch)) == 8 * 1024 * 1024
  {
  }

  /** `Undefined` stands for a signed 32-bit computation that leaves its range. */
  datatype DagSizes = Undefined | Sized(lightItems: nat, fullItems: nat, lightBytes: nat)

  lemma LargestIsPositive(n: int, upperBound: int)
    requires IsLargestPrime(n, upperBound)
    ensures 2 <= n <= upperBound
  {
  }

  /** A prime just above 2^25, and below the bound of the light cache from epoch 16257 on. */
  const LARGE_PRIME: nat := 33554509

  /** Certified by an element of order 7417 and the inverse of its predecessor. */
  lemma LargePrimeIsPrime()
    ensures IsPrime(LARGE_PRIME)
  {
    hide Power, IsPrime;
    OrderIsPrime();
    PowerStep(9332614, 0, 33554509);
    SquareStep(9332614, 1, 33554509, 9332614, 10180133);
    NextStep(9332614, 2, 33554509, 10180133, 8339792);
    SquareStep(9332614, 3, 33554509, 8339792, 8802974);
    NextStep(9332614, 6, 33554509, 8802974, 32776472);
    SquareStep(9332614, 7, 33554509, 32776472, 18231009);
    SquareStep(9332614, 14, 33554509, 18231009, 30117296);
    SquareStep(9332614, 28, 33554509, 30117296, 24806505);
    NextStep(9332614, 56, 33554509, 24806505, 33236025);
    SquareStep(9332614, 57, 33554509, 33236025, 30332058);
    NextStep(9332614, 114, 33554509, 30332058, 8464516);
    SquareStep(9332614, 115, 33554509, 8464516, 27572808);
    NextStep(9332614, 230, 33554509, 27572808, 32117467);
    SquareStep(9332614, 231, 33554509, 32117467, 11007868);
    NextStep(9332614, 462, 33554509, 11007868, 20527102);
    SquareStep(9332614, 463, 33554509, 20527102, 28897598);
    NextStep(9332614, 926, 33554509, 28897598, 22996315);
    SquareStep(9332614, 927, 33554509, 22996315, 33206165);
    SquareStep(9332614, 1854, 33554509, 33206165, 10437792);
    SquareStep(9332614, 3708, 33554509, 10437792, 4098835);
    NextStep(9332614, 7416, 33554509, 4098835, 1);
    CertifiedPrime(33554509, 7417, 9332614, 21201749);
  }

  lemma OrderIsPrime()
    ensures IsPrime(7417)
  {
    hide IsPrime;
    forall d | 3 <= d < 87 && d % 2 == 1
      ensures !Divides(d, 7417)
    {
      if d < 45 {
        NoneBelow45(d);
      } else {
        NoneBelow87(d);
      }
    }
    NoSmallDivisor(7417, 87);
  }

  lemma NoneBelow45(d: int)
    requires 3 <= d < 45 && d % 2 == 1
    ensures 7417 % d != 0
  {
  }

  lemma NoneBelow87(d: int)
    requires 45 <= d < 87 && d % 2 == 1
    ensures 7417 % d != 0
  {
  }

  /** The bound of the light cache fits for every epoch, that of the full dataset exactly up to
      epoch 32639. */
  lemma BoundsAre(epoch: nat)
    requires epoch < 65536
    ensures LightBound(epoch) >= 2 && FullBound(epoch) >= 2 && FitsInt(LightBound(epoch))
    ensures FitsInt(FullBound(epoch)) <==> epoch <= 32639
  {
  }

  /** The light cache in bytes leaves the range exactly above epoch 16256: from there on its
      number of items is a prime above 2^25. */
  lemma LightBytesFit(epoch: nat, items: int)
    requires IsLargestPrime(items, LightBound(epoch))
    ensures FitsInt(items * 64) <==> epoch <= 16256
  {
    hide IsPrime;
    LargestIsPositive(items, LightBound(epoch));
    if epoch <= 16256 {
      EvenIsNotPrime(0x200_0000);
    } else {
      LargePrimeIsPrime();
    }
  }

  /** The sizes at the start of `ethashCreateDag`, for every epoch that a seed can have. */
  method CreateDagSizes(epoch: nat) returns (r: DagSizes)
    requires epoch < 65536
    ensures r.Undefined? <==> epoch > 16256
    ensures r.Sized? ==>
      IsLargestPrime(r.lightItems, LightBound(epoch)) && IsLargestPrime(r.fullItems, FullBound(epoch))
    ensures r.Sized? ==> r.lightBytes == 64 * r.lightItems && FitsInt(r.lightBytes)
  {
    hide IsPrime, IsLargestPrime, FitsInt, LightBound, FullBound;
    BoundsAre(epoch);
    var light := FindLargestPrime(LightBound(epoch));
    LightBytesFit(epoch, light);
    if !FitsInt(FullBound(epoch)) {
      return Undefined;
    }
    var full := FindLargestPrime(FullBound(epoch));
    if !FitsInt(light * 64) {
      return Undefined;
    }
    LargestIsPositive(light, LightBound(epoch));
    LargestIsPositive(full, FullBound(epoch));
    r := Sized(light, full, light * 64);
  }

  // ---------- epochs ----------

  type Seed = seq<bv8>

  function ZeroSeed(): Seed {
    seq(32, _ => 0)
  }

  /** The seed of an epoch: the hash applied that many times to zero. */
  function SeedOf(hash: Seed -> Seed, epoch: nat): Seed {
    if epoch == 0 then ZeroSeed() else hash(SeedOf(hash, epoch - 1))
  }

  predicate IsFirstEpoch(hash: Seed -> Seed, seed: Seed, epoch: nat) {
    epoch < 65536 && SeedOf(hash, epoch) == seed && forall i :: 0 <= i < epoch ==> SeedOf(hash, i) != seed
  }

  /** The source's answer without a cache: the least epoch below 65536, or -1. */
  predicate IsEpochNumber(hash: Seed -> Seed, seed: Seed, r: int) {
    if r < 0 then r == -1 && forall i :: 0 <= i < 65536 ==> SeedOf(hash, i) != seed
    else IsFirstEpoch(hash, seed, r)
  }

  /** At most one answer is right, so a cached answer is the recomputed one. */
  lemma OneAnswer(hash: Seed -> Seed, seed: Seed, a: int, b: int)
    requires IsEpochNumber(hash, seed, a) && IsEpochNumber(hash, seed, b)
    ensures a == b
  {
  }

  class EpochCache {
    const hash: Seed -> Seed
    var cachedSeed: Seed
    var cachedEpochNumber: nat

    predicate Valid()
      reads this
    {
      IsFirstEpoch(hash, cachedSeed, cachedEpochNumber)
    }

    constructor (hash: Seed -> Seed)
      ensures Valid() && this.hash == hash && cachedSeed == ZeroSeed() && cachedEpochNumber == 0
    {
      this.hash := hash;
      cachedSeed := ZeroSeed();
      cachedEpochNumber := 0;
    }

    /** `ethashGetEpochNumber` */
    method GetEpochNumber(seed: Seed) returns (r: int)
      requires Valid()
      modifies this`cachedSeed, this`cachedEpochNumber
      ensures Valid() && IsEpochNumber(hash, seed, r)
      ensures r >= 0 ==> cachedSeed == seed && cachedEpochNumber == r
      ensures r < 0 ==> cachedSeed == old(cachedSeed) && cachedEpochNumber == old(cachedEpochNumber)
    {
      if seed == cachedSeed {
        return cachedEpochNumber;
      }
      var localSeed := ZeroSeed();
      for i := 0 to 65536
        invariant localSeed == SeedOf(hash, i) && forall j :: 0 <= j < i ==> SeedOf(hash, j) != seed
      {
        if seed == localSeed {
          cachedSeed := localSeed;
          cachedEpochNumber := i;
          return i;
        }
        localSeed := hash(localSeed);
      }
      return -1;
    }
  }

  /** Over any sequence of calls every answer is the one that would be computed afresh. */
  method AnswerAll(hash: Seed -> Seed, seeds: seq<Seed>) returns (answers: seq<int>)
    ensures |answers| == |seeds| && forall k :: 0 <= k < |seeds| ==> IsEpochNumber(hash, seeds[k], answers[k])
  {
    hide IsEpochNumber, IsFirstEpoch;
    var cache := new EpochCache(hash);
    answers := [];
    for k := 0 to |seeds|
      invariant cache.Valid() && fresh(cache) && cache.hash == hash
      invariant |answers| == k && forall j :: 0 <= j < k ==> IsEpochNumber(hash, seeds[j], answers[j])
    {
      var r := cache.GetEpochNumber(seeds[k]);
      answers := answers + [r];
    }
  }
}
