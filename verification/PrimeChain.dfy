/**
 The trial division of a Cunningham or bi-twin chain: the least prime index in a range
 whose prime divides one of the chain's members. Instead of the members themselves the
 source follows their remainders, doubling from one member to the next.
 */
module PrimeChain {
  import opened Arithmetic
  import opened DivisionChecker
  import opened Primes
  import opened Words

  datatype ChainType = Cunningham1 | Cunningham2 | BiTwin

  /** `-1U`, no divisor found. */
  const NONE: nat := 0xFFFF_FFFF

  /** Member `k` of a chain of the first or second kind. */
  function First(origin: nat, k: nat): int {
    Pow2(k) * origin - 1
  }

  function Second(origin: nat, k: nat): int {
    Pow2(k) * origin + 1
  }

  predicate DividesFirst(prime: nat, origin: nat, k: nat)
    requires prime >= 2
  {
    First(origin, k) % prime == 0
  }

  predicate DividesSecond(prime: nat, origin: nat, k: nat)
    requires prime >= 2
  {
    Second(origin, k) % prime == 0
  }

  /** The prime divides one of the tested members. */
  predicate HitsFirst(prime: nat, origin: nat, count: nat)
    requires prime >= 2
  {
    exists k :: 0 <= k < count && DividesFirst(prime, origin, k)
  }

  predicate HitsSecond(prime: nat, origin: nat, count: nat)
    requires prime >= 2
  {
    exists k :: 0 <= k < count && DividesSecond(prime, origin, k)
  }

  /** A bi-twin chain alternates both kinds, starting with the first. */
  predicate Hits(prime: nat, origin: nat, chain: ChainType, target: nat)
    requires prime >= 2
  {
    match chain
    case Cunningham1 => HitsFirst(prime, origin, target)
    case Cunningham2 => HitsSecond(prime, origin, target)
    case BiTwin => HitsFirst(prime, origin, target / 2 + target % 2) || HitsSecond(prime, origin, target / 2)
  }

  /** Member `m` of a chain: a bi-twin chain alternates the numbers below and above. */
  function Member(chain: ChainType, origin: nat, m: nat): int {
    match chain
    case Cunningham1 => Pow2(m) * origin - 1
    case Cunningham2 => Pow2(m) * origin + 1
    case BiTwin => if m % 2 == 0 then Pow2(m / 2) * origin - 1 else Pow2(m / 2) * origin + 1
  }

  /** The chains of Cunningham: from each member the next is twice as large, plus or minus one. */
  lemma MembersDouble(origin: nat, k: nat)
    ensures First(origin, 0) == origin - 1 && Second(origin, 0) == origin + 1
    ensures First(origin, k + 1) == 2 * First(origin, k) + 1 && Second(origin, k + 1) == 2 * Second(origin, k) - 1
    ensures Second(origin, k) == First(origin, k) + 2
  {
    assert Pow2(k + 1) * origin == 2 * (Pow2(k) * origin);
  }

  /** The prime is hit exactly when it divides one of the first `target` members. */
  lemma HitsAreMembers(prime: nat, origin: nat, chain: ChainType, target: nat)
    requires prime >= 2
    ensures Hits(prime, origin, chain, target) <==>
            exists m: nat :: m < target && Member(chain, origin, m) % prime == 0
  {
    hide Pow2;
    if Hits(prime, origin, chain, target) {
      var m := MemberHit(prime, origin, chain, target);
    }
    if m: nat :| m < target && Member(chain, origin, m) % prime == 0 {
      if chain == Cunningham1 {
        assert DividesFirst(prime, origin, m);
      } else if chain == Cunningham2 {
        assert DividesSecond(prime, origin, m);
      } else if m % 2 == 0 {
        assert DividesFirst(prime, origin, m / 2);
      } else {
        assert DividesSecond(prime, origin, m / 2);
      }
    }
  }

  lemma BiTwinMember(origin: nat, k: nat)
    ensures Member(BiTwin, origin, 2 * k) == First(origin, k)
    ensures Member(BiTwin, origin, 2 * k + 1) == Second(origin, k)
  {
    hide Pow2;
    assert 2 * k / 2 == k && (2 * k + 1) / 2 == k;
  }

  lemma PlainMember(origin: nat)
    ensures forall m: nat :: Member(Cunningham1, origin, m) == First(origin, m)
    ensures forall m: nat :: Member(Cunningham2, origin, m) == Second(origin, m)
  {
  }

  lemma MemberHit(prime: nat, origin: nat, chain: ChainType, target: nat) returns (m: nat)
    requires prime >= 2 && Hits(prime, origin, chain, target)
    ensures m < target && Member(chain, origin, m) % prime == 0
  {
    hide Pow2, Member, First, Second;
    PlainMember(origin);
    var evens, odds := target / 2 + target % 2, target / 2;
    if chain == Cunningham1 {
      m :| m < target && DividesFirst(prime, origin, m);
    } else if chain == Cunningham2 {
      m :| m < target && DividesSecond(prime, origin, m);
    } else if HitsFirst(prime, origin, evens) {
      var k: nat :| k < evens && DividesFirst(prime, origin, k);
      m := 2 * k;
      BiTwinMember(origin, k);
    } else {
      var k: nat :| k < odds && DividesSecond(prime, origin, k);
      m := 2 * k + 1;
      BiTwinMember(origin, k);
    }
  }

  // ---------- remainders ----------

  lemma ShiftedRemainder(x: int, d: int, p: nat, r: int)
    requires p >= 2 && x % p == r % p
    ensures (x + d) % p == (r + d) % p
  {
    var q := x / p - r / p;
    assert x == p * (x / p) + x % p && r == p * (r / p) + r % p;
    assert p * q == p * (x / p) - p * (r / p);
    SameRemainder(x + d, r + d, p, q);
  }

  lemma DoubledRemainder(x: int, p: nat, r: int)
    requires p >= 2 && x % p == r
    ensures 2 * x % p == 2 * r % p
  {
    var q := x / p;
    assert 2 * x == 2 * r + p * (2 * q);
    SameRemainder(2 * x, 2 * r, p, 2 * q);
  }

  lemma Reduced(x: int, p: nat)
    requires p >= 2 && 0 <= x < 2 * p
    ensures x % p == if x >= p then x - p else x
  {
    if x >= p {
      DivMod(x, p, 1, x - p);
    } else {
      DivMod(x, p, 0, x);
    }
  }

  lemma NextFirst(origin: nat, k: nat, p: nat, r: int)
    requires p >= 2 && First(origin, k) % p == r && 0 <= r < p
    ensures First(origin, k + 1) % p == if 2 * r + 1 >= p then 2 * r + 1 - p else 2 * r + 1
  {
    var x := First(origin, k);
    assert First(origin, k + 1) == 2 * x + 1;
    DoubledRemainder(x, p, r);
    ShiftedRemainder(2 * x, 1, p, 2 * r);
    Reduced(2 * r + 1, p);
  }

  lemma NextSecond(origin: nat, k: nat, p: nat, r: int)
    requires p >= 2 && Second(origin, k) % p == r && 0 < r < p
    ensures Second(origin, k + 1) % p == if 2 * r - 1 >= p then 2 * r - 1 - p else 2 * r - 1
  {
    var x := Second(origin, k);
    assert Second(origin, k + 1) == 2 * x - 1;
    DoubledRemainder(x, p, r);
    ShiftedRemainder(2 * x, -1, p, 2 * r);
    Reduced(2 * r - 1, p);
  }

  lemma StartFirst(origin: nat, p: nat)
    requires p >= 2
    ensures First(origin, 0) % p == if origin % p == 0 then p - 1 else origin % p - 1
  {
    var r := origin % p;
    DivMod(r, p, 0, r);
    ShiftedRemainder(origin, -1, p, r);
    if r == 0 {
      DivMod(-1, p, -1, p - 1);
    } else {
      DivMod(r - 1, p, 0, r - 1);
    }
  }

  lemma StartSecond(origin: nat, p: nat)
    requires p >= 2
    ensures Second(origin, 0) % p == if origin % p + 1 >= p then origin % p + 1 - p else origin % p + 1
  {
    var r := origin % p;
    DivMod(r, p, 0, r);
    ShiftedRemainder(origin, 1, p, r);
    Reduced(r + 1, p);
  }

  // ---------- the loops ----------

  /** The loop over the members of the first kind. */
  method TestFirst(prime: nat, remOrigin: nat, ghost origin: nat, count: nat) returns (isDivisor: bool)
    requires prime >= 2 && remOrigin == origin % prime
    ensures isDivisor <==> HitsFirst(prime, origin, count)
  {
    hide First;
    var remainder: int := remOrigin - 1;
    if remainder < 0 {
      remainder := prime - 1;
    }
    StartFirst(origin, prime);
    isDivisor := false;
    for i := 0 to count
      invariant 0 <= remainder < prime && First(origin, i) % prime == remainder
      invariant forall k :: 0 <= k < i ==> !DividesFirst(prime, origin, k)
    {
      if remainder == 0 {
        assert DividesFirst(prime, origin, i);
        return true;
      }
      NextFirst(origin, i, prime, remainder);
      remainder := remainder * 2 + 1;
      if remainder >= prime {
        remainder := remainder - prime;
      }
    }
  }

  /** The loop over the members of the second kind. */
  method TestSecond(prime: nat, remOrigin: nat, ghost origin: nat, count: nat) returns (isDivisor: bool)
    requires prime >= 2 && remOrigin == origin % prime
    ensures isDivisor <==> HitsSecond(prime, origin, count)
  {
    hide Second;
    var remainder: int := remOrigin + 1;
    if remainder >= prime {
      remainder := remainder - prime;
    }
    StartSecond(origin, prime);
    isDivisor := false;
    for i := 0 to count
      invariant 0 <= remainder < prime && Second(origin, i) % prime == remainder
      invariant forall k :: 0 <= k < i ==> !DividesSecond(prime, origin, k)
    {
      if remainder == 0 {
        assert DividesSecond(prime, origin, i);
        return true;
      }
      NextSecond(origin, i, prime, remainder);
      remainder := remainder * 2 - 1;
      if remainder >= prime {
        remainder := remainder - prime;
      }
    }
  }

  /** `getSmallestDivisor`: the least index in the range whose prime divides a tested member,
      or `NONE`. A range end of `NONE` stands for the whole table. */
  method SmallestDivisor(checker: Checker, limbs: seq<nat>, chain: ChainType, target: nat,
                         rangeBegin: nat, rangeEnd: nat)
    returns (divisor: nat)
    requires checker.Valid() && 1 <= |limbs| <= checker.maxLimbs && AreLimbs(limbs)
    requires LastIndex(rangeEnd) <= checker.primesNum < NONE
    ensures divisor == NONE || rangeBegin <= divisor < LastIndex(rangeEnd)
    ensures divisor != NONE ==> HitsAt(checker, divisor, Value(limbs), chain, target)
    ensures forall i :: rangeBegin <= i < LastIndex(rangeEnd) && i < divisor ==>
      !HitsAt(checker, i, Value(limbs), chain, target)
  {
    hide HitsFirst, HitsSecond, Value, IsEntry, PrimesBelow, AreLimbs;
    divisor := NONE;
    ghost var origin := Value(limbs);
    var lastPrimeIndex := LastIndex(rangeEnd);
    var primeIdx := rangeBegin;
    while primeIdx < lastPrimeIndex
      invariant rangeBegin <= primeIdx
      invariant forall i :: rangeBegin <= i < primeIdx && i < lastPrimeIndex ==>
        !HitsAt(checker, i, origin, chain, target)
    {
      var remOrigin := checker.Mod32(limbs, primeIdx);
      var prime := checker.primes[primeIdx];
      var isDivisor;
      if chain == Cunningham1 {
        isDivisor := TestFirst(prime, remOrigin, origin, target);
      } else if chain == Cunningham2 {
        isDivisor := TestSecond(prime, remOrigin, origin, target);
      } else {
        isDivisor := TestFirst(prime, remOrigin, origin, target / 2 + target % 2);
        if !isDivisor {
          isDivisor := TestSecond(prime, remOrigin, origin, target / 2);
        }
      }
      if isDivisor {
        divisor := primeIdx;
        return;
      }
      primeIdx := primeIdx + 1;
    }
  }

  function LastIndex(rangeEnd: nat): nat {
    if rangeEnd == NONE then 131072 else rangeEnd
  }

  /** The prime at this index of the table divides a tested member. */
  predicate HitsAt(checker: Checker, i: nat, origin: nat, chain: ChainType, target: nat)
    reads checker.primes
  {
    i < checker.primes.Length && checker.primes[i] >= 2 && Hits(checker.primes[i], origin, chain, target)
  }

  /** Searching from the start of the table finds the smallest prime of all that divides a
      tested member. */
  lemma LeastOfAll(checker: Checker, divisor: nat, q: nat, origin: nat, chain: ChainType, target: nat)
    requires checker.Valid() && divisor < checker.primesNum
    requires forall i :: 0 <= i < divisor ==> !HitsAt(checker, i, origin, chain, target)
    requires IsPrime(q) && Hits(q, origin, chain, target)
    ensures checker.primes[divisor] <= q
  {
    hide Hits, IsPrime, IsTable, PrimesBelow;
    TableAt(checker, divisor);
    if q < checker.primes[divisor] {
      var i := StandsBefore(checker.limit, divisor, q);
      TableAt(checker, i);
      var hit := HitsAt(checker, i, origin, chain, target);
    }
  }

  lemma TableAt(checker: Checker, i: nat)
    requires checker.Valid() && i < checker.primesNum
    ensures i < checker.primes.Length && i < |PrimesBelow(checker.limit)|
    ensures checker.primes[i] == PrimesBelow(checker.limit)[i] >= 2
  {
    hide IsEntry, PrimesBelow;
    assert checker.primes[i] == checker.primes[..checker.primesNum][i];
  }
}
