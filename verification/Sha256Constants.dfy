/**
 The constants of SHA-256 derived: FIPS 180-4 sections 4.2.2 and 5.3.3 define them as the
 first 32 bits of the fractional parts of roots of the first primes.
 */
module Sha256Constants {
  import opened Primes
  import opened Sha256Spec

  /** The root of `p` has integer part `m` and a fractional part starting with the 32 bits `k`. */
  predicate IsCubeRoot(p: nat, m: nat, k: nat) {
    var r := m * 0x1_0000_0000 + k;
    k < 0x1_0000_0000 && r * r * r <= p * 0x1_0000_0000_0000_0000_0000_0000 < (r + 1) * (r + 1) * (r + 1)
  }

  predicate IsSquareRoot(p: nat, m: nat, k: nat) {
    var r := m * 0x1_0000_0000 + k;
    k < 0x1_0000_0000 && r * r <= p * 0x1_0000_0000_0000_0000 < (r + 1) * (r + 1)
  }

  // ---------- the first 64 primes ----------

  predicate NoSmallFactor(n: nat) {
    && n >= 2 && (n == 2 || n % 2 != 0) && (n == 3 || n % 3 != 0) && (n == 5 || n % 5 != 0) && (n == 7 || n % 7 != 0)
    && (n == 11 || n % 11 != 0) && (n == 13 || n % 13 != 0) && (n == 17 || n % 17 != 0)
  }

  /** Below 18 * 18 a number is prime when no prime up to 17 divides it. */
  lemma PrimeTest(n: nat)
    requires n < 324
    ensures IsPrime(n) <==> NoSmallFactor(n)
  {
    if n >= 2 && IsPrime(n) {
      assert forall d :: 2 <= d < n ==> !Divides(d, n);
      assert n > 2 ==> !Divides(2, n);
      assert n > 3 ==> !Divides(3, n);
      assert n > 5 ==> !Divides(5, n);
      assert n > 7 ==> !Divides(7, n);
      assert n > 11 ==> !Divides(11, n);
      assert n > 13 ==> !Divides(13, n);
      assert n > 17 ==> !Divides(17, n);
    } else if n >= 2 {
      var d := SmallDivisor(n);
      if d >= 18 {
        SquareGrows(18, d);
      }
      SmallFactor(d, n);
    }
  }

  lemma SmallFactor(d: nat, n: nat)
    requires 2 <= d < 18 && d < n && Divides(d, n)
    ensures !NoSmallFactor(n)
  {
    hide Divides;
    var q := if d % 2 == 0 then 2 else if d % 3 == 0 then 3 else d;
    assert Divides(q, d) by {
      FactorOf(q, d);
    }
    DividesTransitive(q, d, n);
    FactorFound(q, n);
  }

  lemma FactorOf(q: nat, d: nat)
    requires d >= 1 && (q == d || q == 2 || q == 3) && (q == 2 ==> d % 2 == 0) && (q == 3 ==> d % 3 == 0)
    ensures Divides(q, d)
  {
  }

  lemma FactorFound(q: nat, n: nat)
    requires (q == 2 || q == 3 || q == 5 || q == 7 || q == 11 || q == 13 || q == 17) && q < n && Divides(q, n)
    ensures !NoSmallFactor(n)
  {
  }

  /** Every number between `a` and `b` has a small factor. */
  predicate NoneBetween(a: nat, b: nat)
    decreases b
  {
    b <= a + 1 || (!NoSmallFactor(b - 1) && NoneBetween(a, b - 1))
  }

  lemma {:induction false} SamePrimes(a: nat, b: nat)
    requires a < b <= 324 && NoneBetween(a, b)
    ensures PrimesBelow(b) == PrimesBelow(a + 1)
    decreases b
  {
    hide IsPrime, NoSmallFactor;
    if a + 1 < b {
      PrimeTest(b - 1);
      SamePrimes(a, b - 1);
    }
  }

  /** The prime after `a` is `b`. */
  lemma NextPrime(a: nat, b: nat)
    requires a < b < 324 && NoSmallFactor(b) && NoneBetween(a, b)
    ensures PrimesBelow(b + 1) == PrimesBelow(a + 1) + [b]
  {
    hide IsPrime, NoSmallFactor, NoneBetween;
    PrimeTest(b);
    SamePrimes(a, b);
  }

  predicate Follows(a: nat, b: nat) {
    a < b < 324 && NoSmallFactor(b) && NoneBetween(a, b)
  }

  lemma NextEight(z: nat, a: nat, b: nat, c: nat, d: nat, e: nat, f: nat, g: nat, h: nat)
    requires Follows(z, a) && Follows(a, b) && Follows(b, c) && Follows(c, d)
    requires Follows(d, e) && Follows(e, f) && Follows(f, g) && Follows(g, h)
    ensures PrimesBelow(h + 1) == PrimesBelow(z + 1) + [a, b, c, d, e, f, g, h]
  {
    hide PrimesBelow, NoSmallFactor, NoneBetween;
    NextPrime(z, a);
    NextPrime(a, b);
    NextPrime(b, c);
    NextPrime(c, d);
    NextPrime(d, e);
    NextPrime(e, f);
    NextPrime(f, g);
    NextPrime(g, h);
  }

  /** Row `row` of the first primes. */
  function PrimeRow(row: nat): (r: seq<nat>)
    ensures |r| == 8
  {
    if row == 0 then [2, 3, 5, 7, 11, 13, 17, 19]
    else if row == 1 then [23, 29, 31, 37, 41, 43, 47, 53]
    else if row == 2 then [59, 61, 67, 71, 73, 79, 83, 89]
    else if row == 3 then [97, 101, 103, 107, 109, 113, 127, 131]
    else if row == 4 then [137, 139, 149, 151, 157, 163, 167, 173]
    else if row == 5 then [179, 181, 191, 193, 197, 199, 211, 223]
    else if row == 6 then [227, 229, 233, 239, 241, 251, 257, 263]
    else [269, 271, 277, 281, 283, 293, 307, 311]
  }

  lemma NoPrimes()
    ensures PrimesBelow(1) == []
  {
    hide IsPrime;
    assert !IsPrime(0) by {
      PrimeTest(0);
    }
    assert PrimesBelow(0) == [];
  }

  lemma PrimeRow0()
    ensures PrimesBelow(20) == PrimeRow(0)
  {
    hide PrimesBelow;
    NextEight(0, 2, 3, 5, 7, 11, 13, 17, 19);
    NoPrimes();
  }

  lemma PrimeRow1()
    ensures PrimesBelow(54) == PrimesBelow(20) + PrimeRow(1)
  {
    hide PrimesBelow;
    NextEight(19, 23, 29, 31, 37, 41, 43, 47, 53);
  }

  lemma PrimeRow2()
    ensures PrimesBelow(90) == PrimesBelow(54) + PrimeRow(2)
  {
    hide PrimesBelow;
    NextEight(53, 59, 61, 67, 71, 73, 79, 83, 89);
  }

  lemma PrimeRow3()
    ensures PrimesBelow(132) == PrimesBelow(90) + PrimeRow(3)
  {
    hide PrimesBelow;
    NextEight(89, 97, 101, 103, 107, 109, 113, 127, 131);
  }

  lemma PrimeRow4()
    ensures PrimesBelow(174) == PrimesBelow(132) + PrimeRow(4)
  {
    hide PrimesBelow;
    NextEight(131, 137, 139, 149, 151, 157, 163, 167, 173);
  }

  lemma PrimeRow5()
    ensures PrimesBelow(224) == PrimesBelow(174) + PrimeRow(5)
  {
    hide PrimesBelow;
    NextEight(173, 179, 181, 191, 193, 197, 199, 211, 223);
  }

  lemma PrimeRow6()
    ensures PrimesBelow(264) == PrimesBelow(224) + PrimeRow(6)
  {
    hide PrimesBelow;
    NextEight(223, 227, 229, 233, 239, 241, 251, 257, 263);
  }

  lemma PrimeRow7()
    ensures PrimesBelow(312) == PrimesBelow(264) + PrimeRow(7)
  {
    hide PrimesBelow;
    NextEight(263, 269, 271, 277, 281, 283, 293, 307, 311);
  }

  lemma FirstPrimes()
    ensures PrimesBelow(312) == PrimeRow(0) + PrimeRow(1) + PrimeRow(2) + PrimeRow(3) + PrimeRow(4) + PrimeRow(5)
      + PrimeRow(6) + PrimeRow(7)
  {
    hide PrimesBelow, PrimeRow;
    PrimeRow0();
    PrimeRow1();
    PrimeRow2();
    PrimeRow3();
    PrimeRow4();
    PrimeRow5();
    PrimeRow6();
    PrimeRow7();
  }

  lemma PrimeAt(t: nat)
    requires t < 64
    ensures |PrimesBelow(312)| == 64 && PrimesBelow(312)[t] == PrimeRow(t / 8)[t % 8]
  {
    hide PrimesBelow, PrimeRow;
    FirstPrimes();
    Row(t / 8, t % 8, PrimeRow(0), PrimeRow(1), PrimeRow(2), PrimeRow(3), PrimeRow(4), PrimeRow(5), PrimeRow(6),
        PrimeRow(7));
  }

  lemma Row(row: nat, i: nat, a: seq<nat>, b: seq<nat>, c: seq<nat>, d: seq<nat>, e: seq<nat>, f: seq<nat>,
            g: seq<nat>, h: seq<nat>)
    requires |a| == |b| == |c| == |d| == |e| == |f| == |g| == |h| == 8 && row < 8 && i < 8
    ensures (a + b + c + d + e + f + g + h)[8 * row + i] == [a, b, c, d, e, f, g, h][row][i]
  {
  }

  // ---------- the round constants ----------

  ghost predicate IsCubeRootOf(p: nat, k: nat) {
    exists m: nat :: IsCubeRoot(p, m, k)
  }

  lemma CubeRow0()
    ensures forall i :: 0 <= i < 8 ==> IsCubeRootOf(PrimeRow(0)[i], ConstantRow(0)[i] as nat)
  {
    var k := ConstantRow(0);
    assert IsCubeRoot(2, 1, k[0] as nat);
    assert IsCubeRoot(3, 1, k[1] as nat);
    assert IsCubeRoot(5, 1, k[2] as nat);
    assert IsCubeRoot(7, 1, k[3] as nat);
    assert IsCubeRoot(11, 2, k[4] as nat);
    assert IsCubeRoot(13, 2, k[5] as nat);
    assert IsCubeRoot(17, 2, k[6] as nat);
    assert IsCubeRoot(19, 2, k[7] as nat);
  }

  lemma CubeRow1()
    ensures forall i :: 0 <= i < 8 ==> IsCubeRootOf(PrimeRow(1)[i], ConstantRow(1)[i] as nat)
  {
    var k := ConstantRow(1);
    assert IsCubeRoot(23, 2, k[0] as nat);
    assert IsCubeRoot(29, 3, k[1] as nat);
    assert IsCubeRoot(31, 3, k[2] as nat);
    assert IsCubeRoot(37, 3, k[3] as nat);
    assert IsCubeRoot(41, 3, k[4] as nat);
    assert IsCubeRoot(43, 3, k[5] as nat);
    assert IsCubeRoot(47, 3, k[6] as nat);
    assert IsCubeRoot(53, 3, k[7] as nat);
  }

  lemma CubeRow2()
    ensures forall i :: 0 <= i < 8 ==> IsCubeRootOf(PrimeRow(2)[i], ConstantRow(2)[i] as nat)
  {
    var k := ConstantRow(2);
    assert IsCubeRoot(59, 3, k[0] as nat);
    assert IsCubeRoot(61, 3, k[1] as nat);
    assert IsCubeRoot(67, 4, k[2] as nat);
    assert IsCubeRoot(71, 4, k[3] as nat);
    assert IsCubeRoot(73, 4, k[4] as nat);
    assert IsCubeRoot(79, 4, k[5] as nat);
    assert IsCubeRoot(83, 4, k[6] as nat);
    assert IsCubeRoot(89, 4, k[7] as nat);
  }

  lemma CubeRow3()
    ensures forall i :: 0 <= i < 8 ==> IsCubeRootOf(PrimeRow(3)[i], ConstantRow(3)[i] as nat)
  {
    var k := ConstantRow(3);
    assert IsCubeRoot(97, 4, k[0] as nat);
    assert IsCubeRoot(101, 4, k[1] as nat);
    assert IsCubeRoot(103, 4, k[2] as nat);
    assert IsCubeRoot(107, 4, k[3] as nat);
    assert IsCubeRoot(109, 4, k[4] as nat);
    assert IsCubeRoot(113, 4, k[5] as nat);
    assert IsCubeRoot(127, 5, k[6] as nat);
    assert IsCubeRoot(131, 5, k[7] as nat);
  }

  lemma CubeRow4()
    ensures forall i :: 0 <= i < 8 ==> IsCubeRootOf(PrimeRow(4)[i], ConstantRow(4)[i] as nat)
  {
    var k := ConstantRow(4);
    assert IsCubeRoot(137, 5, k[0] as nat);
    assert IsCubeRoot(139, 5, k[1] as nat);
    assert IsCubeRoot(149, 5, k[2] as nat);
    assert IsCubeRoot(151, 5, k[3] as nat);
    assert IsCubeRoot(157, 5, k[4] as nat);
    assert IsCubeRoot(163, 5, k[5] as nat);
    assert IsCubeRoot(167, 5, k[6] as nat);
    assert IsCubeRoot(173, 5, k[7] as nat);
  }

  lemma CubeRow5()
    ensures forall i :: 0 <= i < 8 ==> IsCubeRootOf(PrimeRow(5)[i], ConstantRow(5)[i] as nat)
  {
    var k := ConstantRow(5);
    assert IsCubeRoot(179, 5, k[0] as nat);
    assert IsCubeRoot(181, 5, k[1] as nat);
    assert IsCubeRoot(191, 5, k[2] as nat);
    assert IsCubeRoot(193, 5, k[3] as nat);
    assert IsCubeRoot(197, 5, k[4] as nat);
    assert IsCubeRoot(199, 5, k[5] as nat);
    assert IsCubeRoot(211, 5, k[6] as nat);
    assert IsCubeRoot(223, 6, k[7] as nat);
  }

  lemma CubeRow6()
    ensures forall i :: 0 <= i < 8 ==> IsCubeRootOf(PrimeRow(6)[i], ConstantRow(6)[i] as nat)
  {
    var k := ConstantRow(6);
    assert IsCubeRoot(227, 6, k[0] as nat);
    assert IsCubeRoot(229, 6, k[1] as nat);
    assert IsCubeRoot(233, 6, k[2] as nat);
    assert IsCubeRoot(239, 6, k[3] as nat);
    assert IsCubeRoot(241, 6, k[4] as nat);
    assert IsCubeRoot(251, 6, k[5] as nat);
    assert IsCubeRoot(257, 6, k[6] as nat);
    assert IsCubeRoot(263, 6, k[7] as nat);
  }

  lemma CubeRow7()
    ensures forall i :: 0 <= i < 8 ==> IsCubeRootOf(PrimeRow(7)[i], ConstantRow(7)[i] as nat)
  {
    var k := ConstantRow(7);
    assert IsCubeRoot(269, 6, k[0] as nat);
    assert IsCubeRoot(271, 6, k[1] as nat);
    assert IsCubeRoot(277, 6, k[2] as nat);
    assert IsCubeRoot(281, 6, k[3] as nat);
    assert IsCubeRoot(283, 6, k[4] as nat);
    assert IsCubeRoot(293, 6, k[5] as nat);
    assert IsCubeRoot(307, 6, k[6] as nat);
    assert IsCubeRoot(311, 6, k[7] as nat);
  }

  lemma CubeRootOf(p: nat, k: nat) returns (m: nat)
    requires IsCubeRootOf(p, k)
    ensures
      var r := m * 0x1_0000_0000 + k;
      r * r * r <= p * 0x1_0000_0000_0000_0000_0000_0000 < (r + 1) * (r + 1) * (r + 1)
  {
    m :| IsCubeRoot(p, m, k);
  }

  /** FIPS 180-4 section 4.2.2: constant number `t` is made of the first 32 bits of the fractional
      part of the cube root of the `t`-th prime. */
  lemma ConstantsAreCubeRoots(t: nat) returns (m: nat)
    requires t < 64
    ensures |PrimesBelow(312)| == 64
    ensures
      var p, r := PrimesBelow(312)[t], m * 0x1_0000_0000 + K(t) as nat;
      r * r * r <= p * 0x1_0000_0000_0000_0000_0000_0000 < (r + 1) * (r + 1) * (r + 1)
  {
    hide PrimesBelow, PrimeRow, ConstantRow, IsCubeRoot, IsCubeRootOf;
    PrimeAt(t);
    var row := t / 8;
    if row == 0 {
      CubeRow0();
    } else if row == 1 {
      CubeRow1();
    } else if row == 2 {
      CubeRow2();
    } else if row == 3 {
      CubeRow3();
    } else if row == 4 {
      CubeRow4();
    } else if row == 5 {
      CubeRow5();
    } else if row == 6 {
      CubeRow6();
    } else if row == 7 {
      CubeRow7();
    }
    m := CubeRootOf(PrimeRow(row)[t % 8], ConstantRow(row)[t % 8] as nat);
  }

  // ---------- the initial hash value ----------

  /** FIPS 180-4 section 5.3.3: the words of the initial hash value come from the square roots of
      the first eight primes. */
  lemma InitialHashIsSquareRoots(i: nat) returns (m: nat)
    requires i < 8
    ensures |PrimesBelow(312)| == 64
    ensures
      var p, r := PrimesBelow(312)[i], m * 0x1_0000_0000 + HashWord(InitialHash(), i) as nat;
      r * r <= p * 0x1_0000_0000_0000_0000 < (r + 1) * (r + 1)
  {
    hide PrimesBelow;
    PrimeAt(i);
    m := [1, 1, 2, 2, 3, 3, 4, 4][i];
    InitialRoots();
  }

  lemma InitialRoots()
    ensures forall i: nat :: i < 8 ==>
      IsSquareRoot(PrimeRow(0)[i], [1, 1, 2, 2, 3, 3, 4, 4][i], HashWord(InitialHash(), i) as nat)
  {
    var h := InitialHash();
    assert IsSquareRoot(2, 1, h.a as nat);
    assert IsSquareRoot(3, 1, h.b as nat);
    assert IsSquareRoot(5, 2, h.c as nat);
    assert IsSquareRoot(7, 2, h.d as nat);
    assert IsSquareRoot(11, 3, h.e as nat);
    assert IsSquareRoot(13, 3, h.f as nat);
    assert IsSquareRoot(17, 4, h.g as nat);
    assert IsSquareRoot(19, 4, h.h as nat);
  }
}
