/**
 Division by multiplication: the search for a multiplier and a shift that divide every number
 of a given width by a small prime.
 */
module Reciprocals {
  import opened Arithmetic
  import opened Primes
  import opened Words

  /** The largest dividend of `bits` bits whose remainder is `d - 1`, for odd `d`. */
  function Critical(bits: nat, d: nat): int
    requires d >= 1
  {
    (Pow2(bits) - 1) / d * d - 1
  }

  /** What 2^i lacks to the next multiple of `d`. */
  function Lack(i: nat, d: nat): (e: nat)
    requires d >= 1
    ensures e < d
  {
    d - 1 - (Pow2(i) - 1) % d
  }

  function Reciprocal(i: nat, d: nat): nat
    requires d >= 1
  {
    (Pow2(i) + Lack(i, d)) / d
  }

  predicate IsEnough(bits: nat, i: nat, d: nat)
    requires d >= 1
  {
    Pow2(i) > Critical(bits, d) * Lack(i, d)
  }

  lemma ReciprocalIs(i: nat, d: nat)
    requires d >= 1
    ensures Reciprocal(i, d) * d == Pow2(i) + Lack(i, d)
  {
    hide Pow2;
    var k := (Pow2(i) - 1) / d;
    DivMod(Pow2(i) + Lack(i, d), d, k + 1, 0);
  }

  lemma ErrorBelow(n: nat, nc: int, e: nat, p: nat, d: nat, r: nat)
    requires n <= nc && r < d && nc * e < p
    ensures n * e < (d - r) * p
  {
    Scale(n, nc, e);
    Scale(1, d - r, p);
  }

  lemma ErrorAbove(n: nat, nc: int, e: nat, p: nat, d: nat, r: nat)
    requires n == nc + (r + 1) && r + 2 <= d && d - 1 <= nc && nc * e < p
    ensures n * e < (d - r) * p
  {
    assert n * e == nc * e + (r + 1) * e;
    Scale(r + 1, nc, e);
    Scale(2, d - r, p);
  }

  /** Above the critical dividend there is less than one more block of `d`. */
  lemma CriticalBlock(bits: nat, d: nat) returns (t: nat)
    requires 2 <= d < Pow2(bits) && Pow2(bits) % d != 0
    ensures Critical(bits, d) == d * t - 1 && d - 1 <= Critical(bits, d) && Pow2(bits) <= d * t + (d - 1)
  {
    hide Pow2;
    var max := Pow2(bits) - 1;
    t := max / d;
    if max % d == d - 1 {
      assert d * (t + 1) == d * t + d;
      DivMod(Pow2(bits), d, t + 1, 0);
    }
    ProductGrows(d, t);
    assert t * d == d * t;
  }

  /** The error of the reciprocal stays below what is missing to the next quotient. */
  lemma ErrorIsSmall(bits: nat, i: nat, d: nat, n: nat)
    requires d >= 2 && n < Pow2(bits) && d < Pow2(bits) && Pow2(bits) % d != 0
    requires IsEnough(bits, i, d)
    ensures n * Lack(i, d) < (d - n % d) * Pow2(i)
  {
    hide Pow2, Lack, Critical;
    var nc := Critical(bits, d);
    var t := CriticalBlock(bits, d);
    if n <= nc {
      ErrorBelow(n, nc, Lack(i, d), Pow2(i), d, n % d);
    } else {
      DivMod(n, d, t, n - d * t);
      ErrorAbove(n, nc, Lack(i, d), Pow2(i), d, n % d);
    }
  }

  lemma QuotientIs(n: nat, p: nat, e: nat, m: nat, d: nat, q: nat, r: nat)
    requires n == d * q + r && r < d && m * d == p + e && n * e < (d - r) * p
    ensures 0 <= n * m - p * q < p
  {
    var rest := n * m - p * q;
    assert d * (n * m) == n * p + n * e by {
      assert d * (n * m) == n * (m * d);
      assert n * (p + e) == n * p + n * e;
    }
    assert d * (p * q) == p * n - p * r by {
      assert d * (p * q) == p * (d * q);
      assert p * (n - r) == p * n - p * r;
    }
    assert d * rest == d * (n * m) - d * (p * q);
    assert d * (p - rest) == d * p - d * rest;
    assert (d - r) * p == d * p - r * p;
    ProductNotNegative(n, e);
    ProductNotNegative(r, p);
    ProductGrows(d, rest);
    ProductGrows(d, p - rest);
  }

  lemma ErrorDoesNoHarm(n: nat, p: nat, e: nat, m: nat, d: nat)
    requires d >= 1 && p >= 1 && m * d == p + e && n * e < (d - n % d) * p
    ensures n * m / p == n / d
  {
    var q, r := n / d, n % d;
    QuotientIs(n, p, e, m, d, q, r);
    DivMod(n * m, p, q, n * m - p * q);
  }

  /** Multiplying by the reciprocal and shifting divides every dividend of `bits` bits. */
  lemma MultiplyShift(bits: nat, i: nat, d: nat, n: nat)
    requires d >= 2 && n < Pow2(bits) && d < Pow2(bits) && Pow2(bits) % d != 0
    requires IsEnough(bits, i, d)
    ensures n * Reciprocal(i, d) / Pow2(i) == n / d
  {
    hide Pow2, Lack, Reciprocal, IsEnough;
    ErrorIsSmall(bits, i, d, n);
    ReciprocalIs(i, d);
    ErrorDoesNoHarm(n, Pow2(i), Lack(i, d), Reciprocal(i, d), d);
  }

  // ---------- the search for the reciprocal ----------

  lemma {:induction false} PowerNotMultiple(i: nat, d: nat)
    requires d >= 3 && d % 2 == 1
    ensures Pow2(i) % d != 0
  {
    if i == 0 {
      DivMod(1, d, 0, 1);
    } else if Pow2(i) % d == 0 {
      HalfDivides(d, Pow2(i - 1));
      PowerNotMultiple(i - 1, d);
    }
  }

  lemma LackIsPositive(i: nat, d: nat)
    requires d >= 3 && d % 2 == 1
    ensures Lack(i, d) >= 1
  {
    hide Pow2;
    PowerNotMultiple(i, d);
    var t := (Pow2(i) - 1) / d;
    if (Pow2(i) - 1) % d == d - 1 {
      assert d * (t + 1) == d * t + d;
      DivMod(Pow2(i), d, t + 1, 0);
    }
  }

  lemma NearMultiples(d: int, k: int)
    requires d >= 1 && -2 * d < d * k < d
    ensures d * k == 0 || d * k == -d
  {
    ProductGrows(d, k);
    ProductGrows(d, k + 1);
    assert d * (k + 1) == d * k + d;
  }

  /** Doubling the power doubles the lack, modulo `d`. */
  lemma LackDoubles(i: nat, d: nat)
    requires d >= 3 && d % 2 == 1
    ensures var e := 2 * Lack(i, d); Lack(i + 1, d) == if e < d then e else e - d
  {
    hide Lack, Reciprocal;
    ReciprocalIs(i, d);
    ReciprocalIs(i + 1, d);
    LackIsPositive(i, d);
    var a: int, b: int := Reciprocal(i, d), Reciprocal(i + 1, d);
    assert d * (b - 2 * a) == b * d - 2 * (a * d);
    NearMultiples(d, b - 2 * a);
  }

  /** The power of two next to `d`. */
  predicate IsWidth(d: nat, k: nat) {
    Pow2(k) < d <= 2 * Pow2(k)
  }

  lemma {:induction false} WidthExists(d: nat, limit: nat) returns (k: nat)
    requires 2 <= d <= 2 * Pow2(limit)
    ensures k <= limit && IsWidth(d, k)
  {
    if Pow2(limit) < d {
      k := limit;
    } else {
      k := WidthExists(d, limit - 1);
    }
  }

  lemma PowDoubles(a: nat, k: nat)
    ensures Pow2(a + k) == Pow2(a) * Pow2(k) && Pow2(a + 1) == 2 * Pow2(a)
  {
    PowAdd(a, k);
  }

  /** The critical dividend is among the `d` last ones. */
  lemma CriticalBounds(bits: nat, d: nat)
    requires d >= 1
    ensures Pow2(bits) - d - 1 <= Critical(bits, d) < Pow2(bits) - 1
  {
    hide Pow2;
    var max := Pow2(bits) - 1;
    assert max == d * (max / d) + max % d && max / d * d == d * (max / d);
  }

  lemma SmallProduct(nc: int, e: nat, w: int, h: int)
    requires nc < w && e <= h && w >= 1 && h >= 1
    ensures nc * e < w * h
  {
    if nc >= 0 {
      Scale(e, h, nc);
      Scale(nc, w - 1, h);
      assert (w - 1) * h == w * h - h;
    } else {
      Scale(nc, 0, e);
      Scale(1, w, h);
    }
  }

  /** A lack of at most 2^j is small enough from 2^(bits + j) on. */
  lemma EnoughAt(bits: nat, j: nat, d: nat)
    requires d >= 2 && Lack(bits + j, d) <= Pow2(j)
    ensures IsEnough(bits, bits + j, d)
  {
    hide Pow2, Lack, Critical;
    CriticalBounds(bits, d);
    PowDoubles(bits, j);
    SmallProduct(Critical(bits, d), Lack(bits + j, d), Pow2(bits), Pow2(j));
  }

  lemma QuotientBelow(m: nat, d: nat, p: nat, e: nat, w: nat, h: nat)
    requires m * d == p + e && e < d < w && p <= w * h && h <= d - 1
    ensures m < w
  {
    Scale(h, d - 1, w);
    assert (d - 1) * w == w * d - w;
    if m >= w {
      Scale(w, m, d);
    }
  }

  /** With 2^k below `d` the reciprocal of 2^(64 + k) fits a machine word. */
  lemma ReciprocalFits(i: nat, k: nat, d: nat)
    requires d >= 2 && Pow2(k) < d < Pow2(64) && i <= 64 + k
    ensures Reciprocal(i, d) < Pow2(64)
  {
    hide Pow2, Lack, Reciprocal;
    ReciprocalIs(i, d);
    PowGrows(i, 64 + k);
    PowDoubles(64, k);
    QuotientBelow(Reciprocal(i, d), d, Pow2(i), Lack(i, d), Pow2(64), Pow2(k));
  }

  // ---------- the two calls ----------

  /** The smallest exponent that is enough, below `limit`. */
  predicate IsFirstEnough(bits: nat, i: nat, d: nat)
    requires d >= 1
  {
    IsEnough(bits, i, d) && forall j :: 0 <= j < i ==> !IsEnough(bits, j, d)
  }

  /** For 63-bit dividends: the exponent is at least 63, and 63 only where the lack is 1. */
  lemma FirstSearch(d: nat, k: nat, i: nat)
    requires 3 <= d < Pow2(32) && d % 2 == 1 && IsWidth(d, k) && IsFirstEnough(63, i, d)
    ensures 63 <= i <= 64 + k && (i == 63 ==> Lack(63, d) == 1)
  {
    hide Pow2, Lack, Critical;
    PowDoubles(k, 1);
    EnoughAt(63, k + 1, d);
    LackIsPositive(i, d);
    CriticalBounds(63, d);
    LargePowers();
    var nc, e := Critical(63, d), Lack(i, d);
    if i < 63 {
      PowGrows(i, 62);
      Scale(1, e, nc);
    } else if i == 63 && e >= 2 {
      Scale(2, e, nc);
    }
  }

  lemma LargePowers()
    ensures Pow2(64) == 2 * Pow2(63) && Pow2(63) == 2 * Pow2(62)
    ensures Pow2(62) >= 4 * Pow2(32) && Pow2(32) >= 4
  {
    hide Pow2;
    PowDoubles(63, 0);
    PowDoubles(62, 0);
    PowDoubles(60, 0);
    PowDoubles(61, 0);
    PowGrows(32, 60);
    PowGrows(2, 32);
    PowDoubles(0, 0);
    PowDoubles(1, 0);
  }

  lemma {:induction false} LackStaysPower(d: nat, k: nat, j: nat)
    requires d >= 3 && d % 2 == 1 && Lack(63, d) == 1 && IsWidth(d, k) && j <= k
    ensures Lack(63 + j, d) == Pow2(j)
  {
    hide Lack;
    PowGrows(j, k);
    if j > 0 {
      LackStaysPower(d, k, j - 1);
      LackDoubles(63 + j - 1, d);
    }
  }

  /** Where the first search gives too small a shift, the second one does not. */
  lemma SecondSearch(d: nat, k: nat, i: nat)
    requires 3 <= d < Pow2(32) && d % 2 == 1 && IsWidth(d, k) && Lack(63, d) == 1 && IsFirstEnough(64, i, d)
    ensures 64 <= i <= 64 + k
  {
    hide Pow2, Lack, Critical;
    LackStaysPower(d, k, k);
    LackDoubles(63 + k, d);
    EnoughAt(64, k, d);
    LackIsPositive(i, d);
    CriticalBounds(64, d);
    LargePowers();
    if i < 64 {
      PowGrows(i, 63);
      Scale(1, Lack(i, d), Critical(64, d));
    }
  }

  /** The emitted division: a 128-bit product, its upper word, and a shift. */
  function ShiftedProduct(n: nat, m: nat, shift: nat): int {
    ShiftRight(ShiftRight(n * m, 64), shift)
  }

  function ShiftRight(n: int, k: nat): int {
    n / Pow2(k)
  }

  /** Multiplier and shift divide every 63-bit number by `d`. */
  predicate DividesBy(d: nat, m: nat, shift: nat)
    requires d >= 1
  {
    m < Pow2(64) && forall n: nat :: n < Pow2(63) ==> ShiftedProduct(n, m, shift) == n / d
  }

  lemma EnoughDivides(bits: nat, i: nat, d: nat)
    requires 63 <= bits && 64 <= i && 3 <= d < Pow2(32) && d % 2 == 1
    requires IsEnough(bits, i, d) && Reciprocal(i, d) < Pow2(64)
    ensures DividesBy(d, Reciprocal(i, d), i - 64)
  {
    hide Pow2, Reciprocal, IsEnough;
    PowerNotMultiple(bits, d);
    LargePowers();
    PowGrows(63, bits);
    PowDoubles(64, i - 64);
    forall n: nat | n < Pow2(63)
      ensures ShiftedProduct(n, Reciprocal(i, d), i - 64) == n / d
    {
      MultiplyShift(bits, i, d, n);
      DivDiv(n * Reciprocal(i, d), Pow2(64), Pow2(i - 64));
    }
  }

  lemma HalfDividesBy()
    ensures DividesBy(2, Pow2(63), 0)
  {
    hide Pow2;
    LargePowers();
    PowDoubles(0, 0);
    forall n: nat | n < Pow2(63)
      ensures ShiftedProduct(n, Pow2(63), 0) == n / 2
    {
      var h := Pow2(63);
      assert n * h == (2 * h) * (n / 2) + h * (n % 2);
      assert h * (n % 2) <= h;
      DivMod(n * h, 2 * h, n / 2, h * (n % 2));
      DivMod(n / 2, 1, n / 2, 0);
      assert Pow2(0) == 1 by {
        PowOfZero();
      }
    }
  }

  lemma PowOfZero()
    ensures Pow2(0) == 1
  {
  }

  /** The multiplier is cut to 64 bits; no exponent may be enough. */
  method FindMultiplier(maxDividendBits: nat, divisor: nat) returns (found: bool, multiplier: nat, offset: nat)
    requires divisor >= 1
    ensures divisor == 2 ==> found && multiplier == Pow2(63) && offset == 64
    ensures divisor != 2 && found ==>
      IsFirstEnough(maxDividendBits, offset, divisor) && multiplier == Reciprocal(offset, divisor) % Pow2(64)
    ensures divisor != 2 && !found ==>
      forall j :: 0 <= j <= 2 * maxDividendBits ==> !IsEnough(maxDividendBits, j, divisor)
  {
    hide Pow2, Lack, Reciprocal, Critical;
    if divisor == 2 {
      return true, Pow2(63), 64;
    }
    multiplier, offset := 0, 0;
    var nc := Critical(maxDividendBits, divisor);
    for i := 0 to 2 * maxDividendBits + 1
      invariant forall j :: 0 <= j < i ==> !IsEnough(maxDividendBits, j, divisor)
    {
      if Pow2(i) > nc * Lack(i, divisor) {
        return true, Reciprocal(i, divisor) % Pow2(64), i;
      }
    }
    found := false;
  }

  lemma FirstSucceeds(d: nat) returns (j: nat)
    requires 3 <= d < Pow2(32)
    ensures j <= 126 && IsEnough(63, j, d)
  {
    hide Pow2, Lack, IsEnough;
    PowDoubles(31, 0);
    var k := WidthExists(d, 31);
    PowDoubles(k, 1);
    EnoughAt(63, k + 1, d);
    j := 64 + k;
  }

  /** What the first search finds, and where it needs the second one. */
  lemma FirstFound(d: nat, i: nat)
    requires 3 <= d < Pow2(32) && d % 2 == 1 && IsFirstEnough(63, i, d)
    ensures 63 <= i <= 96 && (i == 63 ==> Lack(63, d) == 1)
    ensures i >= 64 ==> DividesBy(d, Reciprocal(i, d) % Pow2(64), i - 64)
  {
    hide Pow2, Lack, Reciprocal, IsEnough, DividesBy;
    PowDoubles(31, 0);
    LargePowers();
    var k := WidthExists(d, 31);
    FirstSearch(d, k, i);
    ReciprocalFits(i, k, d);
    DivMod(Reciprocal(i, d), Pow2(64), 0, Reciprocal(i, d));
    if i >= 64 {
      EnoughDivides(63, i, d);
    }
  }

  lemma SecondSucceeds(d: nat) returns (j: nat)
    requires 3 <= d < Pow2(32) && d % 2 == 1 && Lack(63, d) == 1
    ensures j <= 128 && IsEnough(64, j, d)
  {
    hide Pow2, Lack, IsEnough;
    PowDoubles(31, 0);
    var k := WidthExists(d, 31);
    LackStaysPower(d, k, k);
    LackDoubles(63 + k, d);
    EnoughAt(64, k, d);
    j := 64 + k;
  }

  lemma SecondFound(d: nat, i: nat)
    requires 3 <= d < Pow2(32) && d % 2 == 1 && Lack(63, d) == 1 && IsFirstEnough(64, i, d)
    ensures 64 <= i <= 96 && DividesBy(d, Reciprocal(i, d) % Pow2(64), i - 64)
  {
    hide Pow2, Lack, Reciprocal, IsEnough, DividesBy;
    PowDoubles(31, 0);
    LargePowers();
    var k := WidthExists(d, 31);
    SecondSearch(d, k, i);
    ReciprocalFits(i, k, d);
    DivMod(Reciprocal(i, d), Pow2(64), 0, Reciprocal(i, d));
    EnoughDivides(64, i, d);
  }

  /** The reciprocal of one prime, as `init` finds it: the search for 63 bits, and another one
      for 64 bits when the first exponent is too small for the shift. */
  method FindReciprocal(prime: nat) returns (invM: nat, shift: nat)
    requires 2 <= prime < Pow2(32) && (prime == 2 || prime % 2 == 1)
    ensures DividesBy(prime, invM, shift) && shift <= 32
  {
    hide Pow2, Lack, Reciprocal, IsFirstEnough, DividesBy, IsEnough;
    var found, offset;
    found, invM, offset := FindMultiplier(63, prime);
    if prime == 2 {
      HalfDividesBy();
      return invM, 0;
    }
    ghost var j := FirstSucceeds(prime);
    FirstFound(prime, offset);
    if offset < 64 {
      j := SecondSucceeds(prime);
      found, invM, offset := FindMultiplier(64, prime);
      SecondFound(prime, offset);
    }
    shift := offset - 64;
  }
}
