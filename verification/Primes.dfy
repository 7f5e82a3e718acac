/** Divisibility and primes, as several components need them. */
module Primes {
  import opened Arithmetic

  predicate Divides(d: int, n: int)
    requires d > 0
  {
    n % d == 0
  }

  predicate IsPrime(n: int) {
    n >= 2 && forall d :: 2 <= d < n ==> !Divides(d, n)
  }

  lemma ProductDivides(a: int, b: int)
    requires a > 0
    ensures Divides(a, a * b)
  {
    DivMod(a * b, a, b, 0);
  }

  lemma DividesTransitive(a: int, b: int, c: int)
    requires a > 0 && b > 0 && Divides(a, b) && Divides(b, c)
    ensures Divides(a, c)
  {
    assert c == b * (c / b) == a * (b / a) * (c / b) == a * ((b / a) * (c / b));
    ProductDivides(a, (b / a) * (c / b));
  }

  lemma SquareGrows(a: int, b: int)
    ensures 0 <= a <= b ==> a * a <= b * b
  {
    if 0 <= a <= b {
      assert b * b - a * a == (b - a) * (b + a);
    }
  }

  lemma CoFactor(n: int, f: int) returns (g: int)
    requires 2 <= f < n && Divides(f, n)
    ensures n == f * g && 2 <= g < n && Divides(g, n)
  {
    g := n / f;
    assert n == f * g;
    ProductGrows(f, g - 1);
    assert f * (g - 1) == n - f;
    assert f * (1 - g) == f - n;
    ProductGrows(f, 1 - g);
    ProductGrows(g, f - 1);
    assert g * (f - 1) == n - g;
    ProductDivides(g, f);
    assert g * f == n;
  }

  /** A number that is not prime has a divisor up to its root. */
  lemma SmallDivisor(n: int) returns (d: int)
    requires n >= 2 && !IsPrime(n)
    ensures 2 <= d < n && Divides(d, n) && d * d <= n
  {
    hide Divides;
    var f :| 2 <= f < n && Divides(f, n);
    var g := CoFactor(n, f);
    d := if f <= g then f else g;
    SmallerSquare(f, g);
    SmallerSquare(g, f);
  }

  lemma SmallerSquare(a: int, b: int)
    ensures 0 <= a <= b ==> a * a <= a * b
  {
  }

  /** The primes below `n`, increasing. */
  function PrimesBelow(n: nat): (r: seq<nat>)
    ensures |r| <= n
    ensures forall i :: 0 <= i < |r| ==> IsPrime(r[i]) && r[i] < n
  {
    if n == 0 then [] else PrimesBelow(n - 1) + if IsPrime(n - 1) then [n - 1] else []
  }

  lemma {:induction false} PrimesGrow(n: nat, m: nat)
    requires n <= m
    ensures PrimesBelow(n) <= PrimesBelow(m)
  {
    if n < m {
      PrimesGrow(n, m - 1);
    }
  }

  /** They are increasing, and none is left out. */
  lemma {:induction false} PrimesBelowAll(n: nat, q: nat)
    ensures forall i, j :: 0 <= i < j < |PrimesBelow(n)| ==> PrimesBelow(n)[i] < PrimesBelow(n)[j]
    ensures IsPrime(q) && q < n ==> q in PrimesBelow(n)
  {
    hide IsPrime;
    if n > 0 {
      PrimesBelowAll(n - 1, q);
      assert IsPrime(n - 1) ==> PrimesBelow(n)[|PrimesBelow(n)| - 1] == n - 1;
    }
  }

  /** A smaller prime stands before. */
  lemma StandsBefore(n: nat, k: nat, q: nat) returns (i: nat)
    requires k < |PrimesBelow(n)| && IsPrime(q) && q < PrimesBelow(n)[k]
    ensures i < k && PrimesBelow(n)[i] == q
  {
    hide IsPrime;
    PrimesBelowAll(n, q);
    i :| i < |PrimesBelow(n)| && PrimesBelow(n)[i] == q;
  }

  /** An odd divisor of a doubled number divides the number. */
  lemma HalfDivides(d: int, x: int)
    requires d > 0 && d % 2 == 1 && Divides(d, 2 * x)
    ensures Divides(d, x)
  {
    var c := 2 * x / d;
    assert d * c == 2 * x;
    assert d * c == 2 * (d / 2 * c) + c;
    assert c == 2 * (c / 2);
    assert d * c == 2 * (d * (c / 2));
    ProductDivides(d, c / 2);
  }

  lemma PrimeIsOdd(p: int)
    requires IsPrime(p) && p != 2
    ensures p % 2 == 1
  {
    assert p > 2 ==> !Divides(2, p);
  }
}
