/**
 A primality proof that needs few steps: an element whose order modulo `n` is a prime above the
 root of `n`, also modulo every divisor of `n`, has more different powers than a small divisor
 has remainders.
 */
module PrimeCertificate {
  import opened Arithmetic
  import opened Primes

  function Power(b: nat, e: nat, n: nat): (r: nat)
    requires n >= 2
    ensures r < n
  {
    if e == 0 then 1 else b * Power(b, e - 1, n) % n
  }

  lemma ReducedTwice(b: nat, x: nat, y: nat, n: nat)
    requires n >= 2
    ensures b * (x * y % n) % n == (b * x % n) * y % n
  {
    ProductRemainder(x * y, b, n);
    ProductRemainder(b * x, y, n);
    assert x * y * b == b * x * y;
    assert b * (x * y % n) == (x * y % n) * b;
  }

  lemma PowerStep(b: nat, e: nat, n: nat)
    requires n >= 2
    ensures Power(b, 0, n) == 1 && Power(b, e + 1, n) == b * Power(b, e, n) % n
  {
  }

  lemma {:induction false} PowerAdds(b: nat, i: nat, j: nat, n: nat)
    requires n >= 2
    ensures Power(b, i + j, n) == Power(b, i, n) * Power(b, j, n) % n
  {
    hide Power;
    var y := Power(b, j, n);
    if i == 0 {
      PowerStep(b, 0, n);
      Unit(y, n);
    } else {
      PowerStep(b, i - 1, n);
      PowerStep(b, i - 1 + j, n);
      PowerAdds(b, i - 1, j, n);
      ReducedTwice(b, Power(b, i - 1, n), y, n);
    }
  }

  lemma Unit(y: nat, n: nat)
    requires y < n
    ensures 1 * y % n == y
  {
    DivMod(y, n, 0, y);
  }

  /** Reducing modulo a divisor of `n` afterwards. */
  lemma {:induction false} PowerOfDivisor(b: nat, e: nat, n: nat, d: nat)
    requires n >= 2 && d >= 2 && Divides(d, n)
    ensures Power(b, e, n) % d == Power(b, e, d)
  {
    if e > 0 {
      var x := Power(b, e - 1, n);
      PowerOfDivisor(b, e - 1, n, d);
      RemainderOfDivisor(b * x, n, d);
      ProductRemainder(x, b, d);
      assert b * x == x * b && b * (x % d) == (x % d) * b;
    } else {
      DivMod(1, d, 0, 1);
    }
  }

  lemma RemainderOfDivisor(x: nat, n: nat, d: nat)
    requires n >= 1 && d >= 1 && Divides(d, n)
    ensures x % n % d == x % d
  {
    var q := n / d * (x / n);
    assert n == d * (n / d);
    assert d * q == n * (x / n);
    SameRemainder(x, x % n, d, q);
  }

  /** The least positive exponent that gives 1. */
  lemma LeastExponent(b: nat, d: nat, r: nat) returns (m: nat)
    requires d >= 2 && r >= 1 && Power(b, r, d) == 1
    ensures 1 <= m <= r && Power(b, m, d) == 1
    ensures forall k :: 0 < k < m ==> Power(b, k, d) != 1
  {
    m := 1;
    while Power(b, m, d) != 1
      invariant 1 <= m <= r && forall k :: 0 < k < m ==> Power(b, k, d) != 1
      decreases r - m
    {
      m := m + 1;
    }
  }

  lemma {:induction false} ReduceExponent(b: nat, d: nat, m: nat, q: nat, k: nat)
    requires d >= 2 && Power(b, m, d) == 1
    ensures Power(b, q * m + k, d) == Power(b, k, d)
  {
    hide Power;
    if q == 0 {
      assert q * m + k == k;
    } else {
      var rest := (q - 1) * m + k;
      assert q * m == (q - 1) * m + m;
      ReduceExponent(b, d, m, q - 1, k);
      PowerAdds(b, m, rest, d);
      Unit(Power(b, k, d), d);
    }
  }

  /** When a prime exponent gives 1 and the first power does not, no smaller one does. */
  lemma PrimeOrder(b: nat, d: nat, r: nat, k: nat)
    requires d >= 2 && IsPrime(r) && Power(b, r, d) == 1 && Power(b, 1, d) != 1 && 0 < k < r
    ensures Power(b, k, d) != 1
  {
    hide Power, IsPrime;
    var m := LeastExponent(b, d, r);
    var q := r / m;
    Quotient(r, m);
    ReduceExponent(b, d, m, q, r % m);
    if k >= m {
      PrimeHasNoDivisor(r, m);
    }
  }

  lemma Quotient(r: nat, m: nat)
    requires m >= 1
    ensures r == r / m * m + r % m
  {
  }

  lemma PrimeHasNoDivisor(r: nat, m: nat)
    requires IsPrime(r) && 2 <= m < r
    ensures r % m != 0
  {
    assert !Divides(m, r);
  }

  /** So the powers below a prime order are different. */
  lemma PowersDiffer(b: nat, d: nat, r: nat, i: nat, j: nat)
    requires d >= 2 && IsPrime(r) && Power(b, r, d) == 1 && Power(b, 1, d) != 1 && i < j < r
    ensures Power(b, i, d) != Power(b, j, d)
  {
    hide Power, IsPrime;
    PowerAdds(b, r - i, i, d);
    PowerAdds(b, r - i, j, d);
    PowerAdds(b, r, j - i, d);
    assert (r - i) + j == r + (j - i) && (r - i) + i == r;
    Unit(Power(b, j - i, d), d);
    PrimeOrder(b, d, r, j - i);
  }

  /** A divisor has at least as many remainders as there are powers. */
  lemma DivisorIsLarge(b: nat, d: nat, r: nat)
    requires d >= 2 && IsPrime(r) && Power(b, r, d) == 1 && Power(b, 1, d) != 1
    ensures r <= d
  {
    var powers: seq<int> := seq(r, i requires 0 <= i < r => Power(b, i, d));
    forall i, j | 0 <= i < j < r
      ensures powers[i] != powers[j]
    {
      PowersDiffer(b, d, r, i, j);
    }
    FewDistinct(powers, d);
  }

  /** The certificate: `b` has order `r` modulo `n`, and `b - 1` has the inverse `c`. */
  lemma CertifiedPrime(n: nat, r: nat, b: nat, c: nat)
    requires n >= 2 && IsPrime(r) && r * r > n && b >= 1
    requires Power(b, r, n) == 1 && (b - 1) * c % n == 1
    ensures IsPrime(n)
  {
    hide Power;
    if !IsPrime(n) {
      var d := SmallDivisor(n);
      PowerOfDivisor(b, r, n, d);
      DivMod(1, d, 0, 1);
      NotOne(n, d, b, c);
      DivisorIsLarge(b, d, r);
      SquareGrows(r, d);
    }
  }

  lemma NotOne(n: nat, d: nat, b: nat, c: nat)
    requires n >= 2 && d >= 2 && Divides(d, n) && b >= 1 && (b - 1) * c % n == 1
    ensures Power(b, 1, d) != 1
  {
    RemainderOfDivisor((b - 1) * c, n, d);
    DivMod(1, d, 0, 1);
    if Power(b, 1, d) == 1 {
      assert Power(b, 0, d) == 1 && b % d == 1;
      var q := b / d;
      assert b - 1 == d * q;
      assert (b - 1) * c == d * (q * c);
      DivMod((b - 1) * c, d, q * c, 0);
    }
  }

  lemma SquareStep(b: nat, e: nat, n: nat, x: nat, y: nat)
    requires n >= 2 && Power(b, e, n) == x && x * x % n == y
    ensures Power(b, 2 * e, n) == y
  {
    hide Power;
    PowerAdds(b, e, e, n);
  }

  lemma NextStep(b: nat, e: nat, n: nat, x: nat, y: nat)
    requires n >= 2 && Power(b, e, n) == x && b * x % n == y
    ensures Power(b, e + 1, n) == y
  {
  }
}
