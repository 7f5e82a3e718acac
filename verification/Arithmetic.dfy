/** Facts about integer division that several components need. */
module Arithmetic {

  lemma ProductGrows(m: int, d: int)
    requires m >= 1
    ensures d >= 1 ==> m * d >= m
    ensures d <= -1 ==> m * d <= 0 - m
  {
    if d >= 1 {
      assert m * d == m + m * (d - 1);
    } else if d <= -1 {
      assert m * d == m * (d + 1) - m;
    }
  }

  /** Quotient and remainder are unique. */
  lemma DivMod(x: int, m: int, q: int, r: int)
    requires m >= 1 && x == m * q + r && 0 <= r < m
    ensures x / m == q && x % m == r
  {
    var k := x / m;
    assert m * (k - q) == r - x % m;
    ProductGrows(m, k - q);
  }

  lemma SameRemainder(x: int, y: int, p: nat, q: int)
    requires p >= 1 && x == y + p * q
    ensures x % p == y % p
  {
    assert p * (y / p + q) == p * (y / p) + p * q;
    DivMod(x, p, y / p + q, y % p);
  }

  lemma Scale(a: int, b: int, c: int)
    requires a <= b && c >= 0
    ensures a * c <= b * c
  {
    ProductNotNegative(b - a, c);
  }

  lemma ProductNotNegative(a: int, b: int)
    requires a >= 0 && b >= 0
    ensures a * b >= 0
  {
  }

  lemma DivDiv(n: nat, a: nat, b: nat)
    requires a >= 1 && b >= 1
    ensures a * b >= 1 && n / a / b == n / (a * b)
  {
    var q, r, t, u := n / a, n % a, n / a / b, n / a % b;
    assert n == a * q + r && q == b * t + u;
    assert a * (b * t + u) == (a * b) * t + a * u;
    Scale(u, b - 1, a);
    assert (b - 1) * a == a * b - a && u * a == a * u;
    ProductGrows(a, b);
    ProductNotNegative(a, u);
    DivMod(n, a * b, t, a * u + r);
  }

  /** Remainders may be taken in the factors. */
  lemma ProductRemainder(a: nat, b: nat, p: nat)
    requires p >= 1
    ensures (a % p) * b % p == a * b % p
  {
    var q, r := a / p, a % p;
    assert a * b == p * (q * b) + r * b;
    SameRemainder(a * b, r * b, p, q * b);
  }

  /** A remainder modulo a multiple of `m` keeps the remainder modulo `m`. */
  lemma RemainderTwice(x: nat, m: nat, k: nat)
    requires m >= 1 && k >= 1
    ensures m * k >= 1 && x % (m * k) % m == x % m
  {
    ProductGrows(m, k);
    var n := m * k;
    var q, r := x / n, x % n;
    assert n * q == m * (k * q);
    SameRemainder(x, r, m, k * q);
  }

  lemma SumRemainder(a: nat, b: nat, c: nat, d: nat, p: nat)
    requires p >= 1 && a % p == c % p && b % p == d % p
    ensures (a + b) % p == (c + d) % p
  {
    var q := (a / p - c / p) + (b / p - d / p);
    assert p * q == (p * (a / p) - p * (c / p)) + (p * (b / p) - p * (d / p));
    SameRemainder(a + b, c + d, p, q);
  }

  /** Different numbers below `m` are at most `m`. */
  lemma {:induction false} FewDistinct(s: seq<int>, m: nat)
    requires forall i :: 0 <= i < |s| ==> 0 <= s[i] < m
    requires forall i, j :: 0 <= i < j < |s| ==> s[i] != s[j]
    ensures |s| <= m
  {
    if |s| > 0 {
      var first := s[0];
      assert m > 0;
      if i :| 0 <= i < |s| && s[i] == m - 1 {
        FewDistinct(s[..i] + s[i + 1..], m - 1);
      } else {
        FewDistinct(s, m - 1);
      }
    }
  }
}
