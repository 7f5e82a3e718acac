/**
 The direct transform modulo 257 and the two facts that a fast transform rests on:
 a sum over even and odd places splits, and the two halves of its outputs differ
 only in the sign of the odd part.
 */
module SimdSpectrum {
  import opened AlphaTable

  // ---------- congruence modulo 257 ----------

  predicate Cong(a: int, b: int) {
    (a - b) % 257 == 0
  }

  function Quotient(a: int, b: int): (k: int)
    requires Cong(a, b)
    ensures a == b + 257 * k
  {
    (a - b) / 257
  }

  lemma CongFrom(a: int, b: int, k: int)
    requires a == b + 257 * k
    ensures Cong(a, b)
  {
    assert (257 * k) % 257 == 0;
  }

  lemma CongTrans(a: int, b: int, c: int)
    requires Cong(a, b) && Cong(b, c)
    ensures Cong(a, c)
  {
    CongFrom(a, c, Quotient(a, b) + Quotient(b, c));
  }

  lemma CongSym(a: int, b: int)
    requires Cong(a, b)
    ensures Cong(b, a)
  {
    CongFrom(b, a, -Quotient(a, b));
  }

  lemma CongAdd(a: int, b: int, c: int, d: int)
    requires Cong(a, b) && Cong(c, d)
    ensures Cong(a + c, b + d) && Cong(a - c, b - d)
  {
    var k, l := Quotient(a, b), Quotient(c, d);
    CongFrom(a + c, b + d, k + l);
    CongFrom(a - c, b - d, k - l);
  }

  lemma CongMul(a: int, b: int, c: int, d: int)
    requires Cong(a, b) && Cong(c, d)
    ensures Cong(a * c, b * d)
  {
    var k, l := Quotient(a, b), Quotient(c, d);
    calc {
      a * c;
      (b + 257 * k) * (d + 257 * l);
      b * d + b * (257 * l) + (257 * k) * (d + 257 * l);
      b * d + 257 * (b * l) + 257 * (k * (d + 257 * l));
    }
    CongFrom(a * c, b * d, b * l + k * (d + 257 * l));
  }

  // ---------- powers of the root 41 ----------

  function Root(n: nat): int {
    if n == 0 then 1 else 41 * Root(n - 1)
  }

  lemma {:induction false} RootAdd(m: nat, n: nat)
    ensures Root(m + n) == Root(m) * Root(n)
  {
    if m > 0 {
      RootAdd(m - 1, n);
      assert 41 * (Root(m - 1) * Root(n)) == 41 * Root(m - 1) * Root(n);
    }
  }

  lemma RemainderCong(x: int)
    ensures Cong(x % 257, x)
  {
    CongFrom(x % 257, x, -(x / 257));
  }

  lemma {:induction false} AlphaIsRoot(v: nat)
    requires v < 256
    ensures Cong(AlphaTab(v), Root(v)) && 0 < AlphaTab(v) + 1 <= 257
  {
    if v == 0 {
      assert AlphaTab(0) == 1;
    } else {
      hide AlphaTab, Cong;
      AlphaIsRoot(v - 1);
      AlphaStep(v - 1);
      RemainderCong(41 * AlphaTab(v - 1));
      CongMul(41, 41, AlphaTab(v - 1), Root(v - 1));
      CongTrans(AlphaTab(v), 41 * AlphaTab(v - 1), Root(v));
    }
  }

  lemma RootHalfTurn(n: nat)
    ensures Cong(Root(n + 128), -Root(n))
  {
    AlphaIsRoot(128);
    assert AlphaTab(128) == 256 by {
      assert RowAt(8) == Row8();
    }
    CongSym(256, Root(128));
    CongFrom(256, -1, 1);
    CongTrans(Root(128), 256, -1);
    RootAdd(128, n);
    CongMul(Root(128), -1, Root(n), Root(n));
    assert -1 * Root(n) == -Root(n);
  }

  lemma {:induction false} RootTurns(n: nat, k: nat)
    ensures Cong(Root(n + 256 * k), Root(n))
  {
    if k > 0 {
      var m := n + 256 * (k - 1);
      RootTurns(n, k - 1);
      RootHalfTurn(m);
      RootHalfTurn(m + 128);
      CongFrom(0, 0, 0);
      CongAdd(0, 0, Root(m + 128), -Root(m));
      assert 0 - Root(m + 128) == -Root(m + 128);
      CongTrans(Root(m + 256), -Root(m + 128), Root(m));
      CongTrans(Root(m + 256), Root(m), Root(n));
      assert n + 256 * k == m + 256;
    }
  }

  // ---------- the direct transform ----------

  /** Input `j`; the transform pads the block with zeros. */
  function At(x: seq<int>, j: nat): int {
    if j < |x| then x[j] else 0
  }

  /** Term `k` of output `i` of the transform of the inputs at `b`, `b + s`, ... with root 41^e. */
  function Term(x: seq<int>, b: nat, s: nat, e: nat, i: nat, k: nat): int {
    At(x, b + k * s) * Root(e * i * k)
  }

  /** The sum of its first `m` terms. */
  function Direct(x: seq<int>, b: nat, s: nat, m: nat, e: nat, i: nat): int {
    if m == 0 then 0 else Direct(x, b, s, m - 1, e, i) + Term(x, b, s, e, i, m - 1)
  }

  /** The output the block is specified by: the sum of x[j] * 41^(i * j) over all 128 inputs. */
  function Dft(x: seq<int>, i: nat): int {
    Direct(x, 0, 1, 128, 1, i)
  }

  lemma EvenTerm(x: seq<int>, b: nat, s: nat, e: nat, i: nat, n: nat)
    ensures Term(x, b, s, e, i, 2 * n) == Term(x, b, 2 * s, 2 * e, i, n)
  {
    assert 2 * n * s == n * (2 * s);
    assert e * i * (2 * n) == 2 * e * i * n;
  }

  lemma OddTerm(x: seq<int>, b: nat, s: nat, e: nat, i: nat, n: nat)
    ensures Term(x, b, s, e, i, 2 * n + 1) == Root(e * i) * Term(x, b + s, 2 * s, 2 * e, i, n)
  {
    hide Root, At, Term;
    var place, w, p := b + s + n * (2 * s), e * i, 2 * e * i * n;
    OddPlace(b, s, n);
    OddExponent(e, i, n);
    TermIs(x, b, s, e, i, 2 * n + 1, place, w + p);
    TermIs(x, b + s, 2 * s, 2 * e, i, n, place, p);
    RootAdd(w, p);
    MulSwap(At(x, place), Root(w), Root(p));
  }

  lemma TermIs(x: seq<int>, b: nat, s: nat, e: nat, i: nat, k: nat, place: nat, exponent: nat)
    requires place == b + k * s && exponent == e * i * k
    ensures Term(x, b, s, e, i, k) == At(x, place) * Root(exponent)
  {
  }

  lemma OddPlace(b: nat, s: nat, n: nat)
    ensures b + (2 * n + 1) * s == b + s + n * (2 * s)
  {
  }

  lemma OddExponent(e: nat, i: nat, n: nat)
    ensures e * i * (2 * n + 1) == e * i + 2 * e * i * n
  {
    var c := e * i;
    assert 2 * e * i == 2 * c;
    assert c * (2 * n + 1) == c + 2 * c * n;
  }

  lemma MulSwap(v: int, w: int, p: int)
    ensures v * (w * p) == w * (v * p)
  {
  }

  /** Even and odd places. */
  lemma {:induction false} Split(x: seq<int>, b: nat, s: nat, m: nat, e: nat, i: nat)
    ensures Direct(x, b, s, 2 * m, e, i)
         == Direct(x, b, 2 * s, m, 2 * e, i) + Root(e * i) * Direct(x, b + s, 2 * s, m, 2 * e, i)
    decreases m
  {
    hide Term;
    if m > 0 {
      var n := m - 1;
      Split(x, b, s, n, e, i);
      EvenTerm(x, b, s, e, i, n);
      OddTerm(x, b, s, e, i, n);
      var w := Root(e * i);
      var dOdd, tOdd := Direct(x, b + s, 2 * s, n, 2 * e, i), Term(x, b + s, 2 * s, 2 * e, i, n);
      assert w * (dOdd + tOdd) == w * dOdd + w * tOdd;
      assert Direct(x, b, s, 2 * m, e, i)
          == Direct(x, b, s, 2 * n, e, i) + Term(x, b, s, e, i, 2 * n) + Term(x, b, s, e, i, 2 * n + 1);
    }
  }

  lemma TermPeriod(x: seq<int>, b: nat, s: nat, e: nat, i: nat, h: nat, k: nat)
    requires e * h == 256
    ensures Cong(Term(x, b, s, e, i + h, k), Term(x, b, s, e, i, k))
  {
    calc {
      e * (i + h) * k;
      (e * i + e * h) * k;
      e * i * k + 256 * k;
    }
    RootTurns(e * i * k, k);
    var v := At(x, b + k * s);
    CongFrom(v, v, 0);
    CongMul(v, v, Root(e * (i + h) * k), Root(e * i * k));
  }

  /** The half-size transforms repeat with period `h`. */
  lemma {:induction false} DirectPeriod(x: seq<int>, b: nat, s: nat, m: nat, e: nat, i: nat, h: nat)
    requires e * h == 256
    ensures Cong(Direct(x, b, s, m, e, i + h), Direct(x, b, s, m, e, i))
    decreases m
  {
    hide Term;
    if m > 0 {
      DirectPeriod(x, b, s, m - 1, e, i, h);
      TermPeriod(x, b, s, e, i, h, m - 1);
      CongAdd(Direct(x, b, s, m - 1, e, i + h), Direct(x, b, s, m - 1, e, i),
              Term(x, b, s, e, i + h, m - 1), Term(x, b, s, e, i, m - 1));
    }
  }

  lemma SecondHalf(x: seq<int>, b: nat, s: nat, m: nat, e: nat, h: nat, i: nat)
    requires e * h == 128
    ensures Cong(Direct(x, b, s, 2 * m, e, i + h),
                 Direct(x, b, 2 * s, m, 2 * e, i) - Root(e * i) * Direct(x, b + s, 2 * s, m, 2 * e, i))
  {
    hide Direct, Root, Cong;
    var dEven, dOdd := Direct(x, b, 2 * s, m, 2 * e, i), Direct(x, b + s, 2 * s, m, 2 * e, i);
    var dEven', dOdd' := Direct(x, b, 2 * s, m, 2 * e, i + h), Direct(x, b + s, 2 * s, m, 2 * e, i + h);
    var w, w' := Root(e * i), Root(e * (i + h));
    Split(x, b, s, m, e, i + h);
    assert 2 * e * h == 256 && e * (i + h) == e * i + 128;
    DirectPeriod(x, b, 2 * s, m, 2 * e, i, h);
    DirectPeriod(x, b + s, 2 * s, m, 2 * e, i, h);
    RootHalfTurn(e * i);
    CongMul(w', -w, dOdd', dOdd);
    assert (-w) * dOdd == -(w * dOdd);
    CongAdd(dEven', dEven, w' * dOdd', -(w * dOdd));
  }

  /** One butterfly: outputs `i` and `i + h` from output `i` of the two half-size
      transforms, the odd one multiplied by the twiddle factor. */
  lemma Butterfly(x: seq<int>, b: nat, s: nat, m: nat, e: nat, h: nat, i: nat, u: int, t: int)
    requires e * h == 128
    requires Cong(u, Direct(x, b, 2 * s, m, 2 * e, i))
    requires Cong(t, Root(e * i) * Direct(x, b + s, 2 * s, m, 2 * e, i))
    ensures Cong(u + t, Direct(x, b, s, 2 * m, e, i))
    ensures Cong(u - t, Direct(x, b, s, 2 * m, e, i + h))
  {
    hide Direct, Root, Cong;
    var dEven, dOdd := Direct(x, b, 2 * s, m, 2 * e, i), Root(e * i) * Direct(x, b + s, 2 * s, m, 2 * e, i);
    Split(x, b, s, m, e, i);
    CongAdd(u, dEven, t, dOdd);
    SecondHalf(x, b, s, m, e, h, i);
    CongSym(Direct(x, b, s, 2 * m, e, i + h), dEven - dOdd);
    CongTrans(u - t, dEven - dOdd, Direct(x, b, s, 2 * m, e, i + h));
  }
}
