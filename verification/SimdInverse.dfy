/**
 The number-theoretic transform can be undone: the powers of 41 are orthogonal modulo 257, so
 the inverse transform gives the inputs back, and no two blocks have the same outputs.
 */
module SimdInverse {
  import opened SimdSpectrum
  import F = SimdFft

  // ---------- sums of powers ----------

  /** The sum of the first `n` powers of 41^e. */
  function PowerSum(e: nat, n: nat): int {
    if n == 0 then 0 else PowerSum(e, n - 1) + Root(e * (n - 1))
  }

  lemma {:induction false} PowerSumHalves(e: nat, n: nat)
    ensures PowerSum(e, 2 * n) == (1 + Root(e)) * PowerSum(2 * e, n)
  {
    hide Root;
    if n > 0 {
      var k := n - 1;
      PowerSumHalves(e, k);
      var even, r, rest := e * (2 * k), Root(2 * e * k), PowerSum(2 * e, k);
      assert even == 2 * e * k && e * (2 * k + 1) == even + e;
      RootAdd(even, e);
      assert PowerSum(e, 2 * n) == PowerSum(e, 2 * k) + Root(e * (2 * k)) + Root(e * (2 * k + 1));
      Gathered(Root(e), rest, r);
    }
  }

  lemma Gathered(w: int, rest: int, r: int)
    ensures (1 + w) * rest + r + r * w == (1 + w) * (rest + r)
  {
  }

  /** Over a whole number of turns the powers cancel, unless all of them are one. */
  lemma {:induction false} PowersCancel(e: nat, n: nat, k: nat)
    requires n == Two(k) && e * n % 256 == 0 && e % 256 != 0
    ensures Cong(PowerSum(e, n), 0)
    decreases k
  {
    hide Root, PowerSum, Cong;
    if k > 0 {
      var half := Two(k - 1);
      PowerSumHalves(e, half);
      assert e * n == 2 * e * half;
      if 2 * e % 256 != 0 {
        PowersCancel(2 * e, half, k - 1);
        TimesZero(1 + Root(e), PowerSum(2 * e, half));
      } else {
        HalfTurnCancels(e);
        TimesZero(PowerSum(2 * e, half), 1 + Root(e));
        assert (1 + Root(e)) * PowerSum(2 * e, half) == PowerSum(2 * e, half) * (1 + Root(e));
      }
    }
  }

  function Two(k: nat): (p: nat)
    ensures p >= 1
  {
    if k == 0 then 1 else 2 * Two(k - 1)
  }

  lemma TimesZero(a: int, b: int)
    requires Cong(b, 0)
    ensures Cong(a * b, 0)
  {
    var q := Quotient(b, 0);
    assert a * b == 257 * (a * q);
    CongFrom(a * b, 0, a * q);
  }

  lemma HalfTurnCancels(e: nat)
    requires 2 * e % 256 == 0 && e % 256 != 0
    ensures Cong(1 + Root(e), 0)
  {
    hide Root;
    var q := e / 256;
    assert e == 128 + 256 * q;
    RootTurns(128, q);
    RootHalfTurn(0);
    RootOfZero();
    CongTrans(Root(e), Root(128), -1);
    var t := Quotient(Root(e), -1);
    CongFrom(1 + Root(e), 0, t);
  }

  lemma RootOfZero()
    ensures Root(0) == 1
  {
  }

  /** For a multiple of the order every power is one. */
  lemma {:induction false} PowersAreOne(e: nat, n: nat)
    requires e % 256 == 0
    ensures Cong(PowerSum(e, n), n)
  {
    hide Root, Cong;
    if n == 0 {
      CongFrom(0, 0, 0);
    } else {
      PowersAreOne(e, n - 1);
      var q := e / 256 * (n - 1);
      assert e * (n - 1) == 0 + 256 * q by {
        assert e == 256 * (e / 256);
      }
      RootTurns(0, q);
      RootOfZero();
      CongAdd(PowerSum(e, n - 1), n - 1, Root(e * (n - 1)), 1);
    }
  }

  // ---------- the inverse transform ----------

  /** The first `n` terms of output `j` of the inverse of the transform of `m` inputs. */
  function Back(x: seq<int>, m: nat, j: nat, n: nat): int
    requires j < 256
  {
    if n == 0 then 0 else Back(x, m, j, n - 1) + Direct(x, 0, 1, m, 1, n - 1) * Root((n - 1) * (256 - j))
  }

  lemma {:induction false} BackOfOneMore(x: seq<int>, m: nat, j: nat, n: nat)
    requires j < 256 && m > 0
    ensures Back(x, m, j, n) == Back(x, m - 1, j, n) + At(x, m - 1) * PowerSum(m - 1 + 256 - j, n)
    decreases n
  {
    hide Root, At, Term, Direct;
    if n > 0 {
      var i, k, w := n - 1, m - 1, m - 1 + 256 - j;
      BackOfOneMore(x, m, j, i);
      DirectNext(x, m, i);
      TermIs(x, 0, 1, 1, i, k, k, i * k);
      RootAdd(i * k, i * (256 - j));
      assert i * k + i * (256 - j) == w * i;
      Spread(Direct(x, 0, 1, k, 1, i), At(x, k), Root(i * k), Root(i * (256 - j)));
      assert At(x, k) * (PowerSum(w, i) + Root(w * i)) == At(x, k) * PowerSum(w, i) + At(x, k) * Root(w * i);
    }
  }

  lemma DirectNext(x: seq<int>, m: nat, i: nat)
    requires m > 0
    ensures Direct(x, 0, 1, m, 1, i) == Direct(x, 0, 1, m - 1, 1, i) + Term(x, 0, 1, 1, i, m - 1)
  {
  }

  lemma Spread(d: int, v: int, r: int, t: int)
    ensures (d + v * r) * t == d * t + v * (r * t)
  {
  }

  lemma {:induction false} BackIsInput(x: seq<int>, m: nat, j: nat)
    requires j < 256 && m <= 256
    ensures Cong(Back(x, m, j, 256), if j < m then -At(x, j) else 0)
    decreases m
  {
    hide Root, At, Direct, Back, PowerSum, Cong;
    if m == 0 {
      NothingBack(x, j, 256);
      CongFrom(0, 0, 0);
    } else {
      BackIsInput(x, m - 1, j);
      BackOfOneMore(x, m, j, 256);
      var v, e := At(x, m - 1), m - 1 + 256 - j;
      if m - 1 == j {
        PowersAreOne(e, 256);
        CongFrom(256, -1, 1);
        CongTrans(PowerSum(e, 256), 256, -1);
        CongFrom(v, v, 0);
        CongMul(v, v, PowerSum(e, 256), -1);
        CongAdd(Back(x, m - 1, j, 256), 0, v * PowerSum(e, 256), v * -1);
      } else {
        EightDoublings();
        PowersCancel(e, 256, 8);
        TimesZero(v, PowerSum(e, 256));
        CongAdd(Back(x, m - 1, j, 256), if j < m - 1 then -At(x, j) else 0, v * PowerSum(e, 256), 0);
      }
    }
  }

  lemma EightDoublings()
    ensures Two(8) == 256
  {
    assert Two(4) == 16;
  }

  lemma {:induction false} NothingBack(x: seq<int>, j: nat, n: nat)
    requires j < 256
    ensures Back(x, 0, j, n) == 0
  {
    hide Root;
    if n > 0 {
      NothingBack(x, j, n - 1);
      assert Direct(x, 0, 1, 0, 1, n - 1) == 0;
    }
  }

  /** The sum of the outputs times 41^(-i * j) is minus input `j`, and zero in the padding. */
  lemma InverseTransform(x: seq<int>, j: nat)
    requires |x| == 128 && j < 256
    ensures Cong(Back(x, 128, j, 256), if j < 128 then -x[j] else 0)
  {
    BackIsInput(x, 128, j);
  }

  // ---------- no two blocks have the same outputs ----------

  lemma {:induction false} BackAgrees(x: seq<int>, y: seq<int>, j: nat, n: nat)
    requires j < 256 && n <= 256 && forall i: nat :: i < 256 ==> Cong(Dft(x, i), Dft(y, i))
    ensures Cong(Back(x, 128, j, n), Back(y, 128, j, n))
    decreases n
  {
    hide Root, Direct, Cong;
    if n == 0 {
      CongFrom(0, 0, 0);
    } else {
      BackAgrees(x, y, j, n - 1);
      var r := Root((n - 1) * (256 - j));
      CongFrom(r, r, 0);
      assert Cong(Dft(x, n - 1), Dft(y, n - 1));
      CongMul(Dft(x, n - 1), Dft(y, n - 1), r, r);
      CongAdd(Back(x, 128, j, n - 1), Back(y, 128, j, n - 1), Dft(x, n - 1) * r, Dft(y, n - 1) * r);
    }
  }

  /** Two blocks of 128 bytes with congruent outputs are the same block. */
  lemma TransformIsOneToOne(x: seq<int>, y: seq<int>)
    requires |x| == |y| == 128 && forall j :: 0 <= j < 128 ==> 0 <= x[j] < 256 && 0 <= y[j] < 256
    requires forall i: nat :: i < 256 ==> Cong(Dft(x, i), Dft(y, i))
    ensures x == y
  {
    hide Dft, Back;
    forall j | 0 <= j < 128
      ensures x[j] == y[j]
    {
      BackAgrees(x, y, j, 256);
      InverseTransform(x, j);
      InverseTransform(y, j);
    }
  }

  /** So the outputs of the block transform, offsets included, determine the bytes. */
  lemma OutputsDetermineBlock(x: seq<int>, y: seq<int>, q: seq<F.s32>, yoff: seq<int>)
    requires |x| == |y| == 128 && forall j :: 0 <= j < 128 ==> 0 <= x[j] < 256 && 0 <= y[j] < 256
    requires |q| == |yoff| == 256
    requires forall i: nat :: i < 256 ==> F.Centred(q[i], Dft(x, i) + yoff[i])
    requires forall i: nat :: i < 256 ==> F.Centred(q[i], Dft(y, i) + yoff[i])
    ensures x == y
  {
    hide Dft;
    forall i: nat | i < 256
      ensures Cong(Dft(x, i), Dft(y, i))
    {
      assert F.Centred(q[i], Dft(x, i) + yoff[i]) && F.Centred(q[i], Dft(y, i) + yoff[i]);
      CongSym(q[i] as int, Dft(x, i) + yoff[i]);
      CongTrans(Dft(x, i) + yoff[i], q[i] as int, Dft(y, i) + yoff[i]);
    }
    TransformIsOneToOne(x, y);
  }
}
