/**
 SIMD's transform of a 128-byte block, in place on an array of 32-bit words. The
 word type admits only values that fit, so verification of the bodies is also the
 proof that no intermediate overflows.
 */
module SimdFft {
  import opened Words
  import opened AlphaTable
  import opened SimdSpectrum

  newtype s32 = v: int | -0x8000_0000 <= v < 0x8000_0000

  // ---------- the lazy reductions ----------

  /** `REDS1`: low byte minus the rest. */
  function Reds1(x: s32): (r: s32)
    ensures Cong(r as int, x as int)
    ensures -32768 <= x <= 98302 ==> -383 <= r <= 383
  {
    var r := x % 256 - x / 256;
    CongFrom(r as int, x as int, -(x as int / 256));
    r
  }

  /** `REDS2`: low half plus the rest. */
  function Reds2(x: s32): (r: s32)
    ensures Cong(r as int, x as int)
    ensures -32768 <= r <= 98302
  {
    var r := x % 65536 + x / 65536;
    CongFrom(r as int, x as int, -255 * (x as int / 65536));
    r
  }

  // ---------- what a stretch of the array holds ----------

  /** Entries `rb` to `rb + n - 1` hold the outputs of a transform modulo 257. */
  predicate Holds(q: seq<s32>, rb: nat, n: nat, x: seq<int>, b: nat, s: nat, m: nat, e: nat)
    requires rb + n <= |q|
  {
    forall i: nat | i < n :: Cong(q[rb + i] as int, Direct(x, b, s, m, e, i))
  }

  predicate Within(q: seq<s32>, rb: nat, n: nat, bound: int)
    requires rb + n <= |q|
  {
    forall k | rb <= k < rb + n :: -bound <= q[k] as int <= bound
  }

  predicate SameOutside(q: seq<s32>, p: seq<s32>, rb: nat, n: nat) {
    |q| == |p| && forall k | 0 <= k < |q| && !(rb <= k < rb + n) :: q[k] == p[k]
  }

  // ---------- FFT_LOOP ----------

  /** A merge of two transforms of length `hk` over the inputs of `x` at `b`, `b + s`, ...,
      2 * m of them, into the transform of length `2 * hk` at `rb`, root 41^e. */
  datatype Merge = Merge(rb: nat, hk: nat, x: seq<int>, b: nat, s: nat, m: nat, e: nat, bound: int)

  predicate IsMerge(g: Merge, p: seq<s32>) {
    && g.rb + 2 * g.hk <= |p| && g.hk > 0 && g.e * g.hk == 128 && 98302 <= g.bound <= 8388607
    && Holds(p, g.rb, g.hk, g.x, g.b, 2 * g.s, g.m, 2 * g.e)
    && Holds(p, g.rb + g.hk, g.hk, g.x, g.b + g.s, 2 * g.s, g.m, 2 * g.e)
    && Within(p, g.rb, 2 * g.hk, g.bound)
  }

  predicate IsOutput(v: s32, g: Merge, i: nat) {
    Cong(v as int, Direct(g.x, g.b, g.s, 2 * g.m, g.e, i)) && -2 * g.bound <= v as int <= 2 * g.bound
  }

  /** Butterfly `i` is done, or not yet begun. */
  predicate DoneAt(q: seq<s32>, g: Merge, i: nat)
    requires g.rb + 2 * g.hk <= |q| && i < g.hk
  {
    IsOutput(q[g.rb + i], g, i) && IsOutput(q[g.rb + i + g.hk], g, i + g.hk)
  }

  predicate KeptAt(q: seq<s32>, p: seq<s32>, g: Merge, i: nat)
    requires g.rb + 2 * g.hk <= |q| == |p| && i < g.hk
  {
    q[g.rb + i] == p[g.rb + i] && q[g.rb + i + g.hk] == p[g.rb + i + g.hk]
  }

  predicate Merged(q: seq<s32>, p: seq<s32>, g: Merge, u: nat) {
    && g.rb + 2 * g.hk <= |q| && u <= g.hk
    && SameOutside(q, p, g.rb, 2 * g.hk)
    && (forall i: nat | i < u :: DoneAt(q, g, i))
    && (forall i: nat | u <= i < g.hk :: KeptAt(q, p, g, i))
  }

  lemma TwiddleFits(n: s32, v: nat, bound: int)
    requires v < 256 && -bound <= n as int <= bound && 0 <= bound <= 8388607
    ensures 0 <= AlphaTab(v) <= 256
    ensures -0x8000_0000 <= n as int * AlphaTab(v) < 0x8000_0000
  {
    hide AlphaTab;
    AlphaIsRoot(v);
    Magnitude(n as int, AlphaTab(v), bound);
  }

  lemma Magnitude(k: int, a: int, bound: int)
    requires -bound <= k <= bound && 0 <= a <= 256
    ensures -bound * 256 <= k * a <= bound * 256
  {
    assert k * a <= bound * a <= bound * 256;
    assert -bound * 256 <= -bound * a <= k * a;
  }

  predicate FitsWord(n: int, v: nat)
    requires v < 256
  {
    -0x8000_0000 <= n * AlphaTab(v) < 0x8000_0000
  }

  /** The loop's products fit a signed word exactly for bounds up to 8388607: the
      comment above the macro allows one more, where 256 * 8388608 does not fit. */
  lemma LoopBoundExact(bound: int)
    requires bound >= 0
    ensures (forall n: int, v: nat | -bound <= n <= bound && v < 256 :: FitsWord(n, v)) <==> bound <= 8388607
  {
    hide AlphaTab;
    if bound <= 8388607 {
      forall n: int, v: nat | -bound <= n <= bound && v < 256
        ensures FitsWord(n, v)
      {
        AlphaIsRoot(v);
        Magnitude(n, AlphaTab(v), bound);
      }
    } else {
      assert AlphaTab(128) == 256 by { AlphaHalfTurn(); }
      assert !FitsWord(8388608, 128);
    }
  }

  lemma AlphaHalfTurn()
    ensures AlphaTab(128) == 256
  {
    assert RowAt(8) == Row8();
  }

  lemma SmallTwiddle(e: nat, u: nat, hk: nat)
    requires u < hk && e * hk == 128
    ensures e * u < 128
  {
    assert e > 0;
    assert e * hk == e * u + e * (hk - u);
    assert e * (hk - u) > 0;
  }

  /** The product with the table entry is congruent to the root times the odd output. */
  lemma Twiddled(n: s32, v: nat, odd: int)
    requires v < 256 && -0x8000_0000 <= n as int * AlphaTab(v) < 0x8000_0000
    requires Cong(n as int, odd)
    ensures Cong(Reds2((n as int * AlphaTab(v)) as s32) as int, Root(v) * odd)
  {
    hide Reds2, Root, Cong, AlphaTab;
    var a, k := AlphaTab(v), n as int;
    AlphaIsRoot(v);
    CongMul(a, Root(v), k, odd);
    assert a * k == k * a;
    CongTrans(Reds2((k * a) as s32) as int, k * a, Root(v) * odd);
  }

  /** Butterfly `u`: the sum and difference of its inputs are the merged outputs. */
  lemma ButterflyOutputs(p: seq<s32>, g: Merge, u: nat, t: s32)
    requires IsMerge(g, p) && u < g.hk
    requires Cong(t as int, Root(g.e * u) * Direct(g.x, g.b + g.s, 2 * g.s, g.m, 2 * g.e, u))
    requires -g.bound <= t as int <= g.bound
    ensures -g.bound <= p[g.rb + u] as int <= g.bound
    ensures IsOutput(p[g.rb + u] + t, g, u) && IsOutput(p[g.rb + u] - t, g, u + g.hk)
  {
    hide Direct, Cong, Root;
    Butterfly(g.x, g.b, g.s, g.m, g.e, g.hk, u, p[g.rb + u] as int, t as int);
  }

  /** Storing the two outputs of butterfly `u` moves the frontier on. */
  lemma MergedStep(q: seq<s32>, p: seq<s32>, g: Merge, u: nat, lo: s32, hi: s32)
    requires Merged(q, p, g, u) && u < g.hk
    requires IsOutput(lo, g, u) && IsOutput(hi, g, u + g.hk)
    ensures Merged(q[g.rb + u := lo][g.rb + u + g.hk := hi], p, g, u + 1)
  {
    hide IsOutput;
    var q' := q[g.rb + u := lo][g.rb + u + g.hk := hi];
    forall i: nat | i < u + 1
      ensures DoneAt(q', g, i)
    {
      if i < u {
        assert DoneAt(q, g, i);
      }
    }
    forall i: nat | u + 1 <= i < g.hk
      ensures KeptAt(q', p, g, i)
    {
      assert KeptAt(q, p, g, i);
    }
  }

  predicate OutputAt(q: seq<s32>, g: Merge, i: nat)
    requires g.rb + i < |q|
  {
    IsOutput(q[g.rb + i], g, i)
  }

  lemma MergedAll(q: seq<s32>, p: seq<s32>, g: Merge)
    requires Merged(q, p, g, g.hk)
    ensures SameOutside(q, p, g.rb, 2 * g.hk)
    ensures Holds(q, g.rb, 2 * g.hk, g.x, g.b, g.s, 2 * g.m, g.e) && Within(q, g.rb, 2 * g.hk, 2 * g.bound)
  {
    hide Direct, Cong;
    forall i: nat | i < 2 * g.hk
      ensures OutputAt(q, g, i)
    {
      if i < g.hk {
        assert DoneAt(q, g, i);
      } else {
        assert DoneAt(q, g, i - g.hk);
      }
    }
    assert forall i: nat | i < 2 * g.hk :: OutputAt(q, g, i) ==>
      Cong(q[g.rb + i] as int, Direct(g.x, g.b, g.s, 2 * g.m, g.e, i));
    forall k | g.rb <= k < g.rb + 2 * g.hk
      ensures -2 * g.bound <= q[k] as int <= 2 * g.bound
    {
      assert OutputAt(q, g, k - g.rb);
    }
  }

  /** One butterfly with the table's twiddle factor. */
  method ButterflyAt(q: array<s32>, rb: nat, hk: nat, u: nat, v: nat, ghost p: seq<s32>, ghost g: Merge)
    requires IsMerge(g, p) && rb == g.rb && hk == g.hk && u < hk && v == g.e * u
    requires Merged(q[..], p, g, u)
    modifies q
    ensures Merged(q[..], p, g, u + 1)
  {
    hide Direct, Root, Cong, AlphaTab, Reds2, IsOutput, Merged;
    ghost var before := q[..];
    SmallTwiddle(g.e, u, hk);
    MergedHere(before, p, g, u);
    var m, n := q[rb + u], q[rb + u + hk];
    TwiddleFits(n, v, g.bound);
    var t := Reds2(n * AlphaTab(v) as s32);
    Twiddled(n, v, Direct(g.x, g.b + g.s, 2 * g.s, g.m, 2 * g.e, u));
    ButterflyOutputs(p, g, u, t);
    q[rb + u] := m + t;
    q[rb + u + hk] := m - t;
    MergedStep(before, p, g, u, m + t, m - t);
  }

  lemma MergedHere(q: seq<s32>, p: seq<s32>, g: Merge, u: nat)
    requires IsMerge(g, p) && Merged(q, p, g, u) && u < g.hk
    ensures |q| == |p| && q[g.rb + u] == p[g.rb + u] && q[g.rb + u + g.hk] == p[g.rb + u + g.hk]
    ensures -g.bound <= q[g.rb + u] as int <= g.bound && -g.bound <= q[g.rb + u + g.hk] as int <= g.bound
    ensures Cong(q[g.rb + u + g.hk] as int, Direct(g.x, g.b + g.s, 2 * g.s, g.m, 2 * g.e, u))
  {
    hide Direct, Cong, IsOutput;
    assert KeptAt(q, p, g, u);
    assert g.rb + u + g.hk == g.rb + g.hk + u;
  }

  /** The butterfly before the loop proper: the twiddle factor is one, so the odd
      input is neither multiplied nor reduced. */
  method FirstButterfly(q: array<s32>, rb: nat, hk: nat, ghost g: Merge)
    requires IsMerge(g, q[..]) && rb == g.rb && hk == g.hk
    modifies q
    ensures Merged(q[..], old(q[..]), g, 1)
  {
    hide Direct, Cong, IsOutput;
    ghost var p := q[..];
    var m, n := q[rb], q[rb + hk];
    assert g.rb + g.hk + 0 == rb + hk;
    assert Root(g.e * 0) == 1;
    assert Merged(p, p, g, 0);
    MergedHere(p, p, g, 0);
    ButterflyOutputs(p, g, 0, n);
    q[rb] := m + n;
    q[rb + hk] := m - n;
    MergedStep(p, p, g, 0, m + n, m - n);
  }

  lemma Steps(a: nat, u: nat)
    ensures a * (u + 1) == a * u + a && a * (u + 2) == a * u + 2 * a
    ensures a * (u + 3) == a * u + 3 * a && a * (u + 4) == a * u + 4 * a
  {
  }

  /** `FFT_LOOP`. Its first butterfly is entered past the multiplication, by the `goto`. */
  method FftLoop(q: array<s32>, rb: nat, hk: nat, as_: nat, ghost g: Merge)
    requires rb + 2 * hk <= q.Length && hk > 0 && hk % 4 == 0
    requires IsMerge(g, q[..]) && rb == g.rb && hk == g.hk && as_ == g.e
    modifies q
    ensures Holds(q[..], rb, 2 * hk, g.x, g.b, g.s, 2 * g.m, as_)
    ensures Within(q[..], rb, 2 * hk, 2 * g.bound)
    ensures SameOutside(q[..], old(q[..]), rb, 2 * hk)
  {
    hide IsMerge, Merged, Holds, Within, SameOutside;
    ghost var p := q[..];
    FirstButterfly(q, rb, hk, g);
    var u, v := 0, 0;
    Steps(as_, u);
    ButterflyAt(q, rb, hk, u + 1, v + 1 * as_, p, g);
    ButterflyAt(q, rb, hk, u + 2, v + 2 * as_, p, g);
    ButterflyAt(q, rb, hk, u + 3, v + 3 * as_, p, g);
    u, v := u + 4, v + 4 * as_;
    while u < hk
      invariant u <= hk && u % 4 == 0 && v == as_ * u
      invariant Merged(q[..], p, g, u)
    {
      Steps(as_, u);
      ButterflyAt(q, rb, hk, u, v + 0 * as_, p, g);
      ButterflyAt(q, rb, hk, u + 1, v + 1 * as_, p, g);
      ButterflyAt(q, rb, hk, u + 2, v + 2 * as_, p, g);
      ButterflyAt(q, rb, hk, u + 3, v + 3 * as_, p, g);
      u, v := u + 4, v + 4 * as_;
    }
    MergedAll(q[..], p, g);
  }

  // ---------- FFT8 ----------

  /** 4^j modulo 257, as a signed power of two. */
  function Eighth(j: nat): int {
    if j >= 4 then -Eighth(j - 4) else if j == 0 then 1 else if j == 1 then 4 else if j == 2 then 16 else 64
  }

  lemma {:induction false} EighthIsRoot(j: nat)
    ensures Cong(Root(32 * j), Eighth(j))
  {
    if j >= 4 {
      EighthIsRoot(j - 4);
      RootHalfTurn(32 * (j - 4));
      CongAdd(0, 0, Root(32 * (j - 4)), Eighth(j - 4));
      CongTrans(Root(32 * j), -Root(32 * (j - 4)), Eighth(j));
    } else if j == 0 {
    } else {
      AlphaIsRoot(32 * j);
      assert AlphaTab(32) == 4 && AlphaTab(64) == 16 && AlphaTab(96) == 64 by {
        assert RowAt(2) == Row2() && RowAt(4) == Row4() && RowAt(6) == Row6();
      }
      CongSym(Eighth(j), Root(32 * j));
    }
  }

  lemma EighthTerm(x: seq<int>, b: nat, s: nat, i: nat, k: nat)
    ensures Cong(Term(x, b, s, 32, i, k), Eighth(i * k) * At(x, b + k * s))
  {
    hide Eighth, Root, At;
    var v := At(x, b + k * s);
    assert 32 * i * k == 32 * (i * k);
    EighthIsRoot(i * k);
    CongFrom(v, v, 0);
    CongMul(Root(32 * i * k), Eighth(i * k), v, v);
  }

  /** Four inputs: output `i` of the length-eight transform. */
  lemma DirectFour(x: seq<int>, b: nat, s: nat, i: nat)
    ensures Cong(Direct(x, b, s, 4, 32, i),
                 At(x, b) + Eighth(i) * At(x, b + s) + Eighth(2 * i) * At(x, b + 2 * s)
                   + Eighth(3 * i) * At(x, b + 3 * s))
  {
    hide Eighth, Term, At, Cong;
    EighthTerm(x, b, s, i, 0);
    EighthTerm(x, b, s, i, 1);
    EighthTerm(x, b, s, i, 2);
    EighthTerm(x, b, s, i, 3);
    assert Eighth(i * 0) == 1 by { EighthZero(); }
    var t0, t1, t2, t3 := At(x, b), Eighth(i) * At(x, b + s), Eighth(2 * i) * At(x, b + 2 * s),
      Eighth(3 * i) * At(x, b + 3 * s);
    assert b + 0 * s == b && b + 1 * s == b + s && i * 0 == 0 && i * 1 == i && i * 2 == 2 * i && i * 3 == 3 * i;
    CongAdd(Term(x, b, s, 32, i, 0), t0, Term(x, b, s, 32, i, 1), t1);
    CongAdd(Term(x, b, s, 32, i, 0) + Term(x, b, s, 32, i, 1), t0 + t1, Term(x, b, s, 32, i, 2), t2);
    CongAdd(Term(x, b, s, 32, i, 0) + Term(x, b, s, 32, i, 1) + Term(x, b, s, 32, i, 2), t0 + t1
      + t2, Term(x, b, s, 32, i, 3), t3);
    DirectUnrolled(x, b, s, i);
  }

  lemma EighthZero()
    ensures Eighth(0) == 1
  {
  }

  lemma DirectUnrolled(x: seq<int>, b: nat, s: nat, i: nat)
    ensures Direct(x, b, s, 4, 32, i)
         == Term(x, b, s, 32, i, 0) + Term(x, b, s, 32, i, 1) + Term(x, b, s, 32, i, 2) + Term(x, b, s, 32, i, 3)
  {
    hide Term;
    assert Direct(x, b, s, 1, 32, i) == Term(x, b, s, 32, i, 0);
    assert Direct(x, b, s, 2, 32, i) == Direct(x, b, s, 1, 32, i) + Term(x, b, s, 32, i, 1);
    assert Direct(x, b, s, 3, 32, i) == Direct(x, b, s, 2, 32, i) + Term(x, b, s, 32, i, 2);
  }

  /** The length-eight outputs as signed powers of four times the inputs. */
  function Plain(i: nat, x0: int, x1: int, x2: int, x3: int): int {
    x0 + Eighth(i) * x1 + Eighth(2 * i) * x2 + Eighth(3 * i) * x3
  }

  lemma PlainOutputs(x0: int, x1: int, x2: int, x3: int)
    ensures Plain(0, x0, x1, x2, x3) == x0 + x1 + x2 + x3
    ensures Plain(1, x0, x1, x2, x3) == x0 + 4 * x1 + 16 * x2 + 64 * x3
    ensures Plain(2, x0, x1, x2, x3) == x0 + 16 * x1 - x2 - 16 * x3
    ensures Plain(3, x0, x1, x2, x3) == x0 + 64 * x1 - 16 * x2 + 4 * x3
    ensures Plain(4, x0, x1, x2, x3) == x0 - x1 + x2 - x3
    ensures Plain(5, x0, x1, x2, x3) == x0 - 4 * x1 + 16 * x2 - 64 * x3
    ensures Plain(6, x0, x1, x2, x3) == x0 - 16 * x1 - x2 + 16 * x3
    ensures Plain(7, x0, x1, x2, x3) == x0 - 64 * x1 - 16 * x2 - 4 * x3
  {
    assert Eighth(4) == -1 && Eighth(5) == -4 && Eighth(6) == -16 && Eighth(7) == -64;
    assert Eighth(8) == 1 && Eighth(9) == 4 && Eighth(10) == 16 && Eighth(12) == -1 && Eighth(14) == -16;
    assert Eighth(15) == -Eighth(11) == Eighth(7);
    assert Eighth(18) == -Eighth(14) && Eighth(21) == -Eighth(17) == Eighth(13) == -Eighth(9);
  }

  /** The output ranges stated above the macro. */
  predicate Fft8Range(d: seq<s32>) {
    && |d| == 8
    && 0 <= d[0] <= 1020 && -67 <= d[1] <= 4587 && -4335 <= d[2] <= 4335 && -4147 <= d[3] <= 507
    && -510 <= d[4] <= 510 && -252 <= d[5] <= 4402 && -4335 <= d[6] <= 4335 && -4332 <= d[7] <= 322
  }

  predicate Fft8Holds(d: seq<s32>, x: seq<int>, b: nat, s: nat) {
    && |d| == 8
    && forall i: nat | i < 8 :: Cong(d[i] as int, Direct(x, b, s, 4, 32, i))
  }

  /** `REDS1((lo << 2) + (hi << 6))` of two bytes. */
  function Folded(lo: s32, hi: s32): (r: s32)
    requires IsByte(lo) && IsByte(hi)
    ensures -67 <= r <= 252
    ensures Cong(r as int, 4 * (lo as int) + 64 * (hi as int))
  {
    var v := lo * 4 + hi * 64;
    assert 0 <= v / 256 <= 67 && v % 256 == 4 * ((lo + hi * 16) % 64);
    Reds1(v)
  }

  predicate IsByte(x: s32) {
    0 <= x < 256
  }

  lemma PlainIsDirect(x: seq<int>, b: nat, s: nat, i: nat, v: int)
    requires Cong(v, Plain(i, At(x, b), At(x, b + s), At(x, b + 2 * s), At(x, b + 3 * s)))
    ensures Cong(v, Direct(x, b, s, 4, 32, i))
  {
    hide Eighth, At, Cong;
    var plain := Plain(i, At(x, b), At(x, b + s), At(x, b + 2 * s), At(x, b + 3 * s));
    DirectFour(x, b, s, i);
    CongSym(Direct(x, b, s, 4, 32, i), plain);
    CongTrans(v, plain, Direct(x, b, s, 4, 32, i));
  }

  lemma Fft8Ranges(x0: s32, x1: s32, x2: s32, x3: s32, b1: s32, b3: s32)
    requires IsByte(x0) && IsByte(x1) && IsByte(x2) && IsByte(x3)
    requires -67 <= b1 <= 252 && -67 <= b3 <= 252
    ensures Fft8Range([x0 + x2 + (x1 + x3), x0 + x2 * 16 + b1, x0 - x2 + (x1 * 16 - x3 * 16), x0 - x2 * 16 + b3,
                       x0 + x2 - (x1 + x3), x0 + x2 * 16 - b1, x0 - x2 - (x1 * 16 - x3 * 16), x0 - x2 * 16 - b3])
  {
  }

  method Fft8(x: array<Byte>, xb: nat, xs: nat) returns (d: seq<s32>)
    requires xb + 3 * xs < x.Length
    ensures Fft8Range(d) && Fft8Holds(d, x[..], xb, xs)
  {
    hide Direct, Cong, Fft8Range, Fft8Holds, Folded;
    var x0, x1, x2, x3 := x[xb] as s32, x[xb + xs] as s32, x[xb + 2 * xs] as s32, x[xb + 3 * xs] as s32;
    var a0 := x0 + x2;
    var a1 := x0 + x2 * 16;
    var a2 := x0 - x2;
    var a3 := x0 - x2 * 16;
    var b0 := x1 + x3;
    var b1 := Folded(x1, x3);
    var b2 := x1 * 16 - x3 * 16;
    var b3 := Folded(x3, x1);
    d := [a0 + b0, a1 + b1, a2 + b2, a3 + b3, a0 - b0, a1 - b1, a2 - b2, a3 - b3];
    Fft8Outputs(x[..], xb, xs, x0, x1, x2, x3, b1, b3);
    Fft8Ranges(x0, x1, x2, x3, b1, b3);
  }

  lemma Fft8Outputs(x: seq<int>, b: nat, s: nat, x0: s32, x1: s32, x2: s32, x3: s32, b1: s32, b3: s32)
    requires b + 3 * s < |x| && IsByte(x0) && IsByte(x1) && IsByte(x2) && IsByte(x3)
    requires x[b] == x0 as int && x[b + s] == x1 as int && x[b + 2 * s] == x2 as int && x[b + 3 * s] == x3 as int
    requires Cong(b1 as int, 4 * (x1 as int) + 64 * (x3 as int)) && -1000 < b1 < 1000
    requires Cong(b3 as int, 4 * (x3 as int) + 64 * (x1 as int)) && -1000 < b3 < 1000
    ensures Fft8Holds([x0 + x2 + (x1 + x3), x0 + x2 * 16 + b1, x0 - x2 + (x1 * 16 - x3 * 16), x0 - x2 * 16 + b3,
                       x0 + x2 - (x1 + x3), x0 + x2 * 16 - b1, x0 - x2 - (x1 * 16 - x3 * 16), x0 - x2 * 16 - b3], x, b,
                         s)
  {
    hide Direct, Eighth, Plain, Cong;
    var y0, y1, y2, y3 := x0 as int, x1 as int, x2 as int, x3 as int;
    PlainOutputs(y0, y1, y2, y3);
    forall v: int
      ensures Cong(v, v)
    {
      CongFrom(v, v, 0);
    }
    CongAdd(y0 + 16 * y2, y0 + 16 * y2, b1 as int, 4 * y1 + 64 * y3);
    CongAdd(y0 - 16 * y2, y0 - 16 * y2, b3 as int, 64 * y1 + 4 * y3);
    PlainIsDirect(x, b, s, 0, y0 + y2 + (y1 + y3));
    PlainIsDirect(x, b, s, 1, y0 + 16 * y2 + b1 as int);
    PlainIsDirect(x, b, s, 2, y0 - y2 + (16 * y1 - 16 * y3));
    PlainIsDirect(x, b, s, 3, y0 - 16 * y2 + b3 as int);
    PlainIsDirect(x, b, s, 4, y0 + y2 - (y1 + y3));
    PlainIsDirect(x, b, s, 5, y0 + 16 * y2 - b1 as int);
    PlainIsDirect(x, b, s, 6, y0 - y2 - (16 * y1 - 16 * y3));
    PlainIsDirect(x, b, s, 7, y0 - 16 * y2 - b3 as int);
  }

  // ---------- FFT16 ----------

  lemma {:induction false} SixteenthIsRoot(i: nat)
    ensures Cong(Pow2(i), Root(16 * i))
  {
    if i == 0 {
    } else {
      hide Root;
      SixteenthIsRoot(i - 1);
      AlphaIsRoot(16);
      assert AlphaTab(16) == 2 by {
        assert RowAt(1) == Row1();
      }
      RootAdd(16, 16 * (i - 1));
      CongMul(2, Root(16), Pow2(i - 1), Root(16 * (i - 1)));
    }
  }

  /** Outputs `i` and `i + 8` hold the sum and the difference, the odd part shifted by `i`. */
  predicate Fft16At(q: seq<s32>, rb: nat, d1: seq<s32>, d2: seq<s32>, i: nat)
    requires rb + 16 <= |q| && |d1| == |d2| == 8 && i < 8
  {
    && q[rb + i] as int == d1[i] as int + d2[i] as int * Pow2(i)
    && q[rb + i + 8] as int == d1[i] as int - d2[i] as int * Pow2(i)
  }

  lemma Sixteenth(x: seq<int>, xb: nat, xs: nat, q: seq<s32>, rb: nat, d1: seq<s32>, d2: seq<s32>, i: nat)
    requires i < 8 && rb + 16 <= |q|
    requires Fft8Holds(d1, x, xb, 2 * xs) && Fft8Holds(d2, x, xb + xs, 2 * xs) && Fft16At(q, rb, d1, d2, i)
    ensures Cong(q[rb + i] as int, Direct(x, xb, xs, 8, 16, i))
    ensures Cong(q[rb + (i + 8)] as int, Direct(x, xb, xs, 8, 16, i + 8))
  {
    hide Direct, Root, Cong, Pow2;
    var odd, t := Direct(x, xb + xs, 2 * xs, 4, 32, i), d2[i] as int * Pow2(i);
    SixteenthIsRoot(i);
    CongMul(Pow2(i), Root(16 * i), d2[i] as int, odd);
    assert Pow2(i) * d2[i] as int == t;
    Butterfly(x, xb, xs, 4, 16, 8, i, d1[i] as int, t);
  }

  lemma Fft16Outputs(x: seq<int>, xb: nat, xs: nat, q: seq<s32>, rb: nat, d1: seq<s32>, d2: seq<s32>)
    requires rb + 16 <= |q| && |d1| == |d2| == 8
    requires Fft8Holds(d1, x, xb, 2 * xs) && Fft8Holds(d2, x, xb + xs, 2 * xs)
    requires forall i: nat | i < 8 :: Fft16At(q, rb, d1, d2, i)
    ensures Holds(q, rb, 16, x, xb, xs, 8, 16)
  {
    hide Direct, Cong, Fft8Holds;
    forall i: nat | i < 16
      ensures Cong(q[rb + i] as int, Direct(x, xb, xs, 8, 16, i))
    {
      var j := if i < 8 then i else i - 8;
      assert Fft16At(q, rb, d1, d2, j);
      Sixteenth(x, xb, xs, q, rb, d1, d2, j);
    }
  }

  /** The macro's sixteen values. */
  function Fft16Of(d1: seq<s32>, d2: seq<s32>): (r: seq<s32>)
    requires Fft8Range(d1) && Fft8Range(d2)
    ensures |r| == 16 && forall i :: 0 <= i < 16 ==> -591471 <= r[i] <= 591723
  {
    [d1[0] + d2[0], d1[1] + d2[1] * 2, d1[2] + d2[2] * 4, d1[3] + d2[3] * 8,
     d1[4] + d2[4] * 16, d1[5] + d2[5] * 32, d1[6] + d2[6] * 64, d1[7] + d2[7] * 128,
     d1[0] - d2[0], d1[1] - d2[1] * 2, d1[2] - d2[2] * 4, d1[3] - d2[3] * 8,
     d1[4] - d2[4] * 16, d1[5] - d2[5] * 32, d1[6] - d2[6] * 64, d1[7] - d2[7] * 128]
  }

  lemma Fft16OfAt(d1: seq<s32>, d2: seq<s32>)
    requires Fft8Range(d1) && Fft8Range(d2)
    ensures forall i: nat | i < 8 :: Fft16At(Fft16Of(d1, d2), 0, d1, d2, i)
  {
    hide Pow2;
    Pow2Values();
    var r := Fft16Of(d1, d2);
    assert Fft16At(r, 0, d1, d2, 0) && Fft16At(r, 0, d1, d2, 1) && Fft16At(r, 0, d1, d2, 2) && Fft16At(r, 0, d1, d2, 3);
    assert Fft16At(r, 0, d1, d2, 4) && Fft16At(r, 0, d1, d2, 5) && Fft16At(r, 0, d1, d2, 6) && Fft16At(r, 0, d1, d2, 7);
  }

  lemma Pow2Values()
    ensures Pow2(0) == 1 && Pow2(1) == 2 && Pow2(2) == 4 && Pow2(3) == 8
    ensures Pow2(4) == 16 && Pow2(5) == 32 && Pow2(6) == 64 && Pow2(7) == 128
  {
  }

  /** The macro's stores to consecutive entries. */
  method Store(q: array<s32>, rb: nat, values: seq<s32>)
    requires rb + |values| <= q.Length
    modifies q
    ensures q[rb..rb + |values|] == values && SameOutside(q[..], old(q[..]), rb, |values|)
  {
    forall k | 0 <= k < |values| {
      q[rb + k] := values[k];
    }
  }

  method Fft16(x: array<Byte>, xb: nat, xs: nat, q: array<s32>, rb: nat)
    requires xb + 7 * xs < x.Length && rb + 16 <= q.Length
    modifies q
    ensures Holds(q[..], rb, 16, x[..], xb, xs, 8, 16)
    ensures forall k | rb <= k < rb + 16 :: -591471 <= q[k] <= 591723
    ensures SameOutside(q[..], old(q[..]), rb, 16)
  {
    hide Direct, Cong, Fft8Holds, Holds, Pow2;
    var d1 := Fft8(x, xb, 2 * xs);
    var d2 := Fft8(x, xb + xs, 2 * xs);
    Store(q, rb, Fft16Of(d1, d2));
    Fft16Done(x[..], xb, xs, q[..], rb, d1, d2);
  }

  lemma Fft16Done(x: seq<int>, xb: nat, xs: nat, q: seq<s32>, rb: nat, d1: seq<s32>, d2: seq<s32>)
    requires rb + 16 <= |q| && Fft8Range(d1) && Fft8Range(d2)
    requires Fft8Holds(d1, x, xb, 2 * xs) && Fft8Holds(d2, x, xb + xs, 2 * xs)
    requires q[rb..rb + 16] == Fft16Of(d1, d2)
    ensures Holds(q, rb, 16, x, xb, xs, 8, 16)
    ensures forall k | rb <= k < rb + 16 :: -591471 <= q[k] <= 591723
  {
    hide Direct, Cong, Fft8Holds, Holds, Pow2, Fft16Of;
    var r := q[rb..rb + 16];
    assert forall i: nat | i < 16 :: q[rb + i] == r[i];
    Fft16OfAt(d1, d2);
    forall i: nat | i < 8
      ensures Fft16At(q, rb, d1, d2, i)
    {
      assert Fft16At(r, 0, d1, d2, i);
      assert r[0 + i] == q[rb + i] && r[0 + i + 8] == q[rb + (i + 8)];
    }
    Fft16Outputs(x, xb, xs, q, rb, d1, d2);
    assert forall k | rb <= k < rb + 16 :: q[k] == r[k - rb];
  }

  // ---------- the longer transforms ----------

  /** What holds of a stretch survives changes elsewhere. */
  lemma Untouched(q: seq<s32>, p: seq<s32>, rb: nat, n: nat, at: nat, len: nat, bound: int,
                  x: seq<int>, b: nat, s: nat, m: nat, e: nat)
    requires |q| == |p| && rb + n <= |p| && at + len <= |p| && (rb + n <= at || at + len <= rb)
    requires SameOutside(q, p, at, len)
    requires Holds(p, rb, n, x, b, s, m, e) && Within(p, rb, n, bound)
    ensures Holds(q, rb, n, x, b, s, m, e) && Within(q, rb, n, bound)
  {
    hide Direct, Cong;
    assert forall k | rb <= k < rb + n :: q[k] == p[k];
  }

  method Fft32(x: array<Byte>, xb: nat, xs: nat, q: array<s32>, rb: nat)
    requires xb + 15 * xs < x.Length && rb + 32 <= q.Length
    modifies q
    ensures Holds(q[..], rb, 32, x[..], xb, xs, 16, 8) && Within(q[..], rb, 32, 1183446)
    ensures SameOutside(q[..], old(q[..]), rb, 32)
  {
    hide Holds, Direct, Cong;
    Fft16(x, xb, 2 * xs, q, rb);
    ghost var p := q[..];
    Fft16(x, xb + xs, 2 * xs, q, rb + 16);
    Untouched(q[..], p, rb, 16, rb + 16, 16, 591723, x[..], xb, 2 * xs, 8, 16);
    FftLoop(q, rb, 16, 8, Merge(rb, 16, x[..], xb, xs, 8, 8, 591723));
  }

  method Fft64(x: array<Byte>, xb: nat, xs: nat, q: array<s32>, rb: nat)
    requires xb + 31 * xs < x.Length && rb + 64 <= q.Length
    modifies q
    ensures Holds(q[..], rb, 64, x[..], xb, xs, 32, 4) && Within(q[..], rb, 64, 2366892)
    ensures SameOutside(q[..], old(q[..]), rb, 64)
  {
    hide Holds, Direct, Cong;
    var xd := 2 * xs;
    Fft32(x, xb, xd, q, rb);
    ghost var p := q[..];
    Fft32(x, xb + xs, xd, q, rb + 32);
    Untouched(q[..], p, rb, 32, rb + 32, 32, 1183446, x[..], xb, xd, 16, 8);
    FftLoop(q, rb, 32, 4, Merge(rb, 32, x[..], xb, xs, 16, 4, 1183446));
  }

  /** One half of `FFT256`: two calls of `fft64` and the loop over 128 entries. */
  method Fft128(x: array<Byte>, xb: nat, q: array<s32>, rb: nat)
    requires xb < 2 && x.Length == 128 && rb + 128 <= q.Length
    modifies q
    ensures Holds(q[..], rb, 128, x[..], xb, 2, 64, 2) && Within(q[..], rb, 128, 4733784)
    ensures SameOutside(q[..], old(q[..]), rb, 128)
  {
    hide Holds, Direct, Cong;
    Fft64(x, xb, 4, q, rb);
    ghost var p := q[..];
    Fft64(x, xb + 2, 4, q, rb + 64);
    Untouched(q[..], p, rb, 64, rb + 64, 64, 2366892, x[..], xb, 4, 32, 4);
    FftLoop(q, rb, 64, 2, Merge(rb, 64, x[..], xb, 2, 32, 2, 2366892));
  }

  /** `FFT256`: every entry is congruent to the direct transform of the block. */
  method Fft256(x: array<Byte>, q: array<s32>)
    requires x.Length == 128 && q.Length == 256
    modifies q
    ensures forall i: nat | i < 256 :: Cong(q[i] as int, Dft(x[..], i)) && -9467568 <= q[i] <= 9467568
  {
    hide Holds, Direct, Cong;
    Fft128(x, 0, q, 0);
    ghost var p := q[..];
    Fft128(x, 1, q, 128);
    Untouched(q[..], p, 0, 128, 128, 128, 4733784, x[..], 0, 2, 64, 2);
    FftLoop(q, 0, 128, 1, Merge(0, 128, x[..], 0, 1, 64, 1, 4733784));
    WholeBlock(q[..], x[..]);
  }

  lemma WholeBlock(q: seq<s32>, x: seq<int>)
    requires |q| == 256 && Holds(q, 0, 256, x, 0, 1, 128, 1)
    ensures forall i: nat | i < 256 :: Cong(q[i] as int, Dft(x, i))
  {
    hide Direct, Cong;
    forall i: nat | i < 256
      ensures Cong(q[i] as int, Dft(x, i))
    {
      assert q[0 + i] == q[i];
    }
  }

  // ---------- normalisation ----------

  /** The representative of `v` nearest zero; it is the only one in -128..128. */
  predicate Centred(r: s32, v: int) {
    Cong(r as int, v) && -128 <= r <= 128
  }

  lemma CentredUnique(r: s32, t: s32, v: int)
    requires Centred(r, v) && Centred(t, v)
    ensures r == t
  {
    CongSym(t as int, v);
    CongTrans(r as int, v, t as int);
    assert -257 < r as int - t as int < 257;
  }

  function Normalised(v: s32): (r: s32)
    ensures Centred(r, v as int)
  {
    var a := Reds2(v);
    var b := Reds1(a);
    var c := Reds1(b);
    CongTrans(b as int, a as int, v as int);
    CongTrans(c as int, b as int, v as int);
    assert -1 <= c <= 257;
    if c <= 128 then c
    else
      CongFrom(c as int - 257, c as int, -1);
      CongTrans(c as int - 257, c as int, v as int);
      c - 257
  }

  /** The transform and the offset loop of `compress_big`, for either offset table. */
  method TransformBlock(x: array<Byte>, q: array<s32>, yoff: seq<int>)
    requires x.Length == 128 && q.Length == 256
    requires |yoff| == 256 && forall i :: 0 <= i < 256 ==> 0 <= yoff[i] < 0x1_0000
    modifies q
    ensures forall i: nat | i < 256 :: Centred(q[i], Dft(x[..], i) + yoff[i])
  {
    hide Dft, Direct, Normalised, Cong;
    Fft256(x, q);
    ghost var p := q[..];
    for i := 0 to 256
      invariant forall k: nat | k < i :: Centred(q[k], Dft(x[..], k) + yoff[k])
      invariant forall k: nat | i <= k < 256 :: q[k] == p[k]
    {
      var tq := q[i] + yoff[i] as s32;
      OffsetCentred(Normalised(tq), p[i], yoff[i], Dft(x[..], i));
      q[i] := Normalised(tq);
    }
  }

  lemma OffsetCentred(r: s32, v: s32, off: int, dft: int)
    requires Centred(r, v as int + off) && Cong(v as int, dft)
    ensures Centred(r, dft + off)
  {
    CongFrom(off, off, 0);
    CongAdd(v as int, dft, off, off);
    CongTrans(r as int, v as int + off, dft + off);
  }
}
