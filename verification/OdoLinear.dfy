/**
 The linear layer of OdoCrypt (`ApplyRotations`) and why `Decrypt` may undo it by
 applying it again: over the two-element field the layer is a sum of commuting
 maps, so squaring it squares each summand, and six squarings turn every bit
 rotation into the identity.
 */
module OdoLinear {
  import opened Words

  const STATE_SIZE: nat := 10

  type State = seq<Bits>

  predicate IsState(s: State) {
    |s| == 10 && forall i :: 0 <= i < 10 ==> IsWord(s[i])
  }

  predicate AreRotations(rs: seq<nat>) {
    forall j :: 0 <= j < |rs| ==> rs[j] < 64
  }

  /** The exclusive-or of the copies of `x` rotated by each of `rs`. */
  function Mix(x: Bits, rs: seq<nat>): (y: Bits)
    requires AreRotations(rs)
    ensures IsWord(y)
  {
    if rs == [] then Zero()
    else Xor(Mix(x, rs[..|rs| - 1]), Rot(x, rs[|rs| - 1]))
  }

  /** Position `i + d`, counted cyclically over the words of a state. */
  function Ahead(i: nat, d: nat): (j: nat)
    requires i < 10 && d < 10
    ensures j < 10
  {
    if i + d < 10 then i + d else i + d - 10
  }

  /** The layer with word shift `d`; the source applies it with `d == 1`. */
  function Linear(s: State, d: nat, rs: seq<nat>): (t: State)
    requires IsState(s) && d < 10 && AreRotations(rs)
    ensures IsState(t)
  {
    seq(10, i requires 0 <= i < 10 => Xor(s[Ahead(i, d)], Mix(s[i], rs)))
  }

  function Iterate(s: State, d: nat, rs: seq<nat>, n: nat): (t: State)
    requires IsState(s) && d < 10 && AreRotations(rs)
    ensures IsState(t)
    decreases |rs|, n
  {
    if n == 0 then s else Iterate(Linear(s, d, rs), d, rs, n - 1)
  }

  /** A pure shift of the words by `d` places. */
  function Shift(s: State, d: nat): (t: State)
    requires IsState(s) && d < 10
    ensures IsState(t)
  {
    seq(10, i requires 0 <= i < 10 => s[Ahead(i, d)])
  }

  function Twice(rs: seq<nat>): (ss: seq<nat>)
    requires AreRotations(rs)
    ensures AreRotations(ss) && |ss| == |rs|
  {
    seq(|rs|, j requires 0 <= j < |rs| => AddRot(rs[j], rs[j]))
  }

  /** Every rotation count doubled, `k` times over. */
  function Double(rs: seq<nat>, k: nat): (ss: seq<nat>)
    requires AreRotations(rs)
    ensures AreRotations(ss) && |ss| == |rs|
    decreases k
  {
    if k == 0 then rs else Double(Twice(rs), k - 1)
  }

  /** The word shift doubled, `k` times over. */
  function DoubleShift(d: nat, k: nat): (e: nat)
    requires d < 10
    ensures e < 10
    decreases k
  {
    if k == 0 then d else DoubleShift(Ahead(d, d), k - 1)
  }

  // ---------- the algebra of one word ----------

  lemma XorCancel(a: Bits, b: Bits, c: Bits)
    ensures Xor(Xor(a, b), Xor(b, c)) == Xor(a, c)
  {
  }

  lemma XorSwap(a: Bits, b: Bits, c: Bits, d: Bits)
    ensures Xor(Xor(a, b), Xor(c, d)) == Xor(Xor(a, c), Xor(b, d))
  {
  }

  lemma {:induction false} MixXor(x: Bits, y: Bits, rs: seq<nat>)
    requires IsWord(x) && IsWord(y) && AreRotations(rs)
    ensures Mix(Xor(x, y), rs) == Xor(Mix(x, rs), Mix(y, rs))
  {
    if rs == [] {
    } else {
      var q, r := rs[..|rs| - 1], rs[|rs| - 1];
      MixXor(x, y, q);
      RotXor(x, y, r);
      XorSwap(Mix(x, q), Mix(y, q), Rot(x, r), Rot(y, r));
    }
  }

  lemma {:induction false} MixRot(x: Bits, r: nat, rs: seq<nat>)
    requires IsWord(x) && AreRotations(rs)
    requires r < 64
    ensures Mix(Rot(x, r), rs) == Rot(Mix(x, rs), r)
  {
    if rs == [] {
      RotXor(Zero(), Zero(), r);
      assert Xor(Zero(), Zero()) == Zero();
    } else {
      var q, t := rs[..|rs| - 1], rs[|rs| - 1];
      MixRot(x, r, q);
      RotXor(Mix(x, q), Rot(x, t), r);
      RotCompose(x, r, t);
      RotCompose(x, t, r);
    }
  }

  lemma {:induction false} MixSquare(x: Bits, rs: seq<nat>)
    requires IsWord(x) && AreRotations(rs)
    ensures Mix(Mix(x, rs), rs) == Mix(x, Twice(rs))
  {
    if rs == [] {
    } else {
      var q, r := rs[..|rs| - 1], rs[|rs| - 1];
      var m := Mix(x, q);
      calc {
        Mix(Mix(x, rs), rs);
        Xor(Mix(Xor(m, Rot(x, r)), q), Rot(Xor(m, Rot(x, r)), r));
        { MixXor(m, Rot(x, r), q); RotXor(m, Rot(x, r), r); }
        Xor(Xor(Mix(m, q), Mix(Rot(x, r), q)), Xor(Rot(m, r), Rot(Rot(x, r), r)));
        { MixRot(x, r, q); XorCancel(Mix(m, q), Rot(m, r), Rot(Rot(x, r), r)); }
        Xor(Mix(m, q), Rot(Rot(x, r), r));
        { MixSquare(x, q); RotCompose(x, r, r); }
        Xor(Mix(x, Twice(q)), Rot(x, AddRot(r, r)));
        { assert Twice(rs)[..|rs| - 1] == Twice(q); }
        Mix(x, Twice(rs));
      }
    }
  }

  lemma {:induction false} MixZeros(x: Bits, rs: seq<nat>)
    requires IsWord(x) && AreRotations(rs)
    requires forall j :: 0 <= j < |rs| ==> rs[j] == 0
    ensures Mix(x, rs) == if |rs| % 2 == 0 then Zero() else x
  {
    if rs == [] {
    } else {
      MixZeros(x, rs[..|rs| - 1]);
      assert Xor(Zero(), x) == x && Xor(x, x) == Zero();
    }
  }

  // ---------- the algebra of the layer ----------

  lemma WordSquare(a: Bits, b: Bits, c: Bits, rs: seq<nat>)
    requires IsWord(a) && IsWord(b) && IsWord(c) && AreRotations(rs)
    ensures Xor(Xor(a, Mix(b, rs)), Mix(Xor(b, Mix(c, rs)), rs)) == Xor(a, Mix(c, Twice(rs)))
  {
    MixXor(b, Mix(c, rs), rs);
    MixSquare(c, rs);
    XorCancel(a, Mix(b, rs), Mix(c, Twice(rs)));
  }

  lemma LinearAt(s: State, d: nat, rs: seq<nat>, i: nat)
    requires IsState(s) && d < 10 && AreRotations(rs) && i < 10
    ensures Linear(s, d, rs)[i] == Xor(s[Ahead(i, d)], Mix(s[i], rs))
  {
  }

  lemma LinearSquareAt(s: State, d: nat, rs: seq<nat>, i: nat)
    requires IsState(s) && d < 10 && AreRotations(rs) && i < 10
    ensures Linear(Linear(s, d, rs), d, rs)[i] == Linear(s, Ahead(d, d), Twice(rs))[i]
  {
    hide Mix, Xor, Twice, Linear;
    var t, j := Linear(s, d, rs), Ahead(i, d);
    LinearAt(t, d, rs, i);
    LinearAt(s, d, rs, i);
    LinearAt(s, d, rs, j);
    LinearAt(s, Ahead(d, d), Twice(rs), i);
    assert Ahead(j, d) == Ahead(i, Ahead(d, d));
    WordSquare(s[Ahead(j, d)], s[j], s[i], rs);
  }

  lemma LinearSquare(s: State, d: nat, rs: seq<nat>)
    requires IsState(s) && d < 10 && AreRotations(rs)
    ensures Linear(Linear(s, d, rs), d, rs) == Linear(s, Ahead(d, d), Twice(rs))
  {
    var left, right := Linear(Linear(s, d, rs), d, rs), Linear(s, Ahead(d, d), Twice(rs));
    forall i | 0 <= i < 10
      ensures left[i] == right[i]
    {
      LinearSquareAt(s, d, rs, i);
    }
  }

  lemma {:induction false} IterateSquare(s: State, d: nat, rs: seq<nat>, n: nat)
    requires IsState(s) && d < 10 && AreRotations(rs)
    ensures Iterate(s, d, rs, 2 * n) == Iterate(s, Ahead(d, d), Twice(rs), n)
    decreases n
  {
    hide Linear, Twice, Ahead, IsState, AreRotations;
    if n > 0 {
      var t := Linear(s, d, rs);
      var u := Linear(t, d, rs);
      LinearSquare(s, d, rs);
      assert Iterate(s, d, rs, 2 * n) == Iterate(t, d, rs, 2 * n - 1) == Iterate(u, d, rs, 2 * (n - 1));
      IterateSquare(u, d, rs, n - 1);
    }
  }

  /** Squaring the layer `k` times doubles its word shift and rotations `k` times. */
  lemma {:induction false} IteratePower(s: State, d: nat, rs: seq<nat>, k: nat, n: nat)
    requires IsState(s) && d < 10 && AreRotations(rs)
    ensures Iterate(s, d, rs, Pow2(k) * n) == Iterate(s, DoubleShift(d, k), Double(rs, k), n)
    decreases k
  {
    hide Linear, Twice, Ahead, IsState, AreRotations;
    if k > 0 {
      assert Pow2(k) * n == 2 * (Pow2(k - 1) * n);
      IterateSquare(s, d, rs, Pow2(k - 1) * n);
      IteratePower(s, Ahead(d, d), Twice(rs), k - 1, n);
    }
  }

  function TwiceCount(r: nat, k: nat): (c: nat)
    requires r < 64
    ensures c < 64
    decreases k
  {
    if k == 0 then r else TwiceCount(AddRot(r, r), k - 1)
  }

  lemma {:induction false} DoubleAt(rs: seq<nat>, k: nat, j: nat)
    requires AreRotations(rs) && j < |rs|
    ensures Double(rs, k)[j] == TwiceCount(rs[j], k)
    decreases k
  {
    if k > 0 {
      DoubleAt(Twice(rs), k - 1, j);
    }
  }

  function Carry(r: nat): (e: nat)
    requires r < 64
    ensures AddRot(r, r) == 2 * r - 64 * e
  {
    if r + r < 64 then 0 else 1
  }

  /** Six doublings take every rotation count to a multiple of WORD_BITS. */
  lemma SixDoublings(r: nat)
    requires r < 64
    ensures TwiceCount(r, 6) == 0
  {
    hide AddRot, Carry;
    var r1 := AddRot(r, r);
    var r2 := AddRot(r1, r1);
    var r3 := AddRot(r2, r2);
    var r4 := AddRot(r3, r3);
    var r5 := AddRot(r4, r4);
    var r6 := AddRot(r5, r5);
    assert r6 == 64 * (r - 32 * Carry(r) - 16 * Carry(r1) - 8 * Carry(r2) - 4 * Carry(r3) - 2 * Carry(r4) - Carry(r5));
    assert TwiceCount(r, 6) == TwiceCount(r3, 3) == r6;
  }

  lemma DoubleSixTimes(rs: seq<nat>)
    requires AreRotations(rs)
    ensures forall j :: 0 <= j < |rs| ==> Double(rs, 6)[j] == 0
  {
    forall j | 0 <= j < |rs|
      ensures Double(rs, 6)[j] == 0
    {
      DoubleAt(rs, 6, j);
      SixDoublings(rs[j]);
    }
  }

  /** With an even number of identity rotations only the word shift is left. */
  lemma LinearShift(s: State, d: nat, rs: seq<nat>)
    requires IsState(s) && d < 10 && AreRotations(rs)
    requires |rs| % 2 == 0 && forall j :: 0 <= j < |rs| ==> rs[j] == 0
    ensures Linear(s, d, rs) == Shift(s, d)
  {
    forall i | 0 <= i < 10
      ensures Linear(s, d, rs)[i] == Shift(s, d)[i]
    {
      MixZeros(s[i], rs);
      var w := s[Ahead(i, d)];
      assert Xor(w, Zero()) == w;
    }
  }

  /** WORD_BITS applications of the layer amount to a pure shift of the words. */
  lemma WordBitsIterationsShift(s: State, rs: seq<nat>)
    requires IsState(s) && AreRotations(rs) && |rs| % 2 == 0
    ensures Iterate(s, 1, rs, WORD_BITS) == Shift(s, WORD_BITS % STATE_SIZE)
  {
    var zs := Double(rs, 6);
    assert Pow2(6) * 1 == 64 && DoubleShift(1, 6) == 4;
    IteratePower(s, 1, rs, 6, 1);
    DoubleSixTimes(rs);
    LinearShift(s, 4, zs);
    assert Iterate(Linear(s, 4, zs), 4, zs, 0) == Linear(s, 4, zs);
  }

  lemma {:induction false} IterateAdd(s: State, d: nat, rs: seq<nat>, m: nat, n: nat)
    requires IsState(s) && d < 10 && AreRotations(rs)
    ensures Iterate(s, d, rs, m + n) == Iterate(Iterate(s, d, rs, m), d, rs, n)
    decreases m
  {
    if m > 0 {
      IterateAdd(Linear(s, d, rs), d, rs, m - 1, n);
    }
  }

  /** Five such shifts by four of the ten words bring every word back. */
  lemma FiveWordBitsIterations(s: State, rs: seq<nat>)
    requires IsState(s) && AreRotations(rs) && |rs| % 2 == 0
    ensures Iterate(s, 1, rs, 320) == s
  {
    var s1 := Shift(s, 4);
    var s2 := Shift(s1, 4);
    var s3 := Shift(s2, 4);
    var s4 := Shift(s3, 4);
    WordBitsIterationsShift(s, rs);
    WordBitsIterationsShift(s1, rs);
    WordBitsIterationsShift(s2, rs);
    WordBitsIterationsShift(s3, rs);
    WordBitsIterationsShift(s4, rs);
    IterateAdd(s, 1, rs, 64, 64);
    IterateAdd(s, 1, rs, 128, 64);
    IterateAdd(s, 1, rs, 192, 64);
    IterateAdd(s, 1, rs, 256, 64);
    assert Shift(s4, 4) == s;
  }

  /** The layer has order dividing STATE_SIZE * WORD_BITS. */
  lemma IterateOrder(s: State, rs: seq<nat>)
    requires IsState(s) && AreRotations(rs) && |rs| % 2 == 0
    ensures Iterate(s, 1, rs, STATE_SIZE * WORD_BITS) == s
  {
    FiveWordBitsIterations(s, rs);
    IterateAdd(s, 1, rs, 320, 320);
  }

  /** So STATE_SIZE * WORD_BITS - 1 further applications undo one. */
  lemma LinearInverse(s: State, rs: seq<nat>)
    requires IsState(s) && AreRotations(rs) && |rs| % 2 == 0
    ensures Iterate(Linear(s, 1, rs), 1, rs, STATE_SIZE * WORD_BITS - 1) == s
  {
    IterateOrder(s, rs);
  }
}
