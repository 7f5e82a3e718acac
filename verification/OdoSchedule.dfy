/**
 The key schedule of OdoCrypt position by position: which output of the plain linear
 congruential generator each part of the key is taken from, and what is made of it.
 */
module OdoSchedule {
  import opened Arithmetic
  import opened Words
  import opened OdoLayers
  import opened OdoRandom
  import opened OdoBits
  import opened OdoCrypt

  // ---------- draws ----------

  /** Outputs of the generator with Knuth's constants, one after the other. */
  ghost predicate IsStream(x: seq<nat>) {
    forall t :: 0 <= t < |x| - 1 ==> IsSuccessor(x[t], x[t + 1])
  }

  predicate IsSuccessor(x: nat, y: nat) {
    y == (x * 6364136223846793005 + 1442695040888963407) % 0x1_0000_0000_0000_0000
  }

  lemma {:induction false} StepsFollowStream(x: seq<nat>, t: nat, n: nat)
    requires IsStream(x) && t + n < |x|
    ensures LcgSteps(x[t], n) == x[t + n]
    decreases n
  {
    if n > 0 {
      assert IsSuccessor(x[t], x[t + 1]);
      StepsFollowStream(x, t + 1, n - 1);
    }
  }

  lemma {:induction false} TriangleIs(n: nat)
    ensures Triangle(n) == n * (n + 1) / 2 && n * (n + 1) % 2 == 0
  {
    if n > 0 {
      TriangleIs(n - 1);
      assert n * (n + 1) == (n - 1) * n + 2 * n;
    }
  }

  /** Draw number `n` is the upper half of output number 1 + 2 + ... + (n + 1). */
  lemma DrawIsOutput(x: seq<nat>, n: nat)
    requires |x| > 0 && IsStream(x) && (n + 1) * (n + 2) / 2 < |x|
    ensures (n + 1) * (n + 2) >= 0 && Draw(x[0], n) == x[(n + 1) * (n + 2) / 2] / 0x1_0000_0000
  {
    hide LcgSteps, Triangle, IsStream;
    TriangleIs(n + 1);
    StepsFollowStream(x, 0, Triangle(n + 1));
  }

  // ---------- shuffles ----------

  /** Step `n` exchanges place `n` with the place at or below it that the draw names. */
  predicate IsShuffleStep(s: seq<nat>, t: seq<nat>, n: nat, draw: nat)
    requires |s| == |t| && n < |s|
  {
    var j := draw * (n + 1) / 0x1_0000_0000;
    && j <= n && t[n] == s[j] && t[j] == s[n]
    && forall i :: 0 <= i < |s| && i != n && i != j ==> t[i] == s[i]
  }

  ghost predicate IsShuffleRun(u: seq<seq<nat>>, seed: nat, from: nat, size: nat) {
    && |u| == size > 0 && (forall n :: 0 <= n < size ==> |u[n]| == size)
    && (forall i :: 0 <= i < size ==> u[0][i] == i)
    && forall n: nat :: 0 < n < size ==>
        IsShuffleStep(u[n - 1], u[n], n, Draw(seed, from + n - 1))
  }

  /** The shuffle of Fisher and Yates, in increasing order of places. */
  lemma {:induction false} ShuffleFollowsRun(u: seq<seq<nat>>, seed: nat, from: nat, size: nat, n: nat)
    requires seed < 0x1_0000_0000_0000_0000 && IsShuffleRun(u, seed, from, size) && 0 < n <= size
    ensures Shuffle(seed, from, size, n) == u[n - 1]
  {
    hide Draw;
    if n > 1 {
      ShuffleFollowsRun(u, seed, from, size, n - 1);
      DrawBound(seed, from + (n - 1) - 1);
      assert IsShuffleStep(u[(n - 1) - 1], u[n - 1], n - 1, Draw(seed, from + (n - 1) - 1));
    }
  }

  // ---------- the parts of the key ----------

  lemma {:induction false} SmallBoxAt(seed: nat, n: nat, i: nat)
    requires seed < TWO64 && i < n
    ensures SmallBoxes(seed, n)[i] == Shuffle(seed, 63 * i, 64, 64)
  {
    hide Shuffle;
    if i < n - 1 {
      SmallBoxAt(seed, n - 1, i);
    }
  }

  lemma {:induction false} LargeBoxAt(seed: nat, n: nat, i: nat)
    requires seed < TWO64 && i < n
    ensures LargeBoxes(seed, n)[i] == Shuffle(seed, 2520 + 1023 * i, 1024, 1024)
  {
    hide Shuffle;
    if i < n - 1 {
      LargeBoxAt(seed, n - 1, i);
    }
  }

  /** First the forty small boxes with 63 draws each, then the ten large ones with 1023. */
  lemma BoxesAreShuffles(seed: nat)
    requires seed < 0x1_0000_0000_0000_0000
    ensures |KeyOf(seed).sbox1| == 40 && |KeyOf(seed).sbox2| == 10
    ensures forall i :: 0 <= i < 40 ==> KeyOf(seed).sbox1[i] == Shuffle(seed, 63 * i, 64, 64)
    ensures forall i :: 0 <= i < 10 ==> KeyOf(seed).sbox2[i] == Shuffle(seed, 2520 + 1023 * i, 1024, 1024)
  {
    hide Shuffle, SmallBoxes, LargeBoxes, PboxOf, ChosenRotations, RoundKeys, ArePermutations, IsPermutation;
    forall i | 0 <= i < 40
      ensures KeyOf(seed).sbox1[i] == Shuffle(seed, 63 * i, 64, 64)
    {
      SmallBoxAt(seed, 40, i);
    }
    forall i | 0 <= i < 10
      ensures KeyOf(seed).sbox2[i] == Shuffle(seed, 2520 + 1023 * i, 1024, 1024)
    {
      LargeBoxAt(seed, 10, i);
    }
  }

  /** Each mask word takes two draws, its upper half first. */
  lemma MaskBitIsDrawn(seed: nat, q: nat, j: nat, p: nat, b: nat)
    requires seed < 0x1_0000_0000_0000_0000 && q < 2 && j < 6 && p < 5 && b < 64
    ensures |KeyOf(seed).perm| == 2 && |KeyOf(seed).perm[q].mask| == 6 && |KeyOf(seed).perm[q].mask[j]| == 5
    ensures |KeyOf(seed).perm[q].mask[j][p]| == 64
    ensures
      var at := 12750 + 85 * q + 10 * j + 2 * p;
      KeyOf(seed).perm[q].mask[j][p][b] <==>
      (if b >= 32 then Draw(seed, at) / Pow2(b - 32) else Draw(seed, at + 1) / Pow2(b)) % 2 == 1
  {
    hide Shuffle, SmallBoxes, LargeBoxes, ChosenRotations, RoundKeys, ArePermutations, IsPermutation, Draw, FromNat,
      Pow2;
    var at := 12750 + 85 * q + 10 * j + 2 * p;
    assert KeyOf(seed).perm[q].mask[j][p] == FromNat(DrawLong(seed, at), 64);
    FromNatBit(DrawLong(seed, at), 64, b);
    DrawBound(seed, at);
    DrawBound(seed, at + 1);
    HalvesBit(Draw(seed, at), Draw(seed, at + 1), b);
  }

  lemma HalvesBit(hi: nat, lo: nat, b: nat)
    requires lo < TWO32 && b < 64
    ensures (hi * TWO32 + lo) / Pow2(b) % 2 == (if b >= 32 then hi / Pow2(b - 32) else lo / Pow2(b)) % 2
  {
    Pow2Of32();
    if b >= 32 {
      PowAdd(32, b - 32);
      hide Pow2;
      DivDiv(hi * TWO32 + lo, TWO32, Pow2(b - 32));
      DivMod(hi * TWO32 + lo, TWO32, hi, lo);
    } else {
      PowAdd(b, 31 - b);
      assert TWO32 == 2 * Pow2(31);
      hide Pow2;
      LowHalf(hi, lo, Pow2(b), Pow2(31 - b));
    }
  }

  lemma Pow2Of32()
    ensures Pow2(31) == 0x8000_0000 && Pow2(32) == 0x1_0000_0000
  {
    assert Pow2(10) == 1024;
    PowAdd(10, 10);
    PowAdd(20, 11);
    assert Pow2(11) == 2048;
    assert Pow2(32) == 2 * Pow2(31);
  }

  lemma LowHalf(hi: nat, lo: nat, p: nat, r: nat)
    requires p >= 1 && r >= 1 && TWO32 == 2 * (p * r)
    ensures (hi * TWO32 + lo) / p % 2 == lo / p % 2
  {
    var n := hi * r;
    assert hi * TWO32 == p * (2 * n) by {
      assert hi * (2 * (p * r)) == 2 * (p * (hi * r));
    }
    DivMod(hi * TWO32 + lo, p, 2 * n + lo / p, lo % p);
    SameRemainder(2 * n + lo / p, lo / p, 2, n);
  }

  /** The rotations of a P-box follow its masks and lie in 1..63. */
  lemma TurnsAreDrawn(seed: nat, q: nat, j: nat, p: nat)
    requires seed < 0x1_0000_0000_0000_0000 && q < 2 && j < 5 && p < 5
    ensures |KeyOf(seed).perm| == 2 && |KeyOf(seed).perm[q].rotation| == 5
    ensures |KeyOf(seed).perm[q].rotation[j]| == 5
    ensures KeyOf(seed).perm[q].rotation[j][p]
         == Draw(seed, 12750 + 85 * q + 60 + 5 * j + p) * 63 / 0x1_0000_0000 + 1
  {
    hide Shuffle, SmallBoxes, LargeBoxes, ChosenRotations, RoundKeys, ArePermutations, IsPermutation, Draw, MaskRow;
    var from := 12750 + 85 * q;
    assert KeyOf(seed).perm[q] == PboxOf(seed, from);
    assert PboxOf(seed, from).rotation[j] == TurnRow(seed, from + 60 + 5 * j);
    assert TurnRow(seed, from + 60 + 5 * j)[p] == Turn(seed, from + 60 + 5 * j + p);
  }

  /** The five first entries of the table and the first later one that makes the sum
      odd, each plus one. */
  predicate IsChoice(rs: seq<nat>, bits: seq<nat>, k: nat)
    requires |rs| == 6 && |bits| == 63
  {
    var sum := rs[0] + rs[1] + rs[2] + rs[3] + rs[4];
    && (forall j :: 0 <= j < 5 ==> rs[j] == bits[j] + 1)
    && 5 <= k < 63 && rs[5] == bits[k] + 1 && (sum + rs[5]) % 2 == 1
    && forall i :: 5 <= i < k ==> (sum + bits[i] + 1) % 2 == 0
  }

  lemma RotationsAreChosen(seed: nat)
    requires seed < 0x1_0000_0000_0000_0000
    ensures |KeyOf(seed).rotations| == 6
    ensures exists k :: IsChoice(KeyOf(seed).rotations, Shuffle(seed, 12920, 63, 63), k)
  {
    hide Shuffle, SmallBoxes, LargeBoxes, PboxOf, RoundKeys, ArePermutations, IsPermutation, ChosenRotations,
      IsChoice;
    ShuffleIsPermutation(seed, 12920, 63, 63);
    assert KeyOf(seed).rotations == ChosenRotations(Shuffle(seed, 12920, 63, 63));
    FirstOddChosen(Shuffle(seed, 12920, 63, 63));
  }

  lemma FirstOddChosen(bits: seq<nat>)
    requires IsPermutation(bits) && |bits| == 63
    ensures exists k :: IsChoice(ChosenRotations(bits), bits, k)
  {
    hide FirstRotations, Sum, FirstOdd, IsPermutation;
    var first := FirstRotations(bits, 5);
    SumOfFive(first);
    SearchStops(bits, Sum(first));
    var k := FirstOdd(bits, 5, Sum(first));
    assert ChosenRotations(bits) == first + [bits[k] + 1];
    ChoiceMade(first, bits, Sum(first), k);
  }

  lemma ChoiceMade(first: seq<nat>, bits: seq<nat>, sum: nat, k: nat)
    requires |first| == 5 && |bits| == 63 && sum == first[0] + first[1] + first[2] + first[3] + first[4]
    requires (forall j :: 0 <= j < 5 ==> first[j] == bits[j] + 1) && 5 <= k < 63 && (bits[k] + 1 + sum) % 2 == 1
    requires forall i :: 5 <= i < k ==> (bits[i] + 1 + sum) % 2 == 0
    ensures IsChoice(first + [bits[k] + 1], bits, k)
  {
    assert forall i :: 5 <= i < k ==> sum + bits[i] + 1 == bits[i] + 1 + sum;
  }

  lemma SumOfFive(s: seq<nat>)
    requires |s| == 5
    ensures Sum(s) == s[0] + s[1] + s[2] + s[3] + s[4]
  {
    assert Sum(s[..1]) == Sum(s[..1][..0]) + s[0];
    assert s[..2][..1] == s[..1] && s[..3][..2] == s[..2] && s[..4][..3] == s[..3];
    assert Sum(s[..2]) == Sum(s[..1]) + s[1];
    assert Sum(s[..3]) == Sum(s[..2]) + s[2];
    assert Sum(s[..4]) == Sum(s[..3]) + s[3];
  }

  /** The last 84 draws, ten bits each. */
  lemma RoundKeysAreDrawn(seed: nat)
    requires seed < 0x1_0000_0000_0000_0000
    ensures |KeyOf(seed).roundKey| == 84
    ensures forall i :: 0 <= i < 84 ==> KeyOf(seed).roundKey[i] == Draw(seed, 12982 + i) * 1024 / 0x1_0000_0000
  {
    hide Shuffle, SmallBoxes, LargeBoxes, PboxOf, ChosenRotations, ArePermutations, IsPermutation, Draw;
    forall i | 0 <= i < 84
      ensures KeyOf(seed).roundKey[i] == Draw(seed, 12982 + i) * 1024 / 0x1_0000_0000
    {
      assert KeyOf(seed).roundKey[i] == RoundKeys(seed)[i] == DrawBelow(seed, ROUND_KEY_DRAWS + i, 1024);
    }
  }
}
