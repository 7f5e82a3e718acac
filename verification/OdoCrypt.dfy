/**
 The OdoCrypt class: the key schedule and the in-place layers on an array of words,
 each proved against its function, so that `Decrypt` undoes `Encrypt` for every seed.
 */
module OdoCrypt {
  import opened Arithmetic
  import opened Words
  import opened OdoLinear
  import opened OdoLayers
  import opened OdoChain
  import opened OdoCipher
  import opened OdoRandom

  // ---------- the key that a seed determines ----------

  const PBOX_DRAWS: nat := 12750
  const ROTATION_DRAWS: nat := 12920
  const ROUND_KEY_DRAWS: nat := 12982

  function MaskRow(seed: nat, from: nat): (row: seq<Bits>)
    ensures |row| == 5
  {
    seq(5, (k: nat) => FromNat(DrawLong(seed, from + 2 * k), 64))
  }

  function Turn(seed: nat, n: nat): nat {
    DrawBelow(seed, n, 63) + 1
  }

  function TurnRow(seed: nat, from: nat): (row: seq<nat>)
    ensures |row| == 5
  {
    seq<nat>(5, (k: nat) => Turn(seed, from + k))
  }

  function PboxOf(seed: nat, from: nat): (p: Pbox)
    ensures |p.mask| == 6 && |p.rotation| == 5
  {
    Pbox(seq(6, (j: nat) => MaskRow(seed, from + 10 * j)), seq(5, (j: nat) => TurnRow(seed, from + 60 + 5 * j)))
  }

  function SmallBoxes(seed: nat, n: nat): (boxes: seq<seq<nat>>)
    requires seed < TWO64
    ensures |boxes| == n && ArePermutations(boxes, 64)
  {
    if n == 0 then []
    else
      ShuffleIsPermutation(seed, 63 * (n - 1), 64, 64);
      SmallBoxes(seed, n - 1) + [Shuffle(seed, 63 * (n - 1), 64, 64)]
  }

  function LargeBoxes(seed: nat, n: nat): (boxes: seq<seq<nat>>)
    requires seed < TWO64
    ensures |boxes| == n && ArePermutations(boxes, 1024)
  {
    if n == 0 then []
    else
      ShuffleIsPermutation(seed, 2520 + 1023 * (n - 1), 1024, 1024);
      LargeBoxes(seed, n - 1) + [Shuffle(seed, 2520 + 1023 * (n - 1), 1024, 1024)]
  }

  /** The first candidate from `j` on that makes the sum of the rotations odd. */
  function FirstOdd(bits: seq<nat>, j: nat, sum: nat): (k: nat)
    requires exists k :: j <= k < |bits| && (bits[k] + 1 + sum) % 2 == 1
    ensures j <= k < |bits| && (bits[k] + 1 + sum) % 2 == 1
    ensures forall i :: j <= i < k ==> (bits[i] + 1 + sum) % 2 == 0
    decreases |bits| - j
  {
    if (bits[j] + 1 + sum) % 2 == 1 then j else FirstOdd(bits, j + 1, sum)
  }

  function Sum(s: seq<nat>): nat {
    if s == [] then 0 else Sum(s[..|s| - 1]) + s[|s| - 1]
  }

  function FirstRotations(bits: seq<nat>, n: nat): (rs: seq<nat>)
    requires n <= |bits|
    ensures |rs| == n && forall j :: 0 <= j < n ==> rs[j] == bits[j] + 1
  {
    if n == 0 then [] else FirstRotations(bits, n - 1) + [bits[n - 1] + 1]
  }

  function ChosenRotations(bits: seq<nat>): (rs: seq<nat>)
    requires IsPermutation(bits) && |bits| == 63
    ensures |rs| == 6
  {
    var first := FirstRotations(bits, 5);
    SearchStops(bits, Sum(first));
    first + [bits[FirstOdd(bits, 5, Sum(first))] + 1]
  }

  function RoundKeys(seed: nat): (keys: seq<nat>)
    ensures |keys| == 84
  {
    seq<nat>(84, (i: nat) => DrawBelow(seed, ROUND_KEY_DRAWS + i, 1024))
  }

  function KeyOf(seed: nat): (k: Key)
    requires seed < TWO64
  {
    ShuffleIsPermutation(seed, ROTATION_DRAWS, 63, 63);
    Key(SmallBoxes(seed, 40), LargeBoxes(seed, 10),
        [PboxOf(seed, PBOX_DRAWS), PboxOf(seed, PBOX_DRAWS + 85)],
        ChosenRotations(Shuffle(seed, ROTATION_DRAWS, 63, 63)),
        RoundKeys(seed))
  }

  /** More distinct places than `n` cannot all lie below `n`. */
  lemma Pigeonhole(places: seq<nat>, n: nat)
    requires |places| > n && forall j, k :: 0 <= j < k < |places| ==> places[j] != places[k]
    ensures exists t :: 0 <= t < |places| && places[t] >= n
  {
    if forall t :: 0 <= t < |places| ==> places[t] < n {
      FewDistinct(places, n);
    }
  }

  /** The unbounded search for the last rotation always stops inside the table:
      there are more candidates of either parity than the five already taken. */
  lemma SearchStops(bits: seq<nat>, sum: nat)
    requires IsPermutation(bits) && |bits| == 63
    ensures exists k :: 5 <= k < |bits| && (bits[k] + 1 + sum) % 2 == 1
  {
    var c := if sum % 2 == 0 then 0 else 1;
    forall v: nat | v < 63
      ensures v in bits
    {
      PermutationCovers(bits, v);
    }
    SixPlaces(bits, c);
  }

  lemma SixPlaces(bits: seq<nat>, c: nat)
    requires IsPermutation(bits) && |bits| == 63 && c < 2
    requires forall v: nat :: v < 63 ==> v in bits
    ensures exists k :: 5 <= k < |bits| && bits[k] % 2 == c
  {
    hide IsPermutation;
    var places := [Find(bits, c), Find(bits, c + 2), Find(bits, c + 4), Find(bits, c + 6), Find(bits, c + 8),
      Find(bits, c + 10)];
    Pigeonhole(places, 5);
    var t :| 0 <= t < 6 && places[t] >= 5;
    assert bits[places[t]] == c + 2 * t;
  }

  /** The rotations are distinct, lie in 1..63 and have an odd sum. */
  lemma RotationsAreSound(bits: seq<nat>)
    requires IsPermutation(bits) && |bits| == 63
    ensures
      var rs := ChosenRotations(bits);
      && (forall j :: 0 <= j < 6 ==> 1 <= rs[j] <= 63)
      && (forall j, k :: 0 <= j < k < 6 ==> rs[j] != rs[k])
      && Sum(rs) % 2 == 1
  {
    var rs, first := ChosenRotations(bits), FirstRotations(bits, 5);
    assert rs[..5] == first;
    SearchStops(bits, Sum(first));
    assert Sum(rs) == Sum(first) + rs[5];
  }

  lemma PboxOfIsPbox(seed: nat, from: nat)
    requires seed < TWO64
    ensures IsPbox(PboxOf(seed, from))
  {
    var p := PboxOf(seed, from);
    forall j | 0 <= j < 5
      ensures AreTurns(p.rotation[j])
    {
      forall k | 0 <= k < 5
        ensures 0 < p.rotation[j][k] < 64
      {
        hide DrawBelow;
        DrawBelowBound(seed, from + 60 + 5 * j + k, 63);
      }
    }
  }

  /** Every seed gives a well-formed key. */
  lemma KeyOfIsKey(seed: nat)
    requires seed < TWO64
    ensures IsKey(KeyOf(seed))
  {
    hide PboxOf, IsPbox, DrawBelow, Shuffle, ChosenRotations, ArePermutations;
    PboxOfIsPbox(seed, PBOX_DRAWS);
    PboxOfIsPbox(seed, PBOX_DRAWS + 85);
    var bits := Shuffle(seed, ROTATION_DRAWS, 63, 63);
    ShuffleIsPermutation(seed, ROTATION_DRAWS, 63, 63);
    RotationsAreSound(bits);
  }

  // ---------- the layers, in place ----------

  method Unpack(state: array<Bits>, bytes: array<Byte>)
    requires state.Length == 10 && bytes.Length == 80
    modifies state
    ensures state[..] == Unpacked(bytes[..])
  {
    ghost var target := Unpacked(bytes[..]);
    for i := 0 to 10
      invariant forall k :: 0 <= k < i ==> state[k] == target[k]
    {
      state[i] := Zero();
      for j := 0 to 8
        invariant forall k :: 0 <= k < i ==> state[k] == target[k]
        invariant IsWord(state[i])
        invariant forall b :: 0 <= b < 64 ==> state[i][b] == (b < 8 * j && target[i][b])
      {
        hide Unpacked;
        UnpackByte(bytes[..], i, j, state[i]);
        state[i] := Or(state[i], Shl(FromNat(bytes[8 * i + j], 64), 8 * j));
      }
      assert state[i] == target[i];
    }
  }

  /** Filling byte `j` into a word that already holds the bytes below it. */
  lemma UnpackByte(bytes: seq<Byte>, i: nat, j: nat, word: Bits)
    requires |bytes| == 80 && i < 10 && j < 8 && IsWord(word)
    requires forall b :: 0 <= b < 64 ==> word[b] == (b < 8 * j && Unpacked(bytes)[i][b])
    ensures
      var next := Or(word, Shl(FromNat(bytes[8 * i + j], 64), 8 * j));
      IsWord(next) && forall b :: 0 <= b < 64 ==> next[b] == (b < 8 * (j + 1) && Unpacked(bytes)[i][b])
  {
    hide Unpacked, FromNat;
    var v := bytes[8 * i + j];
    var wide := FromNat(v, 64);
    var next := Or(word, Shl(wide, 8 * j));
    Pow2Values();
    FromNatConcat(v, 8, 56);
    UnpackedSlice(bytes, i, j);
    var target := Unpacked(bytes)[i];
    forall b | 0 <= b < 64
      ensures next[b] == (b < 8 * (j + 1) && target[b])
    {
      if 8 * j <= b < 8 * j + 8 {
        assert target[b] == target[8 * j..8 * j + 8][b - 8 * j];
        assert wide[b - 8 * j] == wide[..8][b - 8 * j];
      } else if b >= 8 * j + 8 {
        assert wide[b - 8 * j] == wide[8..][b - 8 * j - 8];
      }
    }
  }

  method Pack(state: array<Bits>, bytes: array<Byte>)
    requires state.Length == 10 && IsState(state[..]) && bytes.Length == 80
    modifies bytes
    ensures bytes[..] == Packed(state[..])
  {
    hide Packed, And, Shr, ToNat, FromNat, ByteOf, IsState;
    ghost var s := state[..];
    StateWords(s);
    for i := 0 to 10
      invariant state[..] == s
      invariant forall n :: 0 <= n < 8 * i ==> bytes[n] == Packed(s)[n]
    {
      for j := 0 to 8
        invariant state[..] == s
        invariant forall n :: 0 <= n < 8 * i + j ==> bytes[n] == Packed(s)[n]
      {
        LowByte(state[i], j);
        PackedAt(s, i, j);
        bytes[8 * i + j] := ToNat(And(Shr(state[i], 8 * j), FromNat(0xff, 64)));
      }
    }
  }

  lemma MaskedBit(x: Bits, mask: Bits, b: nat)
    requires b < 64
    ensures And(x, mask)[b] == (Bit(x, b) && Bit(mask, b))
  {
  }

  lemma ShiftedBit(x: Bits, at: nat, b: nat)
    requires b < 64
    ensures Bit(Shr(x, at), b) == Bit(x, b + at)
  {
  }

  /** Shifting and masking reads the number in a slice of the word. */
  lemma MaskedSlice(x: Bits, at: nat, width: nat)
    requires IsWord(x) && at + width <= 64 && (width == 6 || width == 8 || width == 10)
    ensures ToNat(And(Shr(x, at), FromNat(Pow2(width) - 1, 64))) == ToNat(x[at..at + width])
  {
    hide FromNat, ToNat, Pow2, And, Shr;
    var mask := FromNat(Pow2(width) - 1, 64);
    MaskBits(Pow2(width) - 1, width);
    var slice, zeros := x[at..at + width], ZeroBits(64 - width);
    var m := And(Shr(x, at), mask);
    forall b | 0 <= b < 64
      ensures m[b] == (slice + zeros)[b]
    {
      MaskedBit(Shr(x, at), mask, b);
      ShiftedBit(x, at, b);
    }
    assert m == slice + zeros;
    ToNatConcat(slice, zeros);
    ToNatZero(64 - width);
  }

  lemma LowByte(x: Bits, j: nat)
    requires IsWord(x) && j < 8
    ensures ToNat(And(Shr(x, 8 * j), FromNat(0xff, 64))) == ByteOf(x, j)
  {
    Pow2Values();
    MaskedSlice(x, 8 * j, 8);
  }

  method PreMix(state: array<Bits>)
    requires state.Length == 10 && IsState(state[..])
    modifies state
    ensures state[..] == PreMixed(old(state[..]))
  {
    ghost var s := state[..];
    var total := Zero();
    for i := 0 to 10
      invariant state[..] == s
      invariant total == Total(s, i)
    {
      total := Xor(total, state[i]);
    }
    total := Xor(total, Shr(total, 32));
    for i := 0 to 10
      invariant total == Folded(Total(s, 10))
      invariant forall k :: 0 <= k < 10 ==> state[k] == if k < i then PreMixed(s)[k] else s[k]
    {
      hide Total, Folded, Xor;
      state[i] := Xor(state[i], total);
    }
  }

  method ApplySboxes(state: array<Bits>, b1: seq<seq<nat>>, b2: seq<seq<nat>>)
    requires state.Length == 10 && IsState(state[..])
    requires |b1| == 40 && ArePermutations(b1, 64) && |b2| == 10 && ArePermutations(b2, 1024)
    modifies state
    ensures state[..] == Sboxes(old(state[..]), b1, b2)
  {
    hide ArePermutations, SboxWord, SboxPrefix, SmallEntry, LargeEntry, Sboxes, Or, And, Shl, Shr, FromNat, ToNat,
      IsState, Pow2;
    ghost var s := state[..];
    ghost var target := Sboxes(s, b1, b2);
    StateWords(s);
    StateWords(target);
    var smallSboxIndex := 0;
    for i := 0 to 10
      invariant smallSboxIndex == 4 * i
      invariant forall k :: 0 <= k < 10 ==> state[k] == if k < i then target[k] else s[k]
    {
      var next := Zero();
      var pos := 0;
      ghost var done: Bits := [];
      assert done == SboxPrefix(s[i], i, b1, b2, 0) by {
        SboxPrefixEmpty(s[i], i, b1, b2);
      }
      for j := 0 to 4
        invariant forall k :: 0 <= k < 10 ==> state[k] == if k < i then target[k] else s[k]
        invariant smallSboxIndex == 4 * i + j && pos == 16 * j
        invariant done == SboxPrefix(s[i], i, b1, b2, j)
        invariant next == done + ZeroBits(64 - pos)
      {
        SboxLookup(s[i], i, j, b1, b2);
        Pow2Values();
        var small := b1[smallSboxIndex][ToNat(And(Shr(state[i], pos), FromNat(63, 64)))];
        Placed(done, small, 6);
        next := Or(next, Shl(FromNat(small, 64), pos));
        pos := pos + 6;
        done := done + FromNat(small, 6);
        var large := b2[i][ToNat(And(Shr(state[i], pos), FromNat(1023, 64)))];
        Placed(done, large, 10);
        next := Or(next, Shl(FromNat(large, 64), pos));
        pos := pos + 10;
        done := done + FromNat(large, 10);
        smallSboxIndex := smallSboxIndex + 1;
        SboxPrefixExtends(s[i], i, b1, b2, j);
      }
      SboxPrefixWhole(s[i], i, b1, b2);
      assert next == done + [];
      state[i] := next;
      SboxesAt(s, i, b1, b2);
    }
  }

  lemma SboxesAt(s: State, i: nat, b1: seq<seq<nat>>, b2: seq<seq<nat>>)
    requires IsState(s) && i < 10
    requires |b1| == 40 && ArePermutations(b1, 64) && |b2| == 10 && ArePermutations(b2, 1024)
    ensures Sboxes(s, b1, b2)[i] == SboxWord(s[i], i, b1, b2)
  {
    hide SboxWord, ArePermutations;
  }

  lemma SboxPrefixExtends(x: Bits, i: nat, b1: seq<seq<nat>>, b2: seq<seq<nat>>, j: nat)
    requires IsWord(x) && i < 10 && j < 4
    requires |b1| == 40 && ArePermutations(b1, 64) && |b2| == 10 && ArePermutations(b2, 1024)
    ensures SboxPrefix(x, i, b1, b2, j + 1)
         == SboxPrefix(x, i, b1, b2, j) + FromNat(SmallEntry(x, i, b1, j), 6) + FromNat(LargeEntry(x, i, b2, j), 10)
  {
    hide SmallEntry, LargeEntry, FromNat, ArePermutations;
  }

  function SboxPrefix(x: Bits, i: nat, b1: seq<seq<nat>>, b2: seq<seq<nat>>, n: nat): (y: Bits)
    requires IsWord(x) && i < 10 && n <= 4
    requires |b1| == 40 && ArePermutations(b1, 64) && |b2| == 10 && ArePermutations(b2, 1024)
    ensures |y| == 16 * n
  {
    if n == 0 then [] else SboxPrefix(x, i, b1, b2, n - 1) + SboxPair(x, i, b1, b2, n - 1)
  }

  lemma SboxPrefixEmpty(x: Bits, i: nat, b1: seq<seq<nat>>, b2: seq<seq<nat>>)
    requires IsWord(x) && i < 10
    requires |b1| == 40 && ArePermutations(b1, 64) && |b2| == 10 && ArePermutations(b2, 1024)
    ensures SboxPrefix(x, i, b1, b2, 0) == []
  {
  }

  lemma SboxPrefixWhole(x: Bits, i: nat, b1: seq<seq<nat>>, b2: seq<seq<nat>>)
    requires IsWord(x) && i < 10
    requires |b1| == 40 && ArePermutations(b1, 64) && |b2| == 10 && ArePermutations(b2, 1024)
    ensures SboxPrefix(x, i, b1, b2, 4) == SboxWord(x, i, b1, b2)
  {
    hide SboxPair, ArePermutations;
    assert SboxPrefix(x, i, b1, b2, 1) == SboxPair(x, i, b1, b2, 0);
    assert SboxPrefix(x, i, b1, b2, 2) == SboxPrefix(x, i, b1, b2, 1) + SboxPair(x, i, b1, b2, 1);
    assert SboxPrefix(x, i, b1, b2, 3) == SboxPrefix(x, i, b1, b2, 2) + SboxPair(x, i, b1, b2, 2);
  }

  /** The shifted and masked word indexes the tables in range, at the right entry. */
  lemma SboxLookup(x: Bits, i: nat, j: nat, b1: seq<seq<nat>>, b2: seq<seq<nat>>)
    requires IsWord(x) && i < 10 && j < 4
    requires |b1| == 40 && ArePermutations(b1, 64) && |b2| == 10 && ArePermutations(b2, 1024)
    ensures
      var a := ToNat(And(Shr(x, 16 * j), FromNat(63, 64)));
      var b := ToNat(And(Shr(x, 16 * j + 6), FromNat(1023, 64)));
      && a < |b1[4 * i + j]| && b1[4 * i + j][a] == SmallEntry(x, i, b1, j)
      && b < |b2[i]| && b2[i][b] == LargeEntry(x, i, b2, j)
  {
    hide ToNat, FromNat, And, Shr;
    Pow2Values();
    MaskedSlice(x, 16 * j, 6);
    MaskedSlice(x, 16 * j + 6, 10);
    SliceBound(x, 16 * j, 6);
    SliceBound(x, 16 * j + 6, 10);
  }

  lemma StateWords(s: State)
    requires IsState(s)
    ensures |s| == 10 && forall i :: 0 <= i < 10 ==> IsWord(s[i])
  {
  }

  /** Or-ing a shifted table entry into the zero upper part of a word appends its bits. */
  lemma Placed(done: Bits, v: nat, width: nat)
    requires |done| + width <= 64 && (width == 6 || width == 10) && v < Pow2(width)
    ensures
      Or(done + ZeroBits(64 - |done|), Shl(FromNat(v, 64), |done|))
      == done + FromNat(v, width) + ZeroBits(64 - |done| - width)
  {
    FromNatConcat(v, width, 64 - width);
    var wide := FromNat(v, 64);
    assert wide == wide[..width] + wide[width..];
    PlacedBits(done, FromNat(v, width), wide);
  }

  lemma PlacedBits(done: Bits, slice: Bits, wide: Bits)
    requires |done| + |slice| <= 64 && wide == slice + ZeroBits(64 - |slice|)
    ensures Or(done + ZeroBits(64 - |done|), Shl(wide, |done|)) == done + slice + ZeroBits(64 - |done| - |slice|)
  {
    var left := Or(done + ZeroBits(64 - |done|), Shl(wide, |done|));
    var right := done + slice + ZeroBits(64 - |done| - |slice|);
    forall b | 0 <= b < 64
      ensures left[b] == right[b]
    {
      assert Shl(wide, |done|)[b] == Bit(wide, b - |done|);
    }
  }

  method ApplyMaskedSwaps(state: array<Bits>, mask: seq<Bits>)
    requires state.Length == 10 && IsState(state[..]) && |mask| == 5
    modifies state
    ensures state[..] == MaskedSwaps(old(state[..]), mask)
  {
    hide MaskedSwaps, Xor, And;
    ghost var s := state[..];
    ghost var target := MaskedSwaps(s, mask);
    for i := 0 to 5
      invariant forall k :: 0 <= k < 10 ==> state[k] == if k < 2 * i then target[k] else s[k]
    {
      var a, b := state[2 * i], state[2 * i + 1];
      var swp := And(mask[i], Xor(a, b));
      state[2 * i] := Xor(a, swp);
      state[2 * i + 1] := Xor(b, swp);
      MaskedSwapsAt(s, mask, i);
    }
  }

  method ApplyWordShuffle(state: array<Bits>, m: nat)
    requires state.Length == 10 && IsState(state[..]) && (m == PBOX_M || m == INV_PBOX_M)
    modifies state
    ensures state[..] == WordShuffle(old(state[..]), m)
  {
    ghost var s := state[..];
    ghost var target := WordShuffle(s, m);
    var next := new Bits[10];
    for i := 0 to 10
      invariant fresh(next) && state[..] == s
      invariant forall k :: 0 <= k < i ==> next[m * k % 10] == target[m * k % 10]
    {
      hide WordShuffle;
      WordShuffleMoves(s, m, i);
      next[m * i % 10] := state[i];
    }
    assert next[..] == target by {
      EveryPlaceReached(next[..], target, m);
    }
    forall k | 0 <= k < 10 {
      state[k] := next[k];
    }
  }

  lemma EveryPlaceReached(a: seq<Bits>, b: seq<Bits>, m: nat)
    requires |a| == |b| == 10 && (m == PBOX_M || m == INV_PBOX_M)
    requires forall k :: 0 <= k < 10 ==> a[m * k % 10] == b[m * k % 10]
    ensures a == b
  {
    forall j | 0 <= j < 10
      ensures a[j] == b[j]
    {
      InverseMultiplier(m, j);
    }
  }

  /** 3 and 7 are inverse modulo 10. */
  lemma InverseMultiplier(m: nat, j: nat)
    requires (m == PBOX_M || m == INV_PBOX_M) && j < 10
    ensures m * ((10 - m) * j % 10) % 10 == j
  {
    if m == PBOX_M {
      assert 3 * (7 * j % 10) % 10 == j;
    } else {
      assert 7 * (3 * j % 10) % 10 == j;
    }
  }

  method ApplyPboxRotations(state: array<Bits>, rotation: seq<nat>)
    requires state.Length == 10 && IsState(state[..]) && AreTurns(rotation)
    modifies state
    ensures state[..] == PboxRotations(old(state[..]), rotation)
  {
    hide Rot;
    ghost var s := state[..];
    for i := 0 to 5
      invariant forall k :: 0 <= k < 10 ==> state[k] == if k < 2 * i then PboxRotations(s, rotation)[k] else s[k]
    {
      state[2 * i] := Rot(state[2 * i], rotation[i]);
    }
  }

  method ApplyPbox(state: array<Bits>, p: Pbox)
    requires state.Length == 10 && IsState(state[..]) && IsPbox(p)
    modifies state
    ensures state[..] == ApplyP(old(state[..]), p)
  {
    hide MaskedSwaps, WordShuffle, PboxRotations, IsState, AreTurns;
    ghost var s := state[..];
    for i := 0 to 5
      invariant state[..] == PboxSteps(s, p, i)
    {
      ApplyMaskedSwaps(state, p.mask[i]);
      ApplyWordShuffle(state, PBOX_M);
      ApplyPboxRotations(state, p.rotation[i]);
    }
    ApplyMaskedSwaps(state, p.mask[5]);
  }

  method ApplyInvPbox(state: array<Bits>, p: Pbox)
    requires state.Length == 10 && IsState(state[..]) && IsPbox(p)
    modifies state
    ensures state[..] == ApplyInvP(old(state[..]), p)
  {
    hide MaskedSwaps, WordShuffle, PboxRotations, IsState;
    ghost var s := state[..];
    ApplyMaskedSwaps(state, p.mask[5]);
    for i := 5 downto 0
      invariant IsState(state[..])
      invariant InvPboxSteps(state[..], p, i) == ApplyInvP(s, p)
    {
      var invRotation := Opposite(p.rotation[i]);
      ApplyPboxRotations(state, invRotation);
      ApplyWordShuffle(state, INV_PBOX_M);
      ApplyMaskedSwaps(state, p.mask[i]);
    }
  }

  lemma ExtendMix(a: Bits, x: Bits, rs: seq<nat>, j: nat)
    requires IsWord(a) && IsWord(x) && AreRotations(rs) && j < |rs|
    ensures Xor(Xor(a, Mix(x, rs[..j])), Rot(x, rs[j])) == Xor(a, Mix(x, rs[..j + 1]))
  {
    assert rs[..j + 1][..j] == rs[..j];
    RotBitWord(x, rs[j]);
    XorAssoc(a, Mix(x, rs[..j]), Rot(x, rs[j]));
  }

  lemma EmptyMix(a: Bits, x: Bits, rs: seq<nat>)
    requires IsWord(a) && AreRotations(rs)
    ensures a == Xor(a, Mix(x, rs[..0]))
  {
    assert rs[..0] == [];
    assert Xor(a, Zero()) == a;
  }

  lemma RotBitWord(x: Bits, r: nat)
    requires IsWord(x) && r <= 64
    ensures IsWord(Rot(x, r))
  {
  }

  lemma XorAssoc(a: Bits, b: Bits, c: Bits)
    requires IsWord(a) && IsWord(b) && IsWord(c)
    ensures Xor(Xor(a, b), c) == Xor(a, Xor(b, c))
  {
  }

  method ApplyRotations(state: array<Bits>, rotations: seq<nat>)
    requires state.Length == 10 && IsState(state[..]) && AreRotations(rotations)
    modifies state
    ensures state[..] == Linear(old(state[..]), 1, rotations)
  {
    hide Xor, Rot, Mix, Linear;
    ghost var s := state[..];
    ghost var target := Linear(s, 1, rotations);
    var next := new Bits[10];
    next[9] := state[0];
    for i := 0 to 9
      invariant fresh(next) && state[..] == s && next[9] == s[0]
      invariant forall k :: 0 <= k < i ==> next[k] == s[k + 1]
    {
      next[i] := state[i + 1];
    }
    for i := 0 to 10
      invariant fresh(next) && state[..] == s
      invariant forall k :: 0 <= k < 10 ==> next[k] == if k < i then target[k] else s[Ahead(k, 1)]
    {
      ghost var before := next[..];
      EmptyMix(s[Ahead(i, 1)], s[i], rotations);
      for j := 0 to |rotations|
        invariant fresh(next) && state[..] == s
        invariant forall k :: 0 <= k < 10 && k != i ==> next[k] == before[k]
        invariant next[i] == Xor(s[Ahead(i, 1)], Mix(s[i], rotations[..j]))
      {
        ExtendMix(s[Ahead(i, 1)], s[i], rotations, j);
        next[i] := Xor(next[i], Rot(state[i], rotations[j]));
      }
      assert rotations[..|rotations|] == rotations;
      LinearAt(s, 1, rotations, i);
    }
    forall k | 0 <= k < 10 {
      state[k] := next[k];
    }
  }

  method ApplyRoundKey(state: array<Bits>, roundKey: nat)
    requires state.Length == 10 && IsState(state[..])
    modifies state
    ensures state[..] == WithRoundKey(old(state[..]), roundKey)
  {
    hide Xor, FromNat, Pow2;
    ghost var s := state[..];
    for i := 0 to 10
      invariant forall k :: 0 <= k < 10 ==> state[k] == if k < i then WithRoundKey(s, roundKey)[k] else s[k]
    {
      state[i] := Xor(state[i], FromNat(roundKey / Pow2(i) % 2, 64));
    }
  }

  /** Each row of `res` sends every entry of the same row of `mapping` to its index. */
  method InvertMapping(mapping: seq<seq<nat>>, size: nat) returns (res: seq<seq<nat>>)
    requires ArePermutations(mapping, size)
    ensures res == Inverses(mapping, size)
  {
    res := [];
    for i := 0 to |mapping|
      invariant |res| == i
      invariant forall k :: 0 <= k < i ==> res[k] == Inverse(mapping[k])
    {
      hide Inverse;
      var row := new nat[size];
      for j := 0 to size
        invariant fresh(row)
        invariant forall k :: 0 <= k < j ==> row[mapping[i][k]] == k
      {
        row[mapping[i][j]] := j;
      }
      InverseUnique(mapping[i], row[..]);
      res := res + [row[..]];
    }
  }

  // ---------- the class ----------

  method RandomPbox(r: Generator) returns (p: Pbox)
    requires r.Valid()
    modifies r
    ensures r.Valid() && r.drawn == old(r.drawn) + 85
    ensures p == PboxOf(r.seed, old(r.drawn))
  {
    hide Draw, DrawLong, DrawBelow, FromNat, Leaps;
    var mask, rotation := [], [];
    for j := 0 to 6
      invariant r.Valid() && r.drawn == old(r.drawn) + 10 * j
      invariant |mask| == j && forall t :: 0 <= t < j ==> mask[t] == MaskRow(r.seed, old(r.drawn) + 10 * t)
    {
      var row := [];
      for k := 0 to 5
        invariant r.Valid() && r.drawn == old(r.drawn) + 10 * j + 2 * k
        invariant |row| == k
        invariant forall t :: 0 <= t < k ==> row[t] == MaskRow(r.seed, old(r.drawn) + 10 * j)[t]
      {
        var long := r.NextLong();
        row := row + [FromNat(long, 64)];
      }
      mask := mask + [row];
    }
    for j := 0 to 5
      invariant r.Valid() && r.drawn == old(r.drawn) + 60 + 5 * j
      invariant |rotation| == j && forall t :: 0 <= t < j ==> rotation[t] == TurnRow(r.seed, old(r.drawn) + 60 + 5 * t)
    {
      var row: seq<nat> := [];
      for k := 0 to 5
        invariant r.Valid() && r.drawn == old(r.drawn) + 60 + 5 * j + k
        invariant |row| == k
        invariant forall t :: 0 <= t < k ==> row[t] == TurnRow(r.seed, old(r.drawn) + 60 + 5 * j)[t]
      {
        var turn := r.Next(63);
        assert turn + 1 == Turn(r.seed, old(r.drawn) + 60 + 5 * j + k);
        row := row + [turn + 1];
      }
      rotation := rotation + [row];
    }
    p := Pbox(mask, rotation);
  }

  method RandomRotations(r: Generator) returns (rotations: seq<nat>)
    requires r.Valid()
    modifies r
    ensures r.Valid() && r.drawn == old(r.drawn) + 62
    ensures IsPermutation(Shuffle(r.seed, old(r.drawn), 63, 63))
    ensures rotations == ChosenRotations(Shuffle(r.seed, old(r.drawn), 63, 63))
  {
    hide Shuffle, Leaps, IsPermutation, FirstOdd, LcgSteps, Triangle, FirstRotations, Sum;
    var table := r.Permutation(63);
    ghost var bits := table[..];
    var sum := 0;
    rotations := [];
    NoRotations(bits);
    for j := 0 to 5
      invariant r.Valid() && r.drawn == old(r.drawn) + 62 && table[..] == bits
      invariant rotations == FirstRotations(bits, j) && sum == Sum(rotations)
    {
      OneMoreRotation(bits, j);
      rotations := rotations + [table[j] + 1];
      sum := sum + (table[j] + 1);
    }
    SearchStops(bits, sum);
    ghost var stop := FirstOdd(bits, 5, sum);
    var j := 5;
    while (table[j] + 1 + sum) % 2 == 0
      invariant r.Valid() && r.drawn == old(r.drawn) + 62 && table[..] == bits
      invariant 5 <= j <= stop
      decreases stop - j
    {
      j := j + 1;
    }
    FirstOddUnique(bits, 5, sum, j);
    rotations := rotations + [table[j] + 1];
  }

  lemma NoRotations(bits: seq<nat>)
    ensures FirstRotations(bits, 0) == [] && Sum([]) == 0
  {
  }

  lemma OneMoreRotation(bits: seq<nat>, j: nat)
    requires j < |bits|
    ensures FirstRotations(bits, j + 1) == FirstRotations(bits, j) + [bits[j] + 1]
    ensures Sum(FirstRotations(bits, j + 1)) == Sum(FirstRotations(bits, j)) + (bits[j] + 1)
  {
    assert (FirstRotations(bits, j) + [bits[j] + 1])[..j] == FirstRotations(bits, j);
  }

  lemma FirstOddUnique(bits: seq<nat>, from: nat, sum: nat, j: nat)
    requires exists k :: from <= k < |bits| && (bits[k] + 1 + sum) % 2 == 1
    requires from <= j <= FirstOdd(bits, from, sum) && (bits[j] + 1 + sum) % 2 == 1
    ensures j == FirstOdd(bits, from, sum)
  {
  }

  class OdoCrypt {
    var sbox1: seq<seq<nat>>
    var sbox2: seq<seq<nat>>
    var permutation: seq<Pbox>
    var rotations: seq<nat>
    var roundKey: seq<nat>

    function TheKey(): Key
      reads this
    {
      Key(sbox1, sbox2, permutation, rotations, roundKey)
    }

    ghost predicate Valid()
      reads this
    {
      IsKey(TheKey())
    }

    constructor (key: nat)
      requires key < TWO32
      ensures Valid() && TheKey() == KeyOf(key)
    {
      hide Shuffle, Leaps, PboxOf, ChosenRotations, IsPbox, DrawBelow, ArePermutations, IsPermutation, LcgSteps,
        Triangle, AreRotations;
      var r := new Generator(key);
      var small, large, keys := [], [], [];
      for i := 0 to 40
        invariant fresh(r) && r.Valid() && r.seed == key && r.drawn == 63 * i
        invariant small == SmallBoxes(key, i)
      {
        var box := r.Permutation(64);
        small := small + [box[..]];
      }
      for i := 0 to 10
        invariant fresh(r) && r.Valid() && r.seed == key && r.drawn == 2520 + 1023 * i
        invariant large == LargeBoxes(key, i)
      {
        var box := r.Permutation(1024);
        large := large + [box[..]];
      }
      var p0 := RandomPbox(r);
      var p1 := RandomPbox(r);
      var chosen := RandomRotations(r);
      for i := 0 to 84
        invariant fresh(r) && r.Valid() && r.seed == key && r.drawn == ROUND_KEY_DRAWS + i
        invariant |keys| == i && forall t :: 0 <= t < i ==> keys[t] == RoundKeys(key)[t]
      {
        var k := r.Next(1024);
        keys := keys + [k];
      }
      KeyOfIsKey(key);
      assert keys == RoundKeys(key);
      sbox1, sbox2, permutation, rotations, roundKey := small, large, [p0, p1], chosen, keys;
    }

    method Encrypt(cipher: array<Byte>, plain: array<Byte>)
      requires Valid() && cipher.Length == DIGEST_SIZE && plain.Length == DIGEST_SIZE
      modifies cipher
      ensures cipher[..] == Encipher(TheKey(), old(plain[..]))
      ensures Enciphers(TheKey(), old(plain[..]), cipher[..])
    {
      hide Enciphers, ApplyP, Sboxes, Linear, WithRoundKey, IsState, PreMixed, Packed, Unpacked;
      var state := new Bits[10];
      Unpack(state, plain);
      PreMix(state);
      ghost var s := state[..];
      for round := 0 to ROUNDS
        invariant fresh(state) && IsState(state[..])
        invariant state[..] == Rounds(s, TheKey(), round)
      {
        ApplyPbox(state, permutation[0]);
        ApplySboxes(state, sbox1, sbox2);
        ApplyPbox(state, permutation[1]);
        ApplyRotations(state, rotations);
        ApplyRoundKey(state, roundKey[round]);
      }
      Pack(state, cipher);
      EncipherIsTheChain(TheKey(), old(plain[..]), cipher[..]);
    }

    method Decrypt(plain: array<Byte>, cipher: array<Byte>)
      requires Valid() && cipher.Length == DIGEST_SIZE && plain.Length == DIGEST_SIZE
      modifies plain
      ensures plain[..] == Decipher(TheKey(), old(cipher[..]))
    {
      hide ApplyInvP, Sboxes, Linear, Iterate, WithRoundKey, Inverses, IsState, PreMixed, Packed, Unpacked;
      var invSbox1 := InvertMapping(sbox1, 64);
      var invSbox2 := InvertMapping(sbox2, 1024);
      var state := new Bits[10];
      Unpack(state, cipher);
      ghost var s := state[..];
      for round := ROUNDS downto 0
        invariant fresh(state) && IsState(state[..])
        invariant InvRounds(state[..], TheKey(), round) == InvRounds(s, TheKey(), ROUNDS)
      {
        ApplyRoundKey(state, roundKey[round]);
        RotateBack(state, rotations);
        ApplyInvPbox(state, permutation[1]);
        ApplySboxes(state, invSbox1, invSbox2);
        ApplyInvPbox(state, permutation[0]);
      }
      PreMix(state);
      Pack(state, plain);
    }
  }

  /** The inner loop of `Decrypt`. */
  method RotateBack(state: array<Bits>, rotations: seq<nat>)
    requires state.Length == 10 && IsState(state[..]) && AreRotations(rotations)
    modifies state
    ensures state[..] == Iterate(old(state[..]), 1, rotations, STATE_SIZE * WORD_BITS - 1)
  {
    hide Linear;
    ghost var s := state[..];
    for i := 0 to STATE_SIZE * WORD_BITS - 1
      invariant IsState(state[..]) && state[..] == Iterate(s, 1, rotations, i)
    {
      ApplyRotations(state, rotations);
      IterateAdd(s, 1, rotations, i, 1);
      assert Iterate(Iterate(s, 1, rotations, i), 1, rotations, 1) == Linear(Iterate(s, 1, rotations, i), 1, rotations);
    }
  }

  /** For every seed and every block, `Decrypt` undoes `Encrypt`. */
  method RoundTrip(seed: nat, plain: array<Byte>) returns (back: array<Byte>)
    requires seed < TWO32 && plain.Length == DIGEST_SIZE
    ensures back[..] == plain[..]
  {
    hide Encipher, Decipher, KeyOf, IsKey;
    var odo := new OdoCrypt(seed);
    var cipher := new Byte[DIGEST_SIZE];
    back := new Byte[DIGEST_SIZE];
    odo.Encrypt(cipher, plain);
    odo.Decrypt(back, cipher);
    DecipherEncipher(odo.TheKey(), plain[..]);
  }
}
