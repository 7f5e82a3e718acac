/**
 The whole of OdoCrypt as a relation between bits: a block is enciphered to another
 when a chain of states leads from the one to the other in which every state stands
 to the next in the relation of one layer. The relations are about single bits and
 use none of the word operators; `Encipher` is proved to be exactly this relation.
 */
module OdoChain {
  import opened Words
  import opened OdoLinear
  import opened OdoLayers
  import opened OdoCipher
  import opened OdoBits

  // ---------- the layers as relations ----------

  predicate LoadedAt(bytes: seq<Byte>, s: State, i: nat, j: nat, b: nat)
    requires |bytes| == 80 && IsState(s) && i < 10 && j < 8 && b < 8
  {
    s[i][8 * j + b] <==> bytes[8 * i + j] / Pow2(b) % 2 == 1
  }

  /** The state holds the bytes, least significant byte and bit first. */
  predicate Loaded(bytes: seq<Byte>, s: State)
    requires |bytes| == 80
  {
    IsState(s) && forall i: nat, j: nat, b: nat :: i < 10 && j < 8 && b < 8 ==> LoadedAt(bytes, s, i, j, b)
  }

  predicate StirredAt(s: State, t: State, i: nat, b: nat)
    requires IsState(s) && IsState(t) && i < 10 && b < 64
  {
    t[i][b] != s[i][b] <==> (Count(s, b, 10) + Count(s, b + 32, 10)) % 2 == 1
  }

  predicate Stirred(s: State, t: State)
    requires IsState(s)
  {
    IsState(t) && forall i: nat, b: nat :: i < 10 && b < 64 ==> StirredAt(s, t, i, b)
  }

  predicate ExchangedAt(s: State, t: State, mask: seq<Bits>, i: nat, b: nat)
    requires IsState(s) && IsState(t) && |mask| == 5 && i < 10 && b < 64
  {
    t[i][b] == s[if Bit(mask[i / 2], b) then Partner(i) else i][b]
  }

  predicate Exchanged(s: State, t: State, mask: seq<Bits>)
    requires IsState(s) && |mask| == 5
  {
    IsState(t) && forall i: nat, b: nat :: i < 10 && b < 64 ==> ExchangedAt(s, t, mask, i, b)
  }

  predicate SubroundAt(s: State, t: State, mask: seq<Bits>, rotation: seq<nat>, i: nat, b: nat)
    requires IsState(s) && IsState(t) && |mask| == 5 && AreTurns(rotation) && i < 10 && b < 64
  {
    var w := 3 * i % 10;
    var turn := if w % 2 == 0 then rotation[w / 2] else 0;
    t[w][(b + turn) % 64] == s[if Bit(mask[i / 2], b) then Partner(i) else i][b]
  }

  predicate Subround(s: State, t: State, mask: seq<Bits>, rotation: seq<nat>)
    requires IsState(s) && |mask| == 5 && AreTurns(rotation)
  {
    IsState(t) && forall i: nat, b: nat :: i < 10 && b < 64 ==> SubroundAt(s, t, mask, rotation, i, b)
  }

  /** Five subrounds and a last exchange of bits. */
  predicate IsPboxRun(u: seq<State>, s: State, t: State, p: Pbox)
    requires IsPbox(p)
  {
    && |u| == 6 && u[0] == s && (forall n :: 0 <= n < 6 ==> IsState(u[n]))
    && (forall n :: 0 <= n < 5 ==> Subround(u[n], u[n + 1], p.mask[n], p.rotation[n]))
    && Exchanged(u[5], t, p.mask[5])
  }

  ghost predicate Permuted(s: State, t: State, p: Pbox)
    requires IsPbox(p)
  {
    exists u :: IsPboxRun(u, s, t, p)
  }

  predicate SubstitutedAt(s: State, t: State, b1: seq<seq<nat>>, b2: seq<seq<nat>>, i: nat, j: nat, b: nat)
    requires IsState(s) && IsState(t) && i < 10 && j < 4 && b < 16
    requires |b1| == 40 && ArePermutations(b1, 64) && |b2| == 10 && ArePermutations(b2, 1024)
  {
    var x := s[i];
    SliceBound(x, 16 * j, 6);
    SliceBound(x, 16 * j + 6, 10);
    if b < 6
    then t[i][16 * j + b] <==> b1[4 * i + j][ToNat(x[16 * j..16 * j + 6])] / Pow2(b) % 2 == 1
    else t[i][16 * j + b] <==> b2[i][ToNat(x[16 * j + 6..16 * j + 16])] / Pow2(b - 6) % 2 == 1
  }

  predicate Substituted(s: State, t: State, b1: seq<seq<nat>>, b2: seq<seq<nat>>)
    requires IsState(s)
    requires |b1| == 40 && ArePermutations(b1, 64) && |b2| == 10 && ArePermutations(b2, 1024)
  {
    && IsState(t)
    && forall i: nat, j: nat, b: nat :: i < 10 && j < 4 && b < 16 ==> SubstitutedAt(s, t, b1, b2, i, j, b)
  }

  predicate MixedAt(s: State, t: State, rs: seq<nat>, i: nat, b: nat)
    requires IsState(s) && IsState(t) && AreRotations(rs) && i < 10 && b < 64
  {
    t[i][b] != s[(i + 1) % 10][b] <==> Hits(s[i], rs, b, |rs|) % 2 == 1
  }

  predicate Mixed(s: State, t: State, rs: seq<nat>)
    requires IsState(s) && AreRotations(rs)
  {
    IsState(t) && forall i: nat, b: nat :: i < 10 && b < 64 ==> MixedAt(s, t, rs, i, b)
  }

  predicate KeyedAt(s: State, t: State, k: nat, i: nat, b: nat)
    requires IsState(s) && IsState(t) && i < 10 && b < 64
  {
    t[i][b] != s[i][b] <==> b == 0 && k / Pow2(i) % 2 == 1
  }

  predicate Keyed(s: State, t: State, k: nat)
    requires IsState(s)
  {
    IsState(t) && forall i: nat, b: nat :: i < 10 && b < 64 ==> KeyedAt(s, t, k, i, b)
  }

  /** One round: permute, substitute, permute, mix, add the round key. */
  ghost predicate IsRoundRun(s: State, a: State, c: State, d: State, e: State, t: State, k: Key, round: nat)
    requires IsKey(k) && round < 84
  {
    && IsState(a) && IsState(c) && IsState(d) && IsState(e)
    && Permuted(s, a, k.perm[0]) && Substituted(a, c, k.sbox1, k.sbox2) && Permuted(c, d, k.perm[1])
    && Mixed(d, e, k.rotations) && Keyed(e, t, k.roundKey[round])
  }

  ghost predicate RoundRelation(s: State, t: State, k: Key, round: nat)
    requires IsKey(k) && round < 84
  {
    IsState(s) && exists a, c, d, e :: IsRoundRun(s, a, c, d, e, t, k, round)
  }

  /** The chain: load, stir, 84 rounds, store. */
  ghost predicate IsChain(x: State, u: seq<State>, k: Key, plain: seq<Byte>, cipher: seq<Byte>)
    requires IsKey(k) && |plain| == |cipher| == 80
  {
    && Loaded(plain, x) && |u| == 85 && (forall n :: 0 <= n < 85 ==> IsState(u[n])) && Stirred(x, u[0])
    && (forall n :: 0 <= n < 84 ==> RoundRelation(u[n], u[n + 1], k, n))
    && Loaded(cipher, u[84])
  }

  ghost predicate Enciphers(k: Key, plain: seq<Byte>, cipher: seq<Byte>)
    requires IsKey(k) && |plain| == |cipher| == 80
  {
    exists x, u :: IsChain(x, u, k, plain, cipher)
  }

  // ---------- each relation is its layer ----------

  lemma SameBits(s: State, t: State)
    requires IsState(s) && IsState(t)
    requires forall i: nat, b: nat :: i < 10 && b < 64 ==> s[i][b] == t[i][b]
    ensures s == t
  {
    forall i | 0 <= i < 10
      ensures s[i] == t[i]
    {
    }
  }

  lemma LoadedIs(bytes: seq<Byte>, s: State)
    requires |bytes| == 80
    ensures Loaded(bytes, s) <==> s == Unpacked(bytes)
  {
    hide Unpacked, Pow2;
    var t := Unpacked(bytes);
    forall i: nat, j: nat, b: nat | i < 10 && j < 8 && b < 8
      ensures LoadedAt(bytes, t, i, j, b)
    {
      UnpackedBit(bytes, i, j, b);
    }
    if Loaded(bytes, s) {
      forall i: nat, b: nat | i < 10 && b < 64
        ensures s[i][b] == t[i][b]
      {
        assert b == 8 * (b / 8) + b % 8;
        assert LoadedAt(bytes, s, i, b / 8, b % 8) && LoadedAt(bytes, t, i, b / 8, b % 8);
      }
      SameBits(s, t);
    }
  }

  lemma StirredIs(s: State, t: State)
    requires IsState(s)
    ensures Stirred(s, t) <==> t == PreMixed(s)
  {
    hide PreMixed, Count;
    var u := PreMixed(s);
    forall i: nat, b: nat | i < 10 && b < 64
      ensures StirredAt(s, u, i, b)
    {
      PreMixedBit(s, i, b);
    }
    if Stirred(s, t) {
      forall i: nat, b: nat | i < 10 && b < 64
        ensures t[i][b] == u[i][b]
      {
        assert StirredAt(s, t, i, b) && StirredAt(s, u, i, b);
      }
      SameBits(t, u);
    }
  }

  lemma ExchangedIs(s: State, t: State, mask: seq<Bits>)
    requires IsState(s) && |mask| == 5
    ensures Exchanged(s, t, mask) <==> t == MaskedSwaps(s, mask)
  {
    hide MaskedSwaps;
    var u := MaskedSwaps(s, mask);
    forall i: nat, b: nat | i < 10 && b < 64
      ensures ExchangedAt(s, u, mask, i, b)
    {
      MaskedSwapsBit(s, mask, i, b);
    }
    if Exchanged(s, t, mask) {
      forall i: nat, b: nat | i < 10 && b < 64
        ensures t[i][b] == u[i][b]
      {
        assert ExchangedAt(s, t, mask, i, b) && ExchangedAt(s, u, mask, i, b);
      }
      SameBits(t, u);
    }
  }

  /** Every bit of the state is reached: from word `7 * w` modulo 10, turned back. */
  lemma SubroundReaches(s: State, t: State, u: State, mask: seq<Bits>, rotation: seq<nat>, w: nat, b: nat)
    requires IsState(s) && |mask| == 5 && AreTurns(rotation) && w < 10 && b < 64
    requires Subround(s, t, mask, rotation) && Subround(s, u, mask, rotation)
    ensures t[w][b] == u[w][b]
  {
    var i := 7 * w % 10;
    assert 3 * i % 10 == w;
    var turn := if w % 2 == 0 then rotation[w / 2] else 0;
    var from := if b >= turn then b - turn else b - turn + 64;
    assert (from + turn) % 64 == b;
    assert SubroundAt(s, t, mask, rotation, i, from) && SubroundAt(s, u, mask, rotation, i, from);
  }

  lemma SubroundIs(s: State, t: State, p: Pbox, n: nat)
    requires IsState(s) && IsPbox(p) && n < 5
    ensures Subround(s, t, p.mask[n], p.rotation[n]) <==> t == PboxStep(s, p, n)
  {
    hide PboxStep;
    var u := PboxStep(s, p, n);
    forall i: nat, b: nat | i < 10 && b < 64
      ensures SubroundAt(s, u, p.mask[n], p.rotation[n], i, b)
    {
      PboxStepBit(s, p, n, i, b);
    }
    if Subround(s, t, p.mask[n], p.rotation[n]) {
      hide Subround, SubroundAt;
      forall w: nat, b: nat | w < 10 && b < 64
        ensures t[w][b] == u[w][b]
      {
        SubroundReaches(s, t, u, p.mask[n], p.rotation[n], w, b);
      }
      SameBits(t, u);
    }
  }

  lemma {:induction false} PboxRunIs(u: seq<State>, s: State, t: State, p: Pbox, n: nat)
    requires IsState(s) && IsPbox(p) && IsPboxRun(u, s, t, p) && n <= 5
    ensures u[n] == PboxSteps(s, p, n)
    decreases n
  {
    hide PboxStep, Subround;
    if n > 0 {
      PboxRunIs(u, s, t, p, n - 1);
      assert Subround(u[n - 1], u[n - 1 + 1], p.mask[n - 1], p.rotation[n - 1]);
      SubroundIs(u[n - 1], u[n], p, n - 1);
    }
  }

  lemma PermutedIs(s: State, t: State, p: Pbox)
    requires IsState(s) && IsPbox(p)
    ensures Permuted(s, t, p) <==> t == ApplyP(s, p)
  {
    hide MaskedSwaps, PboxStep, Subround, Exchanged, IsState;
    if u :| IsPboxRun(u, s, t, p) {
      PboxRunIs(u, s, t, p, 5);
      ExchangedIs(u[5], t, p.mask[5]);
    }
    if t == ApplyP(s, p) {
      PboxRunExists(s, p);
    }
  }

  lemma PboxRunExists(s: State, p: Pbox)
    requires IsState(s) && IsPbox(p)
    ensures Permuted(s, ApplyP(s, p), p)
  {
    hide MaskedSwaps, PboxStep, Subround, Exchanged, IsState;
    var u := seq(6, n requires 0 <= n < 6 => PboxSteps(s, p, n));
    forall n | 0 <= n < 5
      ensures Subround(u[n], u[n + 1], p.mask[n], p.rotation[n])
    {
      SubroundIs(u[n], u[n + 1], p, n);
    }
    ExchangedIs(u[5], ApplyP(s, p), p.mask[5]);
    assert IsPboxRun(u, s, ApplyP(s, p), p);
  }

  lemma SubstitutedIs(s: State, t: State, b1: seq<seq<nat>>, b2: seq<seq<nat>>)
    requires IsState(s)
    requires |b1| == 40 && ArePermutations(b1, 64) && |b2| == 10 && ArePermutations(b2, 1024)
    ensures Substituted(s, t, b1, b2) <==> t == Sboxes(s, b1, b2)
  {
    hide Sboxes, SubstitutedAt, ArePermutations;
    var u := Sboxes(s, b1, b2);
    forall i: nat, j: nat, b: nat | i < 10 && j < 4 && b < 16
      ensures SubstitutedAt(s, u, b1, b2, i, j, b)
    {
      SboxesAtBit(s, b1, b2, i, j, b);
    }
    if Substituted(s, t, b1, b2) {
      forall i: nat, b: nat | i < 10 && b < 64
        ensures t[i][b] == u[i][b]
      {
        assert SubstitutedAt(s, t, b1, b2, i, b / 16, b % 16) && SubstitutedAt(s, u, b1, b2, i, b / 16, b % 16);
        SubstitutedOnce(s, t, u, b1, b2, i, b / 16, b % 16);
        assert 16 * (b / 16) + b % 16 == b;
      }
      SameBits(t, u);
    }
  }

  lemma SboxesAtBit(s: State, b1: seq<seq<nat>>, b2: seq<seq<nat>>, i: nat, j: nat, b: nat)
    requires IsState(s) && i < 10 && j < 4 && b < 16
    requires |b1| == 40 && ArePermutations(b1, 64) && |b2| == 10 && ArePermutations(b2, 1024)
    ensures SubstitutedAt(s, Sboxes(s, b1, b2), b1, b2, i, j, b)
  {
    hide Sboxes, ArePermutations, Pow2, ToNat;
    SboxesBit(s, b1, b2, i, j, b);
  }

  lemma SubstitutedOnce(s: State, t: State, u: State, b1: seq<seq<nat>>, b2: seq<seq<nat>>, i: nat, j: nat, b: nat)
    requires IsState(s) && IsState(t) && IsState(u) && i < 10 && j < 4 && b < 16
    requires |b1| == 40 && ArePermutations(b1, 64) && |b2| == 10 && ArePermutations(b2, 1024)
    requires SubstitutedAt(s, t, b1, b2, i, j, b) && SubstitutedAt(s, u, b1, b2, i, j, b)
    ensures t[i][16 * j + b] == u[i][16 * j + b]
  {
    hide ArePermutations, Pow2, ToNat;
  }

  lemma MixedIs(s: State, t: State, rs: seq<nat>)
    requires IsState(s) && AreRotations(rs)
    ensures Mixed(s, t, rs) <==> t == Linear(s, 1, rs)
  {
    hide Linear, Hits;
    var u := Linear(s, 1, rs);
    forall i: nat, b: nat | i < 10 && b < 64
      ensures MixedAt(s, u, rs, i, b)
    {
      LinearBit(s, rs, i, b);
    }
    if Mixed(s, t, rs) {
      forall i: nat, b: nat | i < 10 && b < 64
        ensures t[i][b] == u[i][b]
      {
        assert MixedAt(s, t, rs, i, b) && MixedAt(s, u, rs, i, b);
      }
      SameBits(t, u);
    }
  }

  lemma KeyedIs(s: State, t: State, k: nat)
    requires IsState(s)
    ensures Keyed(s, t, k) <==> t == WithRoundKey(s, k)
  {
    hide WithRoundKey, Pow2;
    var u := WithRoundKey(s, k);
    forall i: nat, b: nat | i < 10 && b < 64
      ensures KeyedAt(s, u, k, i, b)
    {
      RoundKeyBit(s, k, i, b);
    }
    if Keyed(s, t, k) {
      forall i: nat, b: nat | i < 10 && b < 64
        ensures t[i][b] == u[i][b]
      {
        assert KeyedAt(s, t, k, i, b) && KeyedAt(s, u, k, i, b);
      }
      SameBits(t, u);
    }
  }

  // ---------- the cipher ----------

  lemma RoundRunIs(s: State, a: State, c: State, d: State, e: State, t: State, k: Key, round: nat)
    requires IsState(s) && IsKey(k) && round < 84 && IsState(a) && IsState(c) && IsState(d) && IsState(e)
    ensures IsRoundRun(s, a, c, d, e, t, k, round) <==>
      && a == ApplyP(s, k.perm[0]) && c == Sboxes(a, k.sbox1, k.sbox2) && d == ApplyP(c, k.perm[1])
      && e == Linear(d, 1, k.rotations) && t == WithRoundKey(e, k.roundKey[round])
  {
    hide ApplyP, Sboxes, Linear, WithRoundKey, Permuted, Substituted, Mixed, Keyed, IsState;
    PermutedIs(s, a, k.perm[0]);
    SubstitutedIs(a, c, k.sbox1, k.sbox2);
    PermutedIs(c, d, k.perm[1]);
    MixedIs(d, e, k.rotations);
    KeyedIs(e, t, k.roundKey[round]);
  }

  lemma RoundIs(s: State, t: State, k: Key, round: nat)
    requires IsState(s) && IsKey(k) && round < 84
    ensures RoundRelation(s, t, k, round) <==> t == Round(s, k, round)
  {
    hide ApplyP, Sboxes, Linear, WithRoundKey, IsRoundRun, IsState, IsPbox, ArePermutations;
    if a, c, d, e :| IsRoundRun(s, a, c, d, e, t, k, round) {
      RunStates(s, a, c, d, e, t, k, round);
      RoundRunIs(s, a, c, d, e, t, k, round);
    }
    if t == Round(s, k, round) {
      var a := ApplyP(s, k.perm[0]);
      var c := Sboxes(a, k.sbox1, k.sbox2);
      var d := ApplyP(c, k.perm[1]);
      RoundRunIs(s, a, c, d, Linear(d, 1, k.rotations), t, k, round);
    }
  }

  lemma RunStates(s: State, a: State, c: State, d: State, e: State, t: State, k: Key, round: nat)
    requires IsKey(k) && round < 84 && IsRoundRun(s, a, c, d, e, t, k, round)
    ensures IsState(a) && IsState(c) && IsState(d) && IsState(e)
  {
  }

  lemma {:induction false} ChainIs(x: State, u: seq<State>, k: Key, plain: seq<Byte>, cipher: seq<Byte>, n: nat)
    requires IsKey(k) && |plain| == |cipher| == 80 && IsChain(x, u, k, plain, cipher) && n <= 84
    ensures u[n] == Rounds(PreMixed(Unpacked(plain)), k, n)
    decreases n
  {
    hide Round, RoundRelation, PreMixed, Unpacked, Loaded, Stirred, IsState, IsKey;
    if n > 0 {
      ChainIs(x, u, k, plain, cipher, n - 1);
      assert RoundRelation(u[n - 1], u[n - 1 + 1], k, n - 1);
      RoundIs(u[n - 1], u[n], k, n - 1);
    } else {
      LoadedIs(plain, x);
      StirredIs(x, u[0]);
    }
  }

  lemma ChainExists(k: Key, plain: seq<Byte>)
    requires IsKey(k) && |plain| == 80
    ensures Enciphers(k, plain, Encipher(k, plain))
  {
    hide Round, RoundRelation, PreMixed, Unpacked, Packed, Loaded, Stirred, IsState, IsKey;
    var x := Unpacked(plain);
    var u := seq(85, n requires 0 <= n < 85 => Rounds(PreMixed(x), k, n));
    forall n | 0 <= n < 84
      ensures RoundRelation(u[n], u[n + 1], k, n)
    {
      RoundIs(u[n], u[n + 1], k, n);
    }
    LoadedIs(plain, x);
    StirredIs(x, u[0]);
    UnpackedPacked(u[84]);
    LoadedIs(Encipher(k, plain), u[84]);
    assert IsChain(x, u, k, plain, Encipher(k, plain));
  }

  /** A cipher block stands at the end of a chain from the plain block exactly when
      it is the one that `Encipher` gives. */
  lemma EncipherIsTheChain(k: Key, plain: seq<Byte>, cipher: seq<Byte>)
    requires IsKey(k) && |plain| == |cipher| == 80
    ensures Enciphers(k, plain, cipher) <==> cipher == Encipher(k, plain)
  {
    hide Rounds, PreMixed, Unpacked, Packed, Loaded, Stirred, IsState, IsKey;
    if x, u :| IsChain(x, u, k, plain, cipher) {
      ChainIs(x, u, k, plain, cipher, 84);
      LoadedIs(cipher, u[84]);
      PackedUnpacked(cipher);
    }
    ChainExists(k, plain);
  }

  // ---------- what the last round key does ----------

  lemma {:induction false} EarlierRounds(s: State, k: Key, other: Key, n: nat)
    requires IsState(s) && IsKey(k) && IsKey(other) && n <= 83
    requires other.(roundKey := k.roundKey) == k && other.roundKey[..83] == k.roundKey[..83]
    ensures Rounds(s, k, n) == Rounds(s, other, n)
  {
    hide ApplyP, Sboxes, Linear, WithRoundKey, IsState, IsPbox, ArePermutations, AreRotations;
    if n > 0 {
      EarlierRounds(s, k, other, n - 1);
      assert other.roundKey[..83][n - 1] == k.roundKey[..83][n - 1];
    }
  }

  /** Two keys that differ in the last round key alone give cipher blocks that differ in
      exactly the lowest bits of the words whose bits in the two round keys differ. */
  lemma LastRoundKey(k: Key, other: Key, plain: seq<Byte>, i: nat, b: nat)
    requires IsKey(k) && IsKey(other) && |plain| == 80 && i < 10 && b < 64
    requires other.(roundKey := k.roundKey) == k && other.roundKey[..83] == k.roundKey[..83]
    ensures Unpacked(Encipher(k, plain))[i][b] != Unpacked(Encipher(other, plain))[i][b] <==>
            b == 0 && k.roundKey[83] / Pow2(i) % 2 != other.roundKey[83] / Pow2(i) % 2
  {
    hide ApplyP, Sboxes, Linear, WithRoundKey, PreMixed, Packed, Unpacked, IsState, IsPbox, ArePermutations,
      AreRotations, Pow2;
    var s := PreMixed(Unpacked(plain));
    EarlierRounds(s, k, other, 83);
    UnpackedPacked(Rounds(s, k, 84));
    UnpackedPacked(Rounds(s, other, 84));
    var u := Rounds(s, k, 83);
    var e := Linear(ApplyP(Sboxes(ApplyP(u, k.perm[0]), k.sbox1, k.sbox2), k.perm[1]), 1, k.rotations);
    RoundKeyBit(e, k.roundKey[83], i, b);
    RoundKeyBit(e, other.roundKey[83], i, b);
  }
}
