/**
 OdoCrypt bit by bit. Each layer is first described by what happens to the single
 bits of the state, without the word operators that the layers are written with;
 then the whole cipher is described as a chain of such states, and `Encipher`
 is shown to be the one cipher block at the end of that chain.
 */
module OdoBits {
  import opened Arithmetic
  import opened Words
  import opened OdoLinear
  import opened OdoLayers
  import opened OdoCipher

  // ---------- bits of numbers ----------

  lemma {:induction false} FromNatBit(n: nat, width: nat, b: nat)
    requires b < width
    ensures FromNat(n, width)[b] <==> n / Pow2(b) % 2 == 1
  {
    if b > 0 {
      FromNatBit(n / 2, width - 1, b - 1);
      DivDiv(n, 2, Pow2(b - 1));
    }
  }

  lemma ToNatBit(bits: Bits, b: nat)
    requires b < |bits|
    ensures ToNat(bits) / Pow2(b) % 2 == 1 <==> bits[b]
  {
    hide ToNat, FromNat, Pow2;
    FromToNat(bits);
    FromNatBit(ToNat(bits), |bits|, b);
  }

  // ---------- loading and storing ----------

  lemma UnpackedBit(bytes: seq<Byte>, i: nat, j: nat, b: nat)
    requires |bytes| == 80 && i < 10 && j < 8 && b < 8
    ensures Unpacked(bytes)[i][8 * j + b] <==> bytes[8 * i + j] / Pow2(b) % 2 == 1
  {
    hide FromNat, Pow2, Unpacked;
    UnpackedSlice(bytes, i, j);
    assert Unpacked(bytes)[i][8 * j..8 * j + 8][b] == Unpacked(bytes)[i][8 * j + b];
    FromNatBit(bytes[8 * i + j], 8, b);
  }

  lemma PackedBit(s: State, i: nat, j: nat, b: nat)
    requires IsState(s) && i < 10 && j < 8 && b < 8
    ensures Packed(s)[8 * i + j] / Pow2(b) % 2 == 1 <==> s[i][8 * j + b]
  {
    hide Packed, Unpacked, Pow2;
    UnpackedPacked(s);
    UnpackedBit(Packed(s), i, j, b);
  }

  // ---------- pre-mix ----------

  /** How many of the first `n` words have bit `b` set. */
  function Count(s: State, b: nat, n: nat): nat
    requires n <= |s|
  {
    if n == 0 then 0 else Count(s, b, n - 1) + if b < |s[n - 1]| && s[n - 1][b] then 1 else 0
  }

  lemma {:induction false} TotalBit(s: State, b: nat, n: nat)
    requires IsState(s) && n <= 10 && b < 64
    ensures Total(s, n)[b] <==> Count(s, b, n) % 2 == 1
  {
    if n > 0 {
      TotalBit(s, b, n - 1);
    }
  }

  lemma {:induction false} NothingAbove(s: State, b: nat, n: nat)
    requires IsState(s) && n <= 10 && b >= 64
    ensures Count(s, b, n) == 0
  {
    if n > 0 {
      NothingAbove(s, b, n - 1);
    }
  }

  /** The pre-mix flips bit `b` of every word when bits `b` and `b + 32` of the words
      hold an odd number of ones; above bit 31 only bit `b` counts. */
  lemma PreMixedBit(s: State, i: nat, b: nat)
    requires IsState(s) && i < 10 && b < 64
    ensures PreMixed(s)[i][b] != s[i][b] <==> (Count(s, b, 10) + Count(s, b + 32, 10)) % 2 == 1
  {
    hide Total, Count, Xor;
    var t := Total(s, 10);
    TotalBit(s, b, 10);
    if b + 32 < 64 {
      TotalBit(s, b + 32, 10);
    } else {
      NothingAbove(s, b + 32, 10);
    }
    assert Shr(t, 32)[b] == Bit(t, b + 32);
    XorBit(t, Shr(t, 32), b);
    assert PreMixed(s)[i] == Xor(s[i], Folded(t));
    XorBit(s[i], Folded(t), b);
  }

  lemma XorBit(x: Bits, y: Bits, b: nat)
    requires b < 64
    ensures Xor(x, y)[b] == (Bit(x, b) != Bit(y, b))
  {
  }

  // ---------- P-boxes ----------

  /** The other word of a pair. */
  function Partner(i: nat): nat {
    if i % 2 == 0 then i + 1 else i - 1
  }

  /** A set mask bit takes the bit of the other word of the pair. */
  lemma MaskedSwapsBit(s: State, mask: seq<Bits>, i: nat, b: nat)
    requires IsState(s) && |mask| == 5 && i < 10 && b < 64
    ensures MaskedSwaps(s, mask)[i][b] == s[if Bit(mask[i / 2], b) then Partner(i) else i][b]
  {
    hide Xor, And;
    var p := i / 2;
    var a, c, m := s[2 * p], s[2 * p + 1], mask[p];
    MaskedSwapsAt(s, mask, p);
    var swp := Swapped(m, a, c);
    assert swp[b] == (Bit(m, b) && a[b] != c[b]) by {
      AndBit(m, Xor(a, c), b);
      XorBit(a, c, b);
    }
    XorBit(a, swp, b);
    XorBit(c, swp, b);
  }

  lemma AndBit(x: Bits, y: Bits, b: nat)
    requires b < 64
    ensures And(x, y)[b] == (Bit(x, b) && Bit(y, b))
  {
  }

  /** One subround: the bit chosen by the mask goes to word `3 * i` modulo 10,
      and if that word is even it moves up by the rotation of its pair, cyclically. */
  lemma PboxStepBit(s: State, p: Pbox, n: nat, i: nat, b: nat)
    requires IsState(s) && IsPbox(p) && n < 5 && i < 10 && b < 64
    ensures
      var w := 3 * i % 10;
      var turn := if w % 2 == 0 then p.rotation[n][w / 2] else 0;
      PboxStep(s, p, n)[w][(b + turn) % 64] == s[if Bit(p.mask[n][i / 2], b) then Partner(i) else i][b]
  {
    hide MaskedSwaps, WordShuffle, Rot, IsState;
    var w := 3 * i % 10;
    var t := MaskedSwaps(s, p.mask[n]);
    MaskedSwapsBit(s, p.mask[n], i, b);
    WordShuffleMoves(t, 3, i);
    var u := WordShuffle(t, 3);
    StateWord(u, w);
    if w % 2 == 0 {
      RotBit(u[w], p.rotation[n][w / 2], (b + p.rotation[n][w / 2]) % 64);
    }
  }

  lemma StateWord(s: State, i: nat)
    requires IsState(s) && i < 10
    ensures |s| == 10 && IsWord(s[i])
  {
  }

  // ---------- S-boxes ----------

  /** The small box with number `4 * i + j` replaces bits 16 * j to 16 * j + 5 of word `i`,
      the large box with number `i` the ten bits above them. */
  lemma SboxesBit(s: State, b1: seq<seq<nat>>, b2: seq<seq<nat>>, i: nat, j: nat, b: nat)
    requires IsState(s) && i < 10 && j < 4 && b < 16
    requires |b1| == 40 && ArePermutations(b1, 64) && |b2| == 10 && ArePermutations(b2, 1024)
    ensures ToNat(s[i][16 * j..16 * j + 6]) < 64 && ToNat(s[i][16 * j + 6..16 * j + 16]) < 1024
    ensures
      var v := if b < 6 then b1[4 * i + j][ToNat(s[i][16 * j..16 * j + 6])]
               else b2[i][ToNat(s[i][16 * j + 6..16 * j + 16])];
      Sboxes(s, b1, b2)[i][16 * j + b] <==> v / Pow2(if b < 6 then b else b - 6) % 2 == 1
  {
    hide SmallEntry, LargeEntry, FromNat, ToNat, Pow2, ArePermutations;
    var x := s[i];
    SliceBound(x, 16 * j, 6);
    SliceBound(x, 16 * j + 6, 10);
    SboxWordAt(x, i, b1, b2, j, b);
    EntriesAre(x, i, b1, b2, j);
    if b < 6 {
      FromNatBit(SmallEntry(x, i, b1, j), 6, b);
    } else {
      FromNatBit(LargeEntry(x, i, b2, j), 10, b - 6);
    }
  }

  lemma SboxWordAt(x: Bits, i: nat, b1: seq<seq<nat>>, b2: seq<seq<nat>>, j: nat, b: nat)
    requires IsWord(x) && i < 10 && j < 4 && b < 16
    requires |b1| == 40 && ArePermutations(b1, 64) && |b2| == 10 && ArePermutations(b2, 1024)
    ensures SboxWord(x, i, b1, b2)[16 * j + b] == SboxPair(x, i, b1, b2, j)[b]
  {
    hide SboxPair, ArePermutations;
  }

  lemma EntriesAre(x: Bits, i: nat, b1: seq<seq<nat>>, b2: seq<seq<nat>>, j: nat)
    requires IsWord(x) && i < 10 && j < 4
    requires |b1| == 40 && ArePermutations(b1, 64) && |b2| == 10 && ArePermutations(b2, 1024)
    ensures ToNat(x[16 * j..16 * j + 6]) < 64 && ToNat(x[16 * j + 6..16 * j + 16]) < 1024
    ensures SmallEntry(x, i, b1, j) == b1[4 * i + j][ToNat(x[16 * j..16 * j + 6])]
    ensures LargeEntry(x, i, b2, j) == b2[i][ToNat(x[16 * j + 6..16 * j + 16])]
  {
    SliceBound(x, 16 * j, 6);
    SliceBound(x, 16 * j + 6, 10);
  }

  // ---------- linear layer and round key ----------

  /** How many of the first `n` rotations bring a one to bit `b`. */
  function Hits(x: Bits, rs: seq<nat>, b: nat, n: nat): nat
    requires IsWord(x) && n <= |rs|
  {
    if n == 0 then 0 else Hits(x, rs, b, n - 1) + if x[(b - rs[n - 1]) % 64] then 1 else 0
  }

  lemma {:induction false} MixBit(x: Bits, rs: seq<nat>, b: nat, n: nat)
    requires IsWord(x) && AreRotations(rs) && b < 64 && n <= |rs|
    ensures Mix(x, rs[..n])[b] <==> Hits(x, rs, b, n) % 2 == 1
  {
    hide Rot, Xor;
    if n > 0 {
      MixBit(x, rs, b, n - 1);
      assert rs[..n][..n - 1] == rs[..n - 1];
      TurnedBit(x, rs[n - 1], b);
      XorBit(Mix(x, rs[..n - 1]), Rot(x, rs[n - 1]), b);
    }
  }

  lemma TurnedBit(x: Bits, r: nat, b: nat)
    requires IsWord(x) && r < 64 && b < 64
    ensures IsWord(Rot(x, r)) && Rot(x, r)[b] == x[(b - r) % 64]
  {
    hide Rot;
    RotBit(x, r, b);
  }

  /** Bit `b` of word `i` becomes the exclusive-or of that bit of the next word and of
      the bits that the rotations bring there from word `i`. */
  lemma LinearBit(s: State, rs: seq<nat>, i: nat, b: nat)
    requires IsState(s) && AreRotations(rs) && i < 10 && b < 64
    ensures Linear(s, 1, rs)[i][b] != s[(i + 1) % 10][b] <==> Hits(s[i], rs, b, |rs|) % 2 == 1
  {
    hide Mix, Xor, Hits, Linear;
    LinearAt(s, 1, rs, i);
    MixBit(s[i], rs, b, |rs|);
    assert rs[..|rs|] == rs;
    XorBit(s[(i + 1) % 10], Mix(s[i], rs), b);
  }

  /** A round key flips the lowest bit of the words that its own bits name, and nothing else. */
  lemma RoundKeyBit(s: State, k: nat, i: nat, b: nat)
    requires IsState(s) && i < 10 && b < 64
    ensures WithRoundKey(s, k)[i][b] != s[i][b] <==> b == 0 && k / Pow2(i) % 2 == 1
  {
    hide FromNat, Pow2, Xor;
    var f := k / Pow2(i) % 2;
    XorBit(s[i], FromNat(f, 64), b);
    FromNatBit(f, 64, b);
    OneBit(f, b);
  }

  lemma OneBit(f: nat, b: nat)
    requires f < 2
    ensures f / Pow2(b) % 2 == 1 <==> b == 0 && f == 1
  {
    if b > 0 {
      PowGrows(1, b);
      assert Pow2(1) == 2;
      hide Pow2;
      DivMod(f, Pow2(b), 0, f);
    }
  }
}
