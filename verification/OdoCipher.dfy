/**
 OdoCrypt as a function of the key and the block, and its main theorem: for every
 well-formed key `Decipher` undoes `Encipher` on every block.
 */
module OdoCipher {
  import opened Words
  import opened OdoLinear
  import opened OdoLayers

  const DIGEST_SIZE: nat := 80

  // ---------- bytes and words ----------

  function Unpacked(bytes: seq<Byte>): (s: State)
    requires |bytes| == 80
    ensures IsState(s)
  {
    seq(10, i requires 0 <= i < 10 =>
      seq(64, b requires 0 <= b < 64 => FromNat(bytes[8 * i + b / 8], 8)[b % 8]))
  }

  function ByteOf(x: Bits, j: nat): (b: Byte)
    requires IsWord(x) && j < 8
  {
    ToNatBound(x[8 * j..8 * j + 8]);
    Pow2Values();
    ToNat(x[8 * j..8 * j + 8])
  }

  function Packed(s: State): (bytes: seq<Byte>)
    requires IsState(s)
    ensures |bytes| == 80
  {
    seq(80, n requires 0 <= n < 80 => ByteOf(s[n / 8], n % 8))
  }

  lemma UnpackedSlice(bytes: seq<Byte>, i: nat, j: nat)
    requires |bytes| == 80 && i < 10 && j < 8
    ensures Unpacked(bytes)[i][8 * j..8 * j + 8] == FromNat(bytes[8 * i + j], 8)
  {
    var x, y := Unpacked(bytes)[i][8 * j..8 * j + 8], FromNat(bytes[8 * i + j], 8);
    forall t | 0 <= t < 8
      ensures x[t] == y[t]
    {
      assert (8 * j + t) / 8 == j && (8 * j + t) % 8 == t;
    }
  }

  lemma PackedUnpacked(bytes: seq<Byte>)
    requires |bytes| == 80
    ensures Packed(Unpacked(bytes)) == bytes
  {
    forall n | 0 <= n < 80
      ensures Packed(Unpacked(bytes))[n] == bytes[n]
    {
      hide FromNat, Unpacked;
      UnpackedSlice(bytes, n / 8, n % 8);
      Pow2Values();
      ToFromNat(bytes[n], 8);
    }
  }

  lemma PackedAt(s: State, i: nat, j: nat)
    requires IsState(s) && i < 10 && j < 8
    ensures Packed(s)[8 * i + j] == ByteOf(s[i], j)
  {
    hide ByteOf;
    assert (8 * i + j) / 8 == i && (8 * i + j) % 8 == j;
  }

  lemma UnpackedPackedWord(s: State, i: nat)
    requires IsState(s) && i < 10
    ensures Unpacked(Packed(s))[i] == s[i]
  {
    hide FromNat, ToNat, Unpacked, Packed;
    var x, y := Unpacked(Packed(s))[i], s[i];
    forall j | 0 <= j < 8
      ensures x[8 * j..8 * j + 8] == y[8 * j..8 * j + 8]
    {
      UnpackedSlice(Packed(s), i, j);
      PackedAt(s, i, j);
      FromToNat(y[8 * j..8 * j + 8]);
    }
    forall b | 0 <= b < 64
      ensures x[b] == y[b]
    {
      var j := b / 8;
      assert x[8 * j..8 * j + 8][b % 8] == y[8 * j..8 * j + 8][b % 8];
    }
  }

  lemma UnpackedPacked(s: State)
    requires IsState(s)
    ensures Unpacked(Packed(s)) == s
  {
    hide Unpacked, Packed;
    forall i | 0 <= i < 10
      ensures Unpacked(Packed(s))[i] == s[i]
    {
      UnpackedPackedWord(s, i);
    }
  }

  // ---------- inverse tables ----------

  function Range(n: nat): (r: set<nat>)
    ensures |r| == n && forall i :: i in r <==> 0 <= i < n
  {
    if n == 0 then {} else Range(n - 1) + {n - 1}
  }

  function Elements(p: seq<nat>): (r: set<nat>)
    ensures forall x :: x in r <==> x in p
  {
    if p == [] then {} else Elements(p[..|p| - 1]) + {p[|p| - 1]}
  }

  lemma {:induction false} DistinctSize(p: seq<nat>)
    requires forall j, k :: 0 <= j < k < |p| ==> p[j] != p[k]
    ensures |Elements(p)| == |p|
  {
    if p != [] {
      DistinctSize(p[..|p| - 1]);
    }
  }

  lemma SubsetOfSameSize(a: set<nat>, b: set<nat>)
    requires a <= b && |a| == |b|
    ensures a == b
  {
    assert b == a + (b - a);
  }

  /** A permutation reaches every index. */
  lemma PermutationCovers(p: seq<nat>, v: nat)
    requires IsPermutation(p) && v < |p|
    ensures v in p
  {
    DistinctSize(p);
    SubsetOfSameSize(Elements(p), Range(|p|));
    assert v in Range(|p|);
  }

  function Find(p: seq<nat>, v: nat): (j: nat)
    requires v in p
    ensures j < |p| && p[j] == v
  {
    if p[|p| - 1] == v then |p| - 1 else Find(p[..|p| - 1], v)
  }

  function Inverse(p: seq<nat>): (q: seq<nat>)
    requires IsPermutation(p)
    ensures Undoes(q, p) && IsPermutation(q)
  {
    assert forall v: nat | v < |p| :: v in p by {
      forall v: nat | v < |p|
        ensures v in p
      {
        PermutationCovers(p, v);
      }
    }
    seq(|p|, v requires 0 <= v < |p| => Find(p, v))
  }

  /** There is only one table that sends every entry back to its index. */
  lemma InverseUnique(p: seq<nat>, q: seq<nat>)
    requires Undoes(q, p)
    ensures q == Inverse(p)
  {
    forall v: nat | v < |p|
      ensures q[v] == Inverse(p)[v]
    {
      PermutationCovers(p, v);
      var j :| 0 <= j < |p| && p[j] == v;
    }
  }

  function Inverses(boxes: seq<seq<nat>>, size: nat): (inv: seq<seq<nat>>)
    requires ArePermutations(boxes, size)
    ensures AllUndo(inv, boxes) && ArePermutations(inv, size)
  {
    seq(|boxes|, i requires 0 <= i < |boxes| => Inverse(boxes[i]))
  }

  // ---------- the cipher ----------

  function Round(s: State, k: Key, round: nat): (t: State)
    requires IsState(s) && IsKey(k) && round < 84
    ensures IsState(t)
  {
    var a := ApplyP(s, k.perm[0]);
    var b := Sboxes(a, k.sbox1, k.sbox2);
    var c := ApplyP(b, k.perm[1]);
    WithRoundKey(Linear(c, 1, k.rotations), k.roundKey[round])
  }

  function InvRound(s: State, k: Key, round: nat): (t: State)
    requires IsState(s) && IsKey(k) && round < 84
    ensures IsState(t)
  {
    var c := Iterate(WithRoundKey(s, k.roundKey[round]), 1, k.rotations, STATE_SIZE * WORD_BITS - 1);
    var b := ApplyInvP(c, k.perm[1]);
    var a := Sboxes(b, Inverses(k.sbox1, 64), Inverses(k.sbox2, 1024));
    ApplyInvP(a, k.perm[0])
  }

  function Rounds(s: State, k: Key, n: nat): (t: State)
    requires IsState(s) && IsKey(k) && n <= 84
    ensures IsState(t)
  {
    if n == 0 then s else Round(Rounds(s, k, n - 1), k, n - 1)
  }

  function InvRounds(s: State, k: Key, n: nat): (t: State)
    requires IsState(s) && IsKey(k) && n <= 84
    ensures IsState(t)
    decreases |k.roundKey|, n
  {
    if n == 0 then s else InvRounds(InvRound(s, k, n - 1), k, n - 1)
  }

  function Encipher(k: Key, plain: seq<Byte>): (cipher: seq<Byte>)
    requires IsKey(k) && |plain| == DIGEST_SIZE
    ensures |cipher| == DIGEST_SIZE
  {
    Packed(Rounds(PreMixed(Unpacked(plain)), k, ROUNDS))
  }

  function Decipher(k: Key, cipher: seq<Byte>): (plain: seq<Byte>)
    requires IsKey(k) && |cipher| == DIGEST_SIZE
    ensures |plain| == DIGEST_SIZE
  {
    Packed(PreMixed(InvRounds(Unpacked(cipher), k, ROUNDS)))
  }

  lemma RoundInverse(s: State, k: Key, round: nat)
    requires IsState(s) && IsKey(k) && round < 84
    ensures InvRound(Round(s, k, round), k, round) == s
  {
    hide ApplyP, ApplyInvP, Sboxes, Linear, Iterate, WithRoundKey, Inverses, IsState;
    var a := ApplyP(s, k.perm[0]);
    var b := Sboxes(a, k.sbox1, k.sbox2);
    var c := ApplyP(b, k.perm[1]);
    RoundKeyInvolution(Linear(c, 1, k.rotations), k.roundKey[round]);
    LinearInverse(c, k.rotations);
    PboxInverse(b, k.perm[1]);
    SboxesInverse(a, k.sbox1, k.sbox2, Inverses(k.sbox1, 64), Inverses(k.sbox2, 1024));
    PboxInverse(s, k.perm[0]);
  }

  lemma {:induction false} RoundsInverse(s: State, k: Key, n: nat)
    requires IsState(s) && IsKey(k) && n <= 84
    ensures InvRounds(Rounds(s, k, n), k, n) == s
    decreases n
  {
    hide Round, InvRound, IsState, IsKey;
    if n > 0 {
      RoundInverse(Rounds(s, k, n - 1), k, n - 1);
      RoundsInverse(s, k, n - 1);
    }
  }

  /** Deciphering undoes enciphering. */
  lemma DecipherEncipher(k: Key, plain: seq<Byte>)
    requires IsKey(k) && |plain| == DIGEST_SIZE
    ensures Decipher(k, Encipher(k, plain)) == plain
  {
    hide Rounds, InvRounds, PreMixed, Packed, Unpacked, IsState, IsKey;
    var s := PreMixed(Unpacked(plain));
    UnpackedPacked(Rounds(s, k, ROUNDS));
    RoundsInverse(s, k, ROUNDS);
    PreMixInvolution(Unpacked(plain));
    PackedUnpacked(plain);
  }

  /** So a key never sends two different blocks to the same cipher block. */
  lemma EncipherIsOneToOne(k: Key, p: seq<Byte>, q: seq<Byte>)
    requires IsKey(k) && |p| == |q| == DIGEST_SIZE
    ensures Encipher(k, p) == Encipher(k, q) <==> p == q
  {
    hide Encipher, Decipher, IsKey;
    DecipherEncipher(k, p);
    DecipherEncipher(k, q);
  }
}
