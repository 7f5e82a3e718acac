/**
 The step mappings of KECCAK-f[1600] as FIPS 202 section 3.2 defines them, on 25 lanes of
 64 bits; the lane of column x and row y has index x + 5 * y.
 */
module KeccakSpec {

  import opened Words

  /** A 64-bit lane by its bits, least significant first. */
  datatype Lane = Lane(bits: Bits)

  datatype State = State(s0: Lane, s1: Lane, s2: Lane, s3: Lane, s4: Lane, s5: Lane, s6: Lane, s7: Lane, s8: Lane,
      s9: Lane, s10: Lane, s11: Lane, s12: Lane, s13: Lane, s14: Lane, s15: Lane, s16: Lane, s17: Lane, s18: Lane,
        s19: Lane, s20: Lane, s21: Lane, s22: Lane, s23: Lane, s24: Lane)

  function Sum(a: Lane, b: Lane): (r: Lane)
    ensures IsWord(r.bits)
  {
    Lane(Xor(a.bits, b.bits))
  }

  /** The rotation of section 3.2: every bit moves `n` places up, around the lane's size. */
  function Rotated(x: Lane, n: nat): Lane {
    Lane(seq(64, z => Bit(x.bits, (z - n) % 64)))
  }

  function ChiLane(a: Lane, b: Lane, c: Lane): Lane {
    Lane(seq(64, z => Bit(a.bits, z) != (!Bit(b.bits, z) && Bit(c.bits, z))))
  }

  /** The lane of column x and row y. */
  function At(s: State, x: nat, y: nat): Lane {
    if y == 0 then (if x == 0 then s.s0 else if x == 1 then s.s1 else if x == 2 then s.s2 else if x == 3 then s.s3
      else s.s4)
    else if y == 1 then (if x == 0 then s.s5 else if x == 1 then s.s6 else if x == 2 then s.s7 else if x == 3
      then s.s8 else s.s9)
    else if y == 2 then (if x == 0 then s.s10 else if x == 1 then s.s11 else if x == 2 then s.s12 else if x == 3
      then s.s13 else s.s14)
    else if y == 3 then (if x == 0 then s.s15 else if x == 1 then s.s16 else if x == 2 then s.s17 else if x == 3
      then s.s18 else s.s19)
    else if x == 0 then s.s20 else if x == 1 then s.s21 else if x == 2 then s.s22 else if x == 3 then s.s23 else s.s24
  }

  /** The state with a given lane in every column and row. */
  function Build(f: (nat, nat) -> Lane): State {
    State(
      f(0, 0), f(1, 0), f(2, 0), f(3, 0), f(4, 0),
      f(0, 1), f(1, 1), f(2, 1), f(3, 1), f(4, 1),
      f(0, 2), f(1, 2), f(2, 2), f(3, 2), f(4, 2),
      f(0, 3), f(1, 3), f(2, 3), f(3, 3), f(4, 3),
      f(0, 4), f(1, 4), f(2, 4), f(3, 4), f(4, 4))
  }

  function Column(s: State, x: nat): Lane {
    Sum(Sum(Sum(Sum(At(s, x, 0), At(s, x, 1)), At(s, x, 2)), At(s, x, 3)), At(s, x, 4))
  }

  function Theta(s: State): State {
    Build((x: nat, y: nat) => Sum(At(s, x, y), Sum(Column(s, (x + 4) % 5), Rotated(Column(s, (x + 1) % 5), 1))))
  }

  /** The offsets of rho, modulo the lane size. */
  function Offset(x: nat, y: nat): (n: nat)
    ensures n < 64
  {
    if y == 0 then (if x == 0 then 0 else if x == 1 then 1 else if x == 2 then 62 else if x == 3 then 28 else 27)
    else if y == 1 then (if x == 0 then 36 else if x == 1 then 44 else if x == 2 then 6 else if x == 3 then 55 else 20)
    else if y == 2 then (if x == 0 then 3 else if x == 1 then 10 else if x == 2 then 43 else if x == 3 then 25 else 39)
    else if y == 3 then (if x == 0 then 41 else if x == 1 then 45 else if x == 2 then 15 else if x == 3 then 21 else 8)
    else if x == 0 then 18 else if x == 1 then 2 else if x == 2 then 61 else if x == 3 then 56 else 14
  }

  /** The standard's walk over the lanes: lane `Walk(t)` is rotated by (t + 1)(t + 2) / 2. */
  function Walk(t: nat): (p: (nat, nat))
    ensures p.0 < 5 && p.1 < 5
  {
    if t == 0 then (1, 0)
    else
      var p := Walk(t - 1);
      (p.1, (2 * p.0 + 3 * p.1) % 5)
  }

  function Triangle(t: nat): nat {
    if t == 0 then 1 else Triangle(t - 1) + t + 1
  }

  predicate OffsetsFollow(t: nat) {
    Offset(Walk(t).0, Walk(t).1) == Triangle(t) % 64
  }

  /** The table of offsets is the one the standard's walk computes. */
  lemma {:induction false} OffsetsAreTheWalk(n: nat)
    requires n <= 24
    ensures forall t :: 0 <= t < n ==> OffsetsFollow(t)
  {
    if n > 0 {
      OffsetsAreTheWalk(n - 1);
      WalkValues(n - 1);
    }
  }

  lemma WalkStep(t: nat, x: nat, y: nat, n: nat)
    requires Walk(t) == (x, y) && Triangle(t) == n
    ensures Walk(t + 1) == (y, (2 * x + 3 * y) % 5) && Triangle(t + 1) == n + t + 2
  {
  }

  lemma WalkStart()
    ensures Walk(0) == (1, 0) && Triangle(0) == 1
  {
  }

  lemma WalkValues(t: nat)
    requires t < 24
    ensures OffsetsFollow(t)
  {
    hide Walk, Triangle;
    WalkStart();
    WalkStep(0, 1, 0, 1); WalkStep(1, 0, 2, 3); WalkStep(2, 2, 1, 6); WalkStep(3, 1, 2, 10);
    WalkStep(4, 2, 3, 15); WalkStep(5, 3, 3, 21); WalkStep(6, 3, 0, 28); WalkStep(7, 0, 1, 36);
    WalkStep(8, 1, 3, 45); WalkStep(9, 3, 1, 55); WalkStep(10, 1, 4, 66); WalkStep(11, 4, 4, 78);
    WalkStep(12, 4, 0, 91); WalkStep(13, 0, 3, 105); WalkStep(14, 3, 4, 120); WalkStep(15, 4, 3, 136);
    WalkStep(16, 3, 2, 153); WalkStep(17, 2, 2, 171); WalkStep(18, 2, 0, 190); WalkStep(19, 0, 4, 210);
    WalkStep(20, 4, 2, 231); WalkStep(21, 2, 4, 253); WalkStep(22, 4, 1, 276);
  }

  function Rho(s: State): State {
    Build((x: nat, y: nat) => Rotated(At(s, x, y), Offset(x, y)))
  }

  function Pi(s: State): State {
    Build((x: nat, y: nat) => At(s, (x + 3 * y) % 5, x))
  }

  function Chi(s: State): State {
    Build((x: nat, y: nat) => ChiLane(At(s, x, y), At(s, (x + 1) % 5, y), At(s, (x + 2) % 5, y)))
  }

  function EarlyConstants(): (r: seq<nat>)
    ensures |r| == 12
  {
    [0x0000000000000001, 0x0000000000008082, 0x800000000000808a, 0x8000000080008000,
     0x000000000000808b, 0x0000000080000001, 0x8000000080008081, 0x8000000000008009,
     0x000000000000008a, 0x0000000000000088, 0x0000000080008009, 0x000000008000000a]
  }

  function LateConstants(): (r: seq<nat>)
    ensures |r| == 12
  {
    [0x000000008000808b, 0x800000000000008b, 0x8000000000008089, 0x8000000000008003,
     0x8000000000008002, 0x8000000000000080, 0x000000000000800a, 0x800000008000000a,
     0x8000000080008081, 0x8000000000008080, 0x0000000080000001, 0x8000000080008008]
  }

  function RoundNumber(round: nat): nat {
    if round < 12 then EarlyConstants()[round] else if round < 24 then LateConstants()[round - 12] else 0
  }

  function RoundConstant(round: nat): Lane {
    Lane(FromNat(RoundNumber(round), 64))
  }

  /** The shift register of section 3.2.5, bit k of the number being R[k]: one step of
      algorithm 5 shifts the bits up and adds R[8] to R[0], R[4], R[5] and R[6]. */
  function Next(r: bv8): bv8 {
    (r << 1) ^ (if r & 0x80 != 0 then 0x71 else 0)
  }

  function Register(t: nat): bv8 {
    if t == 0 then 1 else Next(Register(t - 1))
  }

  /** The bit rc(t), for t below the register's period of 255. */
  predicate Rc(t: nat) {
    Register(t) & 1 != 0
  }

  /** The lane with the seven bits at the places 2^j - 1. */
  function Spread(b0: bool, b1: bool, b2: bool, b3: bool, b4: bool, b5: bool, b6: bool): Lane {
    Lane([b0, b1, false, b2] + ZeroBits(3) + [b3] + ZeroBits(7) + [b4] + ZeroBits(15) + [b5] + ZeroBits(31) + [b6])
  }

  /** Algorithm 6: the constant of a round holds rc(j + 7 * round) at bit 2^j - 1. */
  predicate ConstantFollows(round: nat) {
    var t := 7 * round;
    RoundConstant(round) == Spread(Rc(t), Rc(t + 1), Rc(t + 2), Rc(t + 3), Rc(t + 4), Rc(t + 5), Rc(t + 6))
  }

  function Digit(b: bool, weight: nat): nat {
    if b then weight else 0
  }

  lemma OneBit(bits: Bits, n: nat, b: bool)
    ensures ToNat(bits + ZeroBits(n) + [b]) == ToNat(bits) + Digit(b, Pow2(|bits| + n))
  {
    hide ToNat, Pow2, ZeroBits;
    ToNatConcat(bits + ZeroBits(n), [b]);
    ToNatConcat(bits, ZeroBits(n));
    ToNatZero(n);
    NextBit(b, []);
    assert [b] + [] == [b];
  }

  lemma SpreadValue(b0: bool, b1: bool, b2: bool, b3: bool, b4: bool, b5: bool, b6: bool)
    ensures |Spread(b0, b1, b2, b3, b4, b5, b6).bits| == 64
    ensures ToNat(Spread(b0, b1, b2, b3, b4, b5, b6).bits)
         == Digit(b0, 1) + Digit(b1, 2) + Digit(b2, 8) + Digit(b3, 0x80) + Digit(b4, 0x8000)
          + Digit(b5, 0x8000_0000) + Digit(b6, 0x8000_0000_0000_0000)
  {
    hide Pow2, ToNat;
    var s2 := [b0, b1, false, b2];
    FourBits(b0, b1, false, b2);
    var s3 := s2 + ZeroBits(3) + [b3];
    var s4 := s3 + ZeroBits(7) + [b4];
    var s5 := s4 + ZeroBits(15) + [b5];
    OneBit(s2, 3, b3);
    OneBit(s3, 7, b4);
    OneBit(s4, 15, b5);
    OneBit(s5, 31, b6);
    PowerValues();
    assert Spread(b0, b1, b2, b3, b4, b5, b6).bits == s5 + ZeroBits(31) + [b6];
  }

  lemma FourBits(b0: bool, b1: bool, b2: bool, b3: bool)
    ensures ToNat([b0, b1, b2, b3]) == Digit(b0, 1) + Digit(b1, 2) + Digit(b2, 4) + Digit(b3, 8)
  {
    hide ToNat;
    NextBit(b0, [b1, b2, b3]);
    NextBit(b1, [b2, b3]);
    NextBit(b2, [b3]);
    NextBit(b3, []);
    assert [b0] + [b1, b2, b3] == [b0, b1, b2, b3] && [b1] + [b2, b3] == [b1, b2, b3];
    assert [b2] + [b3] == [b2, b3] && [b3] + [] == [b3];
  }

  lemma NextBit(b: bool, rest: Bits)
    ensures ToNat([b] + rest) == Digit(b, 1) + 2 * ToNat(rest) && ToNat([]) == 0
  {
    assert ([b] + rest)[1..] == rest;
  }

  lemma PowerValues()
    ensures Pow2(7) == 0x80 && Pow2(15) == 0x8000 && Pow2(31) == 0x8000_0000 && Pow2(63) == 0x8000_0000_0000_0000
  {
    hide Pow2;
    Pow2Values();
    PowAdd(1, 7);
    PowAdd(8, 7);
    PowAdd(8, 8);
    PowAdd(16, 15);
    PowAdd(16, 16);
    PowAdd(32, 31);
    assert Pow2(1) == 2 by {
      FirstPower();
    }
  }

  lemma FirstPower()
    ensures Pow2(1) == 2
  {
    assert Pow2(0) == 1;
  }

  /** The constant is determined by its value. */
  lemma SpreadIsConstant(n: nat, b0: bool, b1: bool, b2: bool, b3: bool, b4: bool, b5: bool, b6: bool)
    requires n == Digit(b0, 1) + Digit(b1, 2) + Digit(b2, 8) + Digit(b3, 0x80) + Digit(b4, 0x8000)
                + Digit(b5, 0x8000_0000) + Digit(b6, 0x8000_0000_0000_0000)
    ensures Lane(FromNat(n, 64)) == Spread(b0, b1, b2, b3, b4, b5, b6)
  {
    hide Spread, FromNat, ToNat;
    SpreadValue(b0, b1, b2, b3, b4, b5, b6);
    FromToNat(Spread(b0, b1, b2, b3, b4, b5, b6).bits);
  }

  /** The number with the next seven bits of the register at the places 2^j - 1. */
  function SevenBits(r0: bv8): nat {
    var r1 := Next(r0);
    var r2 := Next(r1);
    var r3 := Next(r2);
    var r4 := Next(r3);
    var r5 := Next(r4);
    var r6 := Next(r5);
    Digit(r0 & 1 != 0, 1) + Digit(r1 & 1 != 0, 2) + Digit(r2 & 1 != 0, 8) + Digit(r3 & 1 != 0, 0x80)
    + Digit(r4 & 1 != 0, 0x8000) + Digit(r5 & 1 != 0, 0x8000_0000) + Digit(r6 & 1 != 0, 0x8000_0000_0000_0000)
  }

  function SevenSteps(r: bv8): bv8 {
    Next(Next(Next(Next(Next(Next(Next(r)))))))
  }

  lemma RegisterNext(t: nat)
    ensures Register(t + 1) == Next(Register(t))
  {
  }

  /** One round's constant, from the register's state before it. */
  lemma RoundStep(round: nat, r: bv8)
    requires Register(7 * round) == r
    ensures Register(7 * (round + 1)) == SevenSteps(r)
    ensures RoundNumber(round) == SevenBits(r) ==> ConstantFollows(round)
  {
    hide Register, Next, RoundNumber, Spread, FromNat;
    var t := 7 * round;
    RegisterNext(t); RegisterNext(t + 1); RegisterNext(t + 2); RegisterNext(t + 3);
    RegisterNext(t + 4); RegisterNext(t + 5); RegisterNext(t + 6);
    if RoundNumber(round) == SevenBits(r) {
      SpreadIsConstant(RoundNumber(round), Rc(t), Rc(t + 1), Rc(t + 2), Rc(t + 3), Rc(t + 4), Rc(t + 5), Rc(t + 6));
    }
  }

  lemma RegisterValues()
    ensures SevenSteps(0x01) == 0x80 && SevenSteps(0x80) == 0xd8 && SevenSteps(0xd8) == 0x1a
    ensures SevenSteps(0x1a) == 0xdf && SevenSteps(0xdf) == 0x09 && SevenSteps(0x09) == 0x35
    ensures SevenSteps(0x35) == 0x4f && SevenSteps(0x4f) == 0xca && SevenSteps(0xca) == 0x70
    ensures SevenSteps(0x70) == 0x41 && SevenSteps(0x41) == 0xec && SevenSteps(0xec) == 0xd5
    ensures SevenSteps(0xd5) == 0xcd && SevenSteps(0xcd) == 0x63 && SevenSteps(0x63) == 0xab
    ensures SevenSteps(0xab) == 0xaa && SevenSteps(0xaa) == 0x2a && SevenSteps(0x2a) == 0xf2
    ensures SevenSteps(0xf2) == 0xe8 && SevenSteps(0xe8) == 0x37 && SevenSteps(0x37) == 0x3e
    ensures SevenSteps(0x3e) == 0x0b && SevenSteps(0x0b) == 0x44
  {
  }

  lemma FirstBits()
    ensures SevenBits(0x01) == RoundNumber(0) && SevenBits(0x80) == RoundNumber(1) && SevenBits(0xd8) == RoundNumber(2)
    ensures SevenBits(0x1a) == RoundNumber(3) && SevenBits(0xdf) == RoundNumber(4) && SevenBits(0x09) == RoundNumber(5)
  {
  }

  lemma SecondBits()
    ensures SevenBits(0x35) == RoundNumber(6) && SevenBits(0x4f) == RoundNumber(7) && SevenBits(0xca) == RoundNumber(8)
    ensures SevenBits(0x70) == RoundNumber(9) && SevenBits(0x41) == RoundNumber(10)
      && SevenBits(0xec) == RoundNumber(11)
  {
  }

  lemma ThirdBits()
    ensures SevenBits(0xd5) == RoundNumber(12) && SevenBits(0xcd) == RoundNumber(13)
      && SevenBits(0x63) == RoundNumber(14)
    ensures SevenBits(0xab) == RoundNumber(15) && SevenBits(0xaa) == RoundNumber(16)
      && SevenBits(0x2a) == RoundNumber(17)
  {
  }

  lemma LastBits()
    ensures SevenBits(0xf2) == RoundNumber(18) && SevenBits(0xe8) == RoundNumber(19)
      && SevenBits(0x37) == RoundNumber(20)
    ensures SevenBits(0x3e) == RoundNumber(21) && SevenBits(0x0b) == RoundNumber(22)
      && SevenBits(0x44) == RoundNumber(23)
  {
  }

  /** The table of constants is the one the standard's shift register computes. */
  lemma ConstantsAreTheRegister(round: nat)
    requires round < 24
    ensures ConstantFollows(round)
  {
    hide Register, SevenSteps, SevenBits, ConstantFollows, RoundNumber;
    RegisterValues();
    FirstBits();
    SecondBits();
    ThirdBits();
    LastBits();
    FirstRegister();
    RoundStep(0, 0x01); RoundStep(1, 0x80); RoundStep(2, 0xd8); RoundStep(3, 0x1a);
    RoundStep(4, 0xdf); RoundStep(5, 0x09); RoundStep(6, 0x35); RoundStep(7, 0x4f);
    RoundStep(8, 0xca); RoundStep(9, 0x70); RoundStep(10, 0x41); RoundStep(11, 0xec);
    RoundStep(12, 0xd5); RoundStep(13, 0xcd); RoundStep(14, 0x63); RoundStep(15, 0xab);
    RoundStep(16, 0xaa); RoundStep(17, 0x2a); RoundStep(18, 0xf2); RoundStep(19, 0xe8);
    RoundStep(20, 0x37); RoundStep(21, 0x3e); RoundStep(22, 0x0b); RoundStep(23, 0x44);
  }

  lemma FirstRegister()
    ensures Register(0) == 1
  {
  }

  function Iota(s: State, round: nat): State {
    s.(s0 := Sum(s.s0, RoundConstant(round)))
  }

  function Round(s: State, round: nat): State {
    Iota(Chi(Pi(Rho(Theta(s)))), round)
  }

  /** The first `n` of the 24 rounds. */
  function Rounds(s: State, n: nat): State {
    if n == 0 then s else Round(Rounds(s, n - 1), n - 1)
  }
}
