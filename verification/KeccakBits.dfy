/**
 KECCAK-f[1600] bit by bit, in the notation of FIPS 202: A[x, y, z] is the bit of column x,
 row y and place z, and every step mapping of section 3.2 is an equation between such bits.
 The permutation is the end of a chain of states that stand in these equations.
 */
module KeccakBits {
  import opened KeccakSpec
  import opened Words
  import H = KeccakHash

  /** A[x, y, z] */
  predicate Cell(s: State, x: nat, y: nat, z: nat) {
    Bit(At(s, x, y).bits, z)
  }

  /** Section 3.1.2: A[x, y, z] is bit 64 * (5 * y + x) + z of the state string. */
  lemma CellOfString(s: Bits, x: nat, y: nat, z: nat)
    requires |s| == 1600 && x < 5 && y < 5 && z < 64
    ensures Cell(H.StateOf(s), x, y, z) == s[64 * (5 * y + x) + z]
  {
    hide H.LaneAt;
    H.LaneBit(s, 5 * y + x, z);
  }

  lemma StringOfCell(a: State, x: nat, y: nat, z: nat)
    requires x < 5 && y < 5 && z < 64
    ensures H.StringOf(a)[64 * (5 * y + x) + z] == Cell(a, x, y, z)
  {
    hide H.StringOf, At;
    H.StringBit(a, 5 * y + x, z);
    assert (5 * y + x) % 5 == x && (5 * y + x) / 5 == y;
  }

  // ---------- theta ----------

  function One(b: bool): nat {
    if b then 1 else 0
  }

  /** The ones of column x at place z. */
  function Ones(s: State, x: nat, z: nat): nat {
    One(Cell(s, x, 0, z)) + One(Cell(s, x, 1, z)) + One(Cell(s, x, 2, z)) + One(Cell(s, x, 3, z))
    + One(Cell(s, x, 4, z))
  }

  lemma SumBit(a: Lane, b: Lane, z: nat)
    requires z < 64
    ensures Bit(Sum(a, b).bits, z) == (Bit(a.bits, z) != Bit(b.bits, z))
  {
  }

  lemma RotatedBit(a: Lane, n: nat, z: nat)
    requires z < 64
    ensures Bit(Rotated(a, n).bits, z) == Bit(a.bits, (z - n) % 64)
  {
  }

  lemma Built(f: (nat, nat) -> Lane, x: nat, y: nat)
    requires x < 5 && y < 5
    ensures At(Build(f), x, y) == f(x, y)
  {
  }

  lemma ColumnBit(s: State, x: nat, z: nat)
    requires z < 64
    ensures Bit(Column(s, x).bits, z) <==> Ones(s, x, z) % 2 == 1
  {
    hide At, Sum;
    var a, b, c, d, e := At(s, x, 0), At(s, x, 1), At(s, x, 2), At(s, x, 3), At(s, x, 4);
    SumBit(a, b, z);
    SumBit(Sum(a, b), c, z);
    SumBit(Sum(Sum(a, b), c), d, z);
    SumBit(Sum(Sum(Sum(a, b), c), d), e, z);
  }

  /** Section 3.2.1: the parities of column x - 1 and, one place below, of column x + 1 are added. */
  lemma ThetaBit(s: State, x: nat, y: nat, z: nat)
    requires x < 5 && y < 5 && z < 64
    ensures Cell(Theta(s), x, y, z) != Cell(s, x, y, z) <==>
            (Ones(s, (x + 4) % 5, z) + Ones(s, (x + 1) % 5, (z + 63) % 64)) % 2 == 1
  {
    hide At, Build, Column, Sum, Rotated, Ones;
    var left, right := Column(s, (x + 4) % 5), Column(s, (x + 1) % 5);
    var f := (x: nat, y: nat) => Sum(At(s, x, y), Sum(Column(s, (x + 4) % 5), Rotated(Column(s, (x + 1) % 5), 1)));
    Built(f, x, y);
    assert At(Theta(s), x, y) == Sum(At(s, x, y), Sum(left, Rotated(right, 1)));
    SumBit(At(s, x, y), Sum(left, Rotated(right, 1)), z);
    SumBit(left, Rotated(right, 1), z);
    RotatedBit(right, 1, z);
    assert (z - 1) % 64 == (z + 63) % 64;
    ColumnBit(s, (x + 4) % 5, z);
    ColumnBit(s, (x + 1) % 5, (z + 63) % 64);
  }

  // ---------- rho and pi ----------

  lemma {:induction false} TriangleIs(t: nat)
    ensures Triangle(t) == (t + 1) * (t + 2) / 2 && (t + 1) * (t + 2) % 2 == 0
  {
    if t > 0 {
      TriangleIs(t - 1);
      assert (t + 1) * (t + 2) == t * (t + 1) + 2 * (t + 1);
    }
  }

  /** Section 3.2.2: lane number t of the walk moves up (t + 1)(t + 2) / 2 places, cyclically. */
  lemma RhoBit(s: State, t: nat, z: nat)
    requires t < 24 && z < 64
    ensures
      var (x, y) := Walk(t);
      Cell(Rho(s), x, y, z) == Cell(s, x, y, (z - (t + 1) * (t + 2) / 2) % 64)
  {
    hide At, Build, Rotated, Offset, Triangle, Walk;
    var (x, y) := Walk(t);
    var f := (x: nat, y: nat) => Rotated(At(s, x, y), Offset(x, y));
    Built(f, x, y);
    assert At(Rho(s), x, y) == Rotated(At(s, x, y), Offset(x, y));
    RotatedBit(At(s, x, y), Offset(x, y), z);
    TriangleIs(t);
    OffsetsAreTheWalk(24);
    assert OffsetsFollow(t);
    SameTurn(z, Triangle(t));
  }

  lemma SameTurn(z: nat, n: nat)
    ensures (z - n % 64) % 64 == (z - n) % 64
  {
  }

  lemma RhoOrigin(s: State, z: nat)
    requires z < 64
    ensures Cell(Rho(s), 0, 0, z) == Cell(s, 0, 0, z)
  {
    hide Rotated;
    RotatedBit(s.s0, 0, z);
  }

  /** The walk of section 3.2.2. */
  lemma WalkIs(t: nat)
    ensures Walk(0) == (1, 0)
    ensures var (x, y) := Walk(t); Walk(t + 1) == (y, (2 * x + 3 * y) % 5)
  {
  }

  /** Section 3.2.3. */
  lemma PiBit(s: State, x: nat, y: nat, z: nat)
    requires x < 5 && y < 5
    ensures Cell(Pi(s), x, y, z) == Cell(s, (x + 3 * y) % 5, x, z)
  {
    hide At, Build;
    var f := (x: nat, y: nat) => At(s, (x + 3 * y) % 5, x);
    Built(f, x, y);
    assert At(Pi(s), x, y) == f(x, y);
  }

  // ---------- chi and iota ----------

  lemma ChiLaneBit(a: Lane, b: Lane, c: Lane, z: nat)
    requires z < 64
    ensures Bit(ChiLane(a, b, c).bits, z) == (Bit(a.bits, z) != (!Bit(b.bits, z) && Bit(c.bits, z)))
  {
  }

  lemma ChiFields(s: State)
    ensures
      var t := Chi(s);
      && t.s0 == ChiLane(s.s0, s.s1, s.s2) && t.s1 == ChiLane(s.s1, s.s2, s.s3) && t.s2 == ChiLane(s.s2, s.s3, s.s4)
      && t.s3 == ChiLane(s.s3, s.s4, s.s0) && t.s4 == ChiLane(s.s4, s.s0, s.s1)
      && t.s5 == ChiLane(s.s5, s.s6, s.s7) && t.s6 == ChiLane(s.s6, s.s7, s.s8) && t.s7 == ChiLane(s.s7, s.s8, s.s9)
      && t.s8 == ChiLane(s.s8, s.s9, s.s5) && t.s9 == ChiLane(s.s9, s.s5, s.s6)
      && t.s10 == ChiLane(s.s10, s.s11, s.s12) && t.s11 == ChiLane(s.s11, s.s12, s.s13)
      && t.s12 == ChiLane(s.s12, s.s13, s.s14) && t.s13 == ChiLane(s.s13, s.s14, s.s10)
      && t.s14 == ChiLane(s.s14, s.s10, s.s11)
      && t.s15 == ChiLane(s.s15, s.s16, s.s17) && t.s16 == ChiLane(s.s16, s.s17, s.s18)
      && t.s17 == ChiLane(s.s17, s.s18, s.s19) && t.s18 == ChiLane(s.s18, s.s19, s.s15)
      && t.s19 == ChiLane(s.s19, s.s15, s.s16)
      && t.s20 == ChiLane(s.s20, s.s21, s.s22) && t.s21 == ChiLane(s.s21, s.s22, s.s23)
      && t.s22 == ChiLane(s.s22, s.s23, s.s24) && t.s23 == ChiLane(s.s23, s.s24, s.s20)
      && t.s24 == ChiLane(s.s24, s.s20, s.s21)
  {
    hide ChiLane;
  }

  lemma ChiAt(s: State, x: nat, y: nat)
    requires x < 5 && y < 5
    ensures At(Chi(s), x, y) == ChiLane(At(s, x, y), At(s, (x + 1) % 5, y), At(s, (x + 2) % 5, y))
  {
    hide ChiLane, Chi;
    ChiFields(s);
  }

  /** Section 3.2.4. */
  lemma ChiBit(s: State, x: nat, y: nat, z: nat)
    requires x < 5 && y < 5 && z < 64
    ensures Cell(Chi(s), x, y, z) != Cell(s, x, y, z) <==>
            !Cell(s, (x + 1) % 5, y, z) && Cell(s, (x + 2) % 5, y, z)
  {
    hide At, Build, ChiLane, Bit, Chi;
    var a, b, c := At(s, x, y), At(s, (x + 1) % 5, y), At(s, (x + 2) % 5, y);
    ChiAt(s, x, y);
    ChiLaneBit(a, b, c, z);
  }

  /** Section 3.2.5: the round constant is added to lane (0, 0), and only there. */
  lemma IotaBit(s: State, round: nat, x: nat, y: nat, z: nat)
    requires x < 5 && y < 5 && z < 64
    ensures Cell(Iota(s, round), x, y, z) != Cell(s, x, y, z) <==> x == 0 && y == 0 && RoundConstant(round).bits[z]
  {
    hide Sum, RoundNumber;
    SumBit(s.s0, RoundConstant(round), z);
  }

  // ---------- the permutation ----------

  predicate ThetaStep(s: State, t: State) {
    forall x: nat, y: nat, z: nat :: x < 5 && y < 5 && z < 64 ==>
      (Cell(t, x, y, z) != Cell(s, x, y, z) <==>
       (Ones(s, (x + 4) % 5, z) + Ones(s, (x + 1) % 5, (z + 63) % 64)) % 2 == 1)
  }

  /** Rho and pi in one: lane (x, y) of the result is lane (x + 3y, x) moved up. */
  predicate RhoPiStep(s: State, t: State, u: State) {
    && (forall z: nat :: z < 64 ==> Cell(t, 0, 0, z) == Cell(s, 0, 0, z))
    && (forall n: nat, z: nat :: n < 24 && z < 64 ==> WalkStepAt(s, t, n, z))
    && (forall x: nat, y: nat, z: nat :: x < 5 && y < 5 && z < 64 ==>
          Cell(u, x, y, z) == Cell(t, (x + 3 * y) % 5, x, z))
  }

  predicate WalkStepAt(s: State, t: State, n: nat, z: nat) {
    var (x, y) := Walk(n);
    Cell(t, x, y, z) == Cell(s, x, y, (z - (n + 1) * (n + 2) / 2) % 64)
  }

  predicate ChiStep(s: State, t: State) {
    forall x: nat, y: nat, z: nat :: x < 5 && y < 5 && z < 64 ==>
      (Cell(t, x, y, z) != Cell(s, x, y, z) <==> !Cell(s, (x + 1) % 5, y, z) && Cell(s, (x + 2) % 5, y, z))
  }

  predicate IotaStep(s: State, t: State, round: nat) {
    forall x: nat, y: nat, z: nat :: x < 5 && y < 5 && z < 64 ==>
      (Cell(t, x, y, z) != Cell(s, x, y, z) <==> x == 0 && y == 0 && RoundConstant(round).bits[z])
  }

  /** Theta, rho, pi, chi and iota, in this order. */
  ghost predicate RoundStep(s: State, t: State, round: nat) {
    exists a, b, c, d ::
      ThetaStep(s, a) && RhoPiStep(a, b, c) && ChiStep(c, d) && IotaStep(d, t, round)
  }

  lemma RoundIsStep(s: State, round: nat)
    ensures RoundStep(s, Round(s, round), round)
  {
    hide Theta, Rho, Pi, Chi, Iota, Cell, Ones, RoundConstant, Walk;
    var a := Theta(s);
    var b := Rho(a);
    var c := Pi(b);
    var d := Chi(c);
    forall x: nat, y: nat, z: nat | x < 5 && y < 5 && z < 64
      ensures Cell(a, x, y, z) != Cell(s, x, y, z) <==>
              (Ones(s, (x + 4) % 5, z) + Ones(s, (x + 1) % 5, (z + 63) % 64)) % 2 == 1
    {
      ThetaBit(s, x, y, z);
    }
    RhoPiIsStep(a);
    forall x: nat, y: nat, z: nat | x < 5 && y < 5 && z < 64
      ensures Cell(d, x, y, z) != Cell(c, x, y, z) <==> !Cell(c, (x + 1) % 5, y, z) && Cell(c, (x + 2) % 5, y, z)
    {
      ChiBit(c, x, y, z);
    }
    IotaIsStep(d, round);
    assert ThetaStep(s, a) && ChiStep(c, d);
  }

  lemma RhoPiIsStep(s: State)
    ensures RhoPiStep(s, Rho(s), Pi(Rho(s)))
  {
    hide Rho, Pi, Cell, Walk;
    var t := Rho(s);
    forall z: nat | z < 64
      ensures Cell(t, 0, 0, z) == Cell(s, 0, 0, z)
    {
      RhoOrigin(s, z);
    }
    forall n: nat, z: nat | n < 24 && z < 64
      ensures WalkStepAt(s, t, n, z)
    {
      RhoBit(s, n, z);
    }
    forall x: nat, y: nat, z: nat | x < 5 && y < 5 && z < 64
      ensures Cell(Pi(t), x, y, z) == Cell(t, (x + 3 * y) % 5, x, z)
    {
      PiBit(t, x, y, z);
    }
  }

  lemma IotaIsStep(s: State, round: nat)
    ensures IotaStep(s, Iota(s, round), round)
  {
    hide Iota, Cell, FromNat, RoundNumber;
    forall x: nat, y: nat, z: nat | x < 5 && y < 5 && z < 64
      ensures Cell(Iota(s, round), x, y, z) != Cell(s, x, y, z) <==>
              x == 0 && y == 0 && RoundConstant(round).bits[z]
    {
      IotaBit(s, round, x, y, z);
    }
  }

  /** Twenty-four rounds from a state string to its permutation. */
  ghost predicate IsChain(u: seq<State>, s: Bits, r: Bits)
    requires |s| == |r| == 1600
  {
    && |u| == 25
    && (forall x: nat, y: nat, z: nat :: x < 5 && y < 5 && z < 64 ==> LoadedAt(u[0], s, x, y, z))
    && (forall n :: 0 <= n < 24 ==> RoundStep(u[n], u[n + 1], n))
    && (forall x: nat, y: nat, z: nat :: x < 5 && y < 5 && z < 64 ==> LoadedAt(u[24], r, x, y, z))
  }

  predicate LoadedAt(a: State, s: Bits, x: nat, y: nat, z: nat)
    requires |s| == 1600 && x < 5 && y < 5 && z < 64
  {
    Cell(a, x, y, z) == s[64 * (5 * y + x) + z]
  }

  lemma KeccakFEndsTheChain(s: Bits) returns (u: seq<State>)
    requires |s| == 1600
    ensures IsChain(u, s, H.KeccakF(s))
  {
    hide H.StateOf, H.StringOf, Round, RoundStep, Cell;
    var first := H.StateOf(s);
    u := seq(25, n requires 0 <= n < 25 => Rounds(first, n));
    forall x: nat, y: nat, z: nat | x < 5 && y < 5 && z < 64
      ensures LoadedAt(u[0], s, x, y, z) && LoadedAt(u[24], H.KeccakF(s), x, y, z)
    {
      CellOfString(s, x, y, z);
      StringOfCell(Rounds(first, 24), x, y, z);
    }
    forall n | 0 <= n < 24
      ensures RoundStep(u[n], u[n + 1], n)
    {
      RoundIsStep(u[n], n);
    }
  }
}
