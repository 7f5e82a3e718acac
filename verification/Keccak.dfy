/**
 The source's KECCAK round, which works in place on an array of 25 lanes: rho and pi
 together are one chain of 24 moves, and chi saves two lanes of every row.
 */
module Keccak {
  import opened KeccakSpec
  import opened Words

  function StateOf(a: array<Lane>): State
    requires a.Length == 25
    reads a
  {
    State(
      a[0], a[1], a[2], a[3], a[4],
      a[5], a[6], a[7], a[8], a[9],
      a[10], a[11], a[12], a[13], a[14],
      a[15], a[16], a[17], a[18], a[19],
      a[20], a[21], a[22], a[23], a[24])
  }

  // ---------- lanes ----------

  /** `rol64` */
  function Rol64(x: Lane, n: nat): Lane
    requires n <= 64
  {
    Lane(Or(Shl(x.bits, n), Shr(x.bits, 64 - n)))
  }

  /** `chi64` */
  function Chi64(a: Lane, b: Lane, c: Lane): Lane {
    Lane(Xor(a.bits, And(Not(b.bits), c.bits)))
  }

  function Not(x: Bits): (r: Bits)
    ensures IsWord(r)
  {
    seq(64, i => !Bit(x, i))
  }

  /** The two shifts are the standard's rotation. */
  lemma ShiftsRotate(x: Lane, n: nat)
    requires n < 64 && IsWord(x.bits)
    ensures Rol64(x, n) == Rotated(x, n)
  {
    forall z | 0 <= z < 64
      ensures Rol64(x, n).bits[z] == Rotated(x, n).bits[z]
    {
      hide Shl, Shr;
      ShiftedBits(x.bits, n, z);
      assert (z - n) % 64 == if z >= n then z - n else z - n + 64;
    }
  }

  lemma ShiftedBits(x: Bits, n: nat, z: nat)
    requires n < 64 && z < 64
    ensures Bit(Shl(x, n), z) == Bit(x, z - n) && Bit(Shr(x, 64 - n), z) == Bit(x, z + (64 - n))
  {
  }

  lemma ChiAgrees(a: Lane, b: Lane, c: Lane)
    ensures Chi64(a, b, c) == ChiLane(a, b, c)
  {
  }

  lemma RotatedBit(x: Lane, n: nat, z: nat)
    requires z < 64
    ensures |Rotated(x, n).bits| == 64 && Rotated(x, n).bits[z] == Bit(x.bits, (z - n) % 64)
  {
  }

  lemma RotateByZero(x: Lane)
    requires IsWord(x.bits)
    ensures Rotated(x, 0) == x
  {
    forall z | 0 <= z < 64
      ensures Rotated(x, 0).bits[z] == x.bits[z]
    {
      RotatedBit(x, 0, z);
      assert (z - 0) % 64 == z;
    }
    assert Rotated(x, 0).bits == x.bits;
  }

  predicate AllWords(s: State) {
    && IsWord(s.s0.bits) && IsWord(s.s1.bits) && IsWord(s.s2.bits) && IsWord(s.s3.bits) && IsWord(s.s4.bits)
    && IsWord(s.s5.bits) && IsWord(s.s6.bits) && IsWord(s.s7.bits) && IsWord(s.s8.bits) && IsWord(s.s9.bits)
    && IsWord(s.s10.bits) && IsWord(s.s11.bits) && IsWord(s.s12.bits) && IsWord(s.s13.bits) && IsWord(s.s14.bits)
    && IsWord(s.s15.bits) && IsWord(s.s16.bits) && IsWord(s.s17.bits) && IsWord(s.s18.bits) && IsWord(s.s19.bits)
    && IsWord(s.s20.bits) && IsWord(s.s21.bits) && IsWord(s.s22.bits) && IsWord(s.s23.bits) && IsWord(s.s24.bits)
  }

  // ---------- theta ----------

  function Parity(s: State, x: nat): Lane {
    Sum(Column(s, (x + 4) % 5), Rotated(Column(s, (x + 1) % 5), 1))
  }

  function Added(s: State, v0: Lane, v1: Lane, v2: Lane, v3: Lane, v4: Lane): State {
    State(
      Sum(s.s0, v0), Sum(s.s1, v1), Sum(s.s2, v2), Sum(s.s3, v3), Sum(s.s4, v4),
      Sum(s.s5, v0), Sum(s.s6, v1), Sum(s.s7, v2), Sum(s.s8, v3), Sum(s.s9, v4),
      Sum(s.s10, v0), Sum(s.s11, v1), Sum(s.s12, v2), Sum(s.s13, v3), Sum(s.s14, v4),
      Sum(s.s15, v0), Sum(s.s16, v1), Sum(s.s17, v2), Sum(s.s18, v3), Sum(s.s19, v4),
      Sum(s.s20, v0), Sum(s.s21, v1), Sum(s.s22, v2), Sum(s.s23, v3), Sum(s.s24, v4))
  }

  lemma AddedIsTheta(s: State)
    ensures Added(s, Parity(s, 0), Parity(s, 1), Parity(s, 2), Parity(s, 3), Parity(s, 4)) == Theta(s)
    ensures AllWords(Theta(s))
  {
    hide Sum, Rotated, Column, IsWord;
  }

  method ThetaInPlace(state: array<Lane>)
    requires state.Length == 25
    modifies state
    ensures StateOf(state) == Theta(old(StateOf(state))) && AllWords(StateOf(state))
  {
    hide Sum, Rotated, Rol64, Theta, Added, AllWords;
    ghost var s := StateOf(state);
    var c0 := Sum(Sum(Sum(Sum(state[0], state[5]), state[10]), state[15]), state[20]);
    var c1 := Sum(Sum(Sum(Sum(state[1], state[6]), state[11]), state[16]), state[21]);
    var c2 := Sum(Sum(Sum(Sum(state[2], state[7]), state[12]), state[17]), state[22]);
    var c3 := Sum(Sum(Sum(Sum(state[3], state[8]), state[13]), state[18]), state[23]);
    var c4 := Sum(Sum(Sum(Sum(state[4], state[9]), state[14]), state[19]), state[24]);
    assert c0 == Column(s, 0) && c1 == Column(s, 1) && c2 == Column(s, 2) && c3 == Column(s, 3) && c4 == Column(s, 4);
    ShiftsRotate(c0, 1); ShiftsRotate(c1, 1); ShiftsRotate(c2, 1); ShiftsRotate(c3, 1); ShiftsRotate(c4, 1);
    var v0 := Sum(c4, Rol64(c1, 1));
    var v1 := Sum(c0, Rol64(c2, 1));
    var v2 := Sum(c1, Rol64(c3, 1));
    var v3 := Sum(c2, Rol64(c4, 1));
    var v4 := Sum(c3, Rol64(c0, 1));
    AddedIsTheta(s);
    AddParities(state, v0, v1, v2, v3, v4);
  }

  method AddParities(state: array<Lane>, v0: Lane, v1: Lane, v2: Lane, v3: Lane, v4: Lane)
    requires state.Length == 25
    modifies state
    ensures StateOf(state) == Added(old(StateOf(state)), v0, v1, v2, v3, v4)
  {
    hide Sum;
    AddColumn(state, 0, v0);
    AddColumn(state, 1, v1);
    AddColumn(state, 2, v2);
    AddColumn(state, 3, v3);
    AddColumn(state, 4, v4);
  }

  method AddColumn(state: array<Lane>, x: nat, v: Lane)
    requires state.Length == 25 && x < 5
    modifies state
    ensures forall i :: 0 <= i < 25 ==> state[i] == if i % 5 == x then Sum(old(state[i]), v) else old(state[i])
  {
    hide Sum;
    state[x] := Sum(state[x], v);
    state[x + 5] := Sum(state[x + 5], v);
    state[x + 10] := Sum(state[x + 10], v);
    state[x + 15] := Sum(state[x + 15], v);
    state[x + 20] := Sum(state[x + 20], v);
  }

  // ---------- rho and pi ----------

  /** Where the chain moves every lane. */
  function Moved(s: State): State {
    State(
      s.s0, Rol64(s.s6, 44), Rol64(s.s12, 43), Rol64(s.s18, 21), Rol64(s.s24, 14),
      Rol64(s.s3, 28), Rol64(s.s9, 20), Rol64(s.s10, 3), Rol64(s.s16, 45), Rol64(s.s22, 61),
      Rol64(s.s1, 1), Rol64(s.s7, 6), Rol64(s.s13, 25), Rol64(s.s19, 8), Rol64(s.s20, 18),
      Rol64(s.s4, 27), Rol64(s.s5, 36), Rol64(s.s11, 10), Rol64(s.s17, 15), Rol64(s.s23, 56),
      Rol64(s.s2, 62), Rol64(s.s8, 55), Rol64(s.s14, 39), Rol64(s.s15, 41), Rol64(s.s21, 2))
  }

  lemma MovesAreRhoPi(s: State)
    requires AllWords(s)
    ensures Moved(s) == Pi(Rho(s))
  {
    hide Rol64, Rotated, IsWord;
    RotateByZero(s.s0);
    ShiftsRotate(s.s6, 44); ShiftsRotate(s.s9, 20); ShiftsRotate(s.s22, 61); ShiftsRotate(s.s14, 39);
    ShiftsRotate(s.s20, 18); ShiftsRotate(s.s2, 62); ShiftsRotate(s.s12, 43); ShiftsRotate(s.s13, 25);
    ShiftsRotate(s.s19, 8); ShiftsRotate(s.s23, 56); ShiftsRotate(s.s15, 41); ShiftsRotate(s.s4, 27);
    ShiftsRotate(s.s24, 14); ShiftsRotate(s.s21, 2); ShiftsRotate(s.s8, 55); ShiftsRotate(s.s16, 45);
    ShiftsRotate(s.s5, 36); ShiftsRotate(s.s3, 28); ShiftsRotate(s.s18, 21); ShiftsRotate(s.s17, 15);
    ShiftsRotate(s.s11, 10); ShiftsRotate(s.s7, 6); ShiftsRotate(s.s10, 3); ShiftsRotate(s.s1, 1);
    MovesByPlace(s);
  }

  /** The composition of rho and pi, place by place. */
  lemma MovesByPlace(s: State)
    ensures Pi(Rho(s)) == State(
      Rotated(s.s0, 0), Rotated(s.s6, 44), Rotated(s.s12, 43), Rotated(s.s18, 21), Rotated(s.s24, 14),
      Rotated(s.s3, 28), Rotated(s.s9, 20), Rotated(s.s10, 3), Rotated(s.s16, 45), Rotated(s.s22, 61),
      Rotated(s.s1, 1), Rotated(s.s7, 6), Rotated(s.s13, 25), Rotated(s.s19, 8), Rotated(s.s20, 18),
      Rotated(s.s4, 27), Rotated(s.s5, 36), Rotated(s.s11, 10), Rotated(s.s17, 15), Rotated(s.s23, 56),
      Rotated(s.s2, 62), Rotated(s.s8, 55), Rotated(s.s14, 39), Rotated(s.s15, 41), Rotated(s.s21, 2))
  {
    hide Rotated, Rho, Pi;
    RhoByPlace(s);
    PiByPlace(Rho(s));
  }

  lemma RhoByPlace(s: State)
    ensures Rho(s) == State(
      Rotated(s.s0, 0), Rotated(s.s1, 1), Rotated(s.s2, 62), Rotated(s.s3, 28), Rotated(s.s4, 27),
      Rotated(s.s5, 36), Rotated(s.s6, 44), Rotated(s.s7, 6), Rotated(s.s8, 55), Rotated(s.s9, 20),
      Rotated(s.s10, 3), Rotated(s.s11, 10), Rotated(s.s12, 43), Rotated(s.s13, 25), Rotated(s.s14, 39),
      Rotated(s.s15, 41), Rotated(s.s16, 45), Rotated(s.s17, 15), Rotated(s.s18, 21), Rotated(s.s19, 8),
      Rotated(s.s20, 18), Rotated(s.s21, 2), Rotated(s.s22, 61), Rotated(s.s23, 56), Rotated(s.s24, 14))
  {
    hide Rotated;
  }

  lemma PiByPlace(s: State)
    ensures Pi(s) == State(
      s.s0, s.s6, s.s12, s.s18, s.s24,
      s.s3, s.s9, s.s10, s.s16, s.s22,
      s.s1, s.s7, s.s13, s.s19, s.s20,
      s.s4, s.s5, s.s11, s.s17, s.s23,
      s.s2, s.s8, s.s14, s.s15, s.s21)
  {
    assert (1 + 3 * 0) % 5 == 1 && (2 + 3 * 0) % 5 == 2 && (3 + 3 * 0) % 5 == 3 && (4 + 3 * 0) % 5 == 4;
    assert Pi(s).s0 == s.s0; assert Pi(s).s1 == s.s6; assert Pi(s).s2 == s.s12; assert Pi(s).s3
      == s.s18; assert Pi(s).s4 == s.s24;
    assert Pi(s).s5 == s.s3; assert Pi(s).s6 == s.s9; assert Pi(s).s7 == s.s10; assert Pi(s).s8
      == s.s16; assert Pi(s).s9 == s.s22;
    assert Pi(s).s10 == s.s1; assert Pi(s).s11 == s.s7; assert Pi(s).s12 == s.s13; assert Pi(s).s13
      == s.s19; assert Pi(s).s14 == s.s20;
    assert Pi(s).s15 == s.s4; assert Pi(s).s16 == s.s5; assert Pi(s).s17 == s.s11; assert Pi(s).s18
      == s.s17; assert Pi(s).s19 == s.s23;
    assert Pi(s).s20 == s.s2; assert Pi(s).s21 == s.s8; assert Pi(s).s22 == s.s14; assert Pi(s).s23
      == s.s15; assert Pi(s).s24 == s.s21;
  }

  /** The chain's first third. Every lane moves to the place that was emptied last. */
  method MoveFirst(state: array<Lane>)
    requires state.Length == 25
    modifies state
    ensures state[0] == old(state[0]) && state[1] == Rol64(old(state[6]), 44) && state[2] == Rol64(old(state[12]), 43)
      && state[3] == old(state[3]) && state[4] == old(state[4])
    ensures state[5] == old(state[5]) && state[6] == Rol64(old(state[9]), 20) && state[7] == old(state[7])
      && state[8] == old(state[8]) && state[9] == Rol64(old(state[22]), 61)
    ensures state[10] == old(state[10]) && state[11] == old(state[11]) && state[12] == Rol64(old(state[13]), 25)
      && state[13] == old(state[13]) && state[14] == Rol64(old(state[20]), 18)
    ensures state[15] == old(state[15]) && state[16] == old(state[16]) && state[17] == old(state[17])
      && state[18] == old(state[18]) && state[19] == old(state[19])
    ensures state[20] == Rol64(old(state[2]), 62) && state[21] == old(state[21])
      && state[22] == Rol64(old(state[14]), 39) && state[23] == old(state[23]) && state[24] == old(state[24])
  {
    hide Rol64;
    state[1] := Rol64(state[6], 44);
    state[6] := Rol64(state[9], 20);
    state[9] := Rol64(state[22], 61);
    state[22] := Rol64(state[14], 39);
    state[14] := Rol64(state[20], 18);
    state[20] := Rol64(state[2], 62);
    state[2] := Rol64(state[12], 43);
    state[12] := Rol64(state[13], 25);
  }

  /** The second third. */
  method MoveNext(state: array<Lane>)
    requires state.Length == 25
    modifies state
    ensures state[0] == old(state[0]) && state[1] == old(state[1]) && state[2] == old(state[2])
      && state[3] == old(state[3]) && state[4] == Rol64(old(state[24]), 14)
    ensures state[5] == old(state[5]) && state[6] == old(state[6]) && state[7] == old(state[7])
      && state[8] == Rol64(old(state[16]), 45) && state[9] == old(state[9])
    ensures state[10] == old(state[10]) && state[11] == old(state[11]) && state[12] == old(state[12])
      && state[13] == Rol64(old(state[19]), 8) && state[14] == old(state[14])
    ensures state[15] == Rol64(old(state[4]), 27) && state[16] == old(state[16]) && state[17] == old(state[17])
      && state[18] == old(state[18]) && state[19] == Rol64(old(state[23]), 56)
    ensures state[20] == old(state[20]) && state[21] == Rol64(old(state[8]), 55) && state[22] == old(state[22])
      && state[23] == Rol64(old(state[15]), 41) && state[24] == Rol64(old(state[21]), 2)
  {
    hide Rol64;
    state[13] := Rol64(state[19], 8);
    state[19] := Rol64(state[23], 56);
    state[23] := Rol64(state[15], 41);
    state[15] := Rol64(state[4], 27);
    state[4] := Rol64(state[24], 14);
    state[24] := Rol64(state[21], 2);
    state[21] := Rol64(state[8], 55);
    state[8] := Rol64(state[16], 45);
  }

  /** The last third but one move. */
  method MoveLast(state: array<Lane>)
    requires state.Length == 25
    modifies state
    ensures state[0] == old(state[0]) && state[1] == old(state[1]) && state[2] == old(state[2])
      && state[3] == Rol64(old(state[18]), 21) && state[4] == old(state[4])
    ensures state[5] == Rol64(old(state[3]), 28) && state[6] == old(state[6]) && state[7] == Rol64(old(state[10]), 3)
      && state[8] == old(state[8]) && state[9] == old(state[9])
    ensures state[10] == old(state[10]) && state[11] == Rol64(old(state[7]), 6) && state[12] == old(state[12])
      && state[13] == old(state[13]) && state[14] == old(state[14])
    ensures state[15] == old(state[15]) && state[16] == Rol64(old(state[5]), 36)
      && state[17] == Rol64(old(state[11]), 10) && state[18] == Rol64(old(state[17]), 15) && state[19] == old(state[19])
    ensures state[20] == old(state[20]) && state[21] == old(state[21]) && state[22] == old(state[22])
      && state[23] == old(state[23]) && state[24] == old(state[24])
  {
    hide Rol64;
    state[16] := Rol64(state[5], 36);
    state[5] := Rol64(state[3], 28);
    state[3] := Rol64(state[18], 21);
    state[18] := Rol64(state[17], 15);
    state[17] := Rol64(state[11], 10);
    state[11] := Rol64(state[7], 6);
    state[7] := Rol64(state[10], 3);
  }

  method RhoPiInPlace(state: array<Lane>)
    requires state.Length == 25 && AllWords(StateOf(state))
    modifies state
    ensures StateOf(state) == Pi(Rho(old(StateOf(state))))
  {
    hide Rol64, Rho, Pi;
    MovesAreRhoPi(StateOf(state));
    MoveLanes(state);
  }

  method MoveLanes(state: array<Lane>)
    requires state.Length == 25
    modifies state
    ensures StateOf(state) == Moved(old(StateOf(state)))
  {
    hide Rol64;
    var s1 := state[1];
    MoveFirst(state);
    MoveNext(state);
    MoveLast(state);
    state[10] := Rol64(s1, 1);
  }

  // ---------- chi ----------

  function Mixed(s: State): State {
    State(
      Chi64(s.s0, s.s1, s.s2), Chi64(s.s1, s.s2, s.s3), Chi64(s.s2, s.s3, s.s4), Chi64(s.s3, s.s4, s.s0),
        Chi64(s.s4, s.s0, s.s1),
      Chi64(s.s5, s.s6, s.s7), Chi64(s.s6, s.s7, s.s8), Chi64(s.s7, s.s8, s.s9), Chi64(s.s8, s.s9, s.s5),
        Chi64(s.s9, s.s5, s.s6),
      Chi64(s.s10, s.s11, s.s12), Chi64(s.s11, s.s12, s.s13), Chi64(s.s12, s.s13, s.s14), Chi64(s.s13, s.s14, s.s10),
        Chi64(s.s14, s.s10, s.s11),
      Chi64(s.s15, s.s16, s.s17), Chi64(s.s16, s.s17, s.s18), Chi64(s.s17, s.s18, s.s19), Chi64(s.s18, s.s19, s.s15),
        Chi64(s.s19, s.s15, s.s16),
      Chi64(s.s20, s.s21, s.s22), Chi64(s.s21, s.s22, s.s23), Chi64(s.s22, s.s23, s.s24), Chi64(s.s23, s.s24, s.s20),
        Chi64(s.s24, s.s20, s.s21))
  }

  lemma MixedIsChi(s: State)
    ensures Mixed(s) == Chi(s)
  {
    hide ChiLane, Chi64;
    ChiEverywhere();
  }

  lemma ChiEverywhere()
    ensures forall a, b, c :: Chi64(a, b, c) == ChiLane(a, b, c)
  {
    forall a, b, c
      ensures Chi64(a, b, c) == ChiLane(a, b, c)
    {
      ChiAgrees(a, b, c);
    }
  }

  method ChiInPlace(state: array<Lane>)
    requires state.Length == 25
    modifies state
    ensures StateOf(state) == Chi(old(StateOf(state)))
  {
    hide Chi64, Chi;
    MixedIsChi(StateOf(state));
    MixRows(state);
  }

  method MixRows(state: array<Lane>)
    requires state.Length == 25
    modifies state
    ensures StateOf(state) == Mixed(old(StateOf(state)))
  {
    hide Chi64;
    MixRow(state, 0);
    MixRow(state, 5);
    MixRow(state, 10);
    MixRow(state, 15);
    MixRow(state, 20);
  }

  /** One row, which starts at `b`. */
  method MixRow(state: array<Lane>, b: nat)
    requires state.Length == 25 && b <= 20
    modifies state
    ensures state[b] == old(Chi64(state[b], state[b + 1], state[b + 2]))
    ensures state[b + 1] == old(Chi64(state[b + 1], state[b + 2], state[b + 3]))
    ensures state[b + 2] == old(Chi64(state[b + 2], state[b + 3], state[b + 4]))
    ensures state[b + 3] == old(Chi64(state[b + 3], state[b + 4], state[b]))
    ensures state[b + 4] == old(Chi64(state[b + 4], state[b], state[b + 1]))
    ensures forall i :: 0 <= i < 25 && !(b <= i < b + 5) ==> state[i] == old(state[i])
  {
    hide Chi64;
    var v, w := state[b], state[b + 1];
    state[b] := Chi64(v, w, state[b + 2]);
    state[b + 1] := Chi64(w, state[b + 2], state[b + 3]);
    state[b + 2] := Chi64(state[b + 2], state[b + 3], state[b + 4]);
    state[b + 3] := Chi64(state[b + 3], state[b + 4], v);
    state[b + 4] := Chi64(state[b + 4], v, w);
  }

  // ---------- the round ----------

  method IotaInPlace(state: array<Lane>, round: nat)
    requires state.Length == 25 && round < 24
    modifies state
    ensures StateOf(state) == Iota(old(StateOf(state)), round)
  {
    hide Sum, RoundConstant;
    state[0] := Sum(state[0], RoundConstant(round));
  }

  /** `sha3llRound1600` */
  method RoundInPlace(state: array<Lane>, round: nat)
    requires state.Length == 25 && round < 24
    modifies state
    ensures StateOf(state) == Round(old(StateOf(state)), round)
  {
    hide Theta, Rho, Pi, Chi, Iota, StateOf, AllWords;
    ThetaInPlace(state);
    RhoPiInPlace(state);
    ChiInPlace(state);
    IotaInPlace(state, round);
  }

  /** `sha3llTransform` */
  method Transform(state: array<Lane>)
    requires state.Length == 25
    modifies state
    ensures StateOf(state) == Rounds(old(StateOf(state)), 24)
  {
    hide Round, StateOf;
    for i := 0 to 24
      invariant StateOf(state) == Rounds(old(StateOf(state)), i)
    {
      RoundInPlace(state, i);
    }
  }
}
