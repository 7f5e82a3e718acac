/**
 scrypt's Salsa20/8 core and block mix on 32-bit words, as RFC 7914 sections 3 to 5
 define them: quarter rounds on the columns and rows of a block of sixteen words.
 */
module SalsaSpec {

  type Word = bv32

  datatype Block = Block(x0: Word, x1: Word, x2: Word, x3: Word, x4: Word, x5: Word, x6: Word, x7: Word, x8: Word,
      x9: Word, x10: Word, x11: Word, x12: Word, x13: Word, x14: Word, x15: Word)

  function Xor32(a: Word, b: Word): Word {
    a ^ b
  }

  /** Addition wraps at 2^32. */
  function Add32(a: Word, b: Word): Word {
    a + b
  }

  function Rol(x: Word, n: Word): Word
    requires n <= 32
  {
    (x << n) | (x >> (32 - n))
  }

  /** One step of a quarter round. */
  function Step(a: Word, b: Word, c: Word, n: Word): Word
    requires n <= 32
  {
    Xor32(a, Rol(Add32(b, c), n))
  }

  datatype Quad = Quad(a: Word, b: Word, c: Word, d: Word)

  function QuarterRound(y: Quad): Quad {
    var b := Step(y.b, y.a, y.d, 7);
    var c := Step(y.c, b, y.a, 9);
    var d := Step(y.d, c, b, 13);
    Quad(Step(y.a, d, c, 18), b, c, d)
  }

  /** The quarter rounds on the four columns. */
  function ColumnRound(y: Block): Block {
    var q0 := QuarterRound(Quad(y.x0, y.x4, y.x8, y.x12));
    var q1 := QuarterRound(Quad(y.x5, y.x9, y.x13, y.x1));
    var q2 := QuarterRound(Quad(y.x10, y.x14, y.x2, y.x6));
    var q3 := QuarterRound(Quad(y.x15, y.x3, y.x7, y.x11));
    Block(q0.a, q1.d, q2.c, q3.b, q0.b, q1.a, q2.d, q3.c, q0.c, q1.b, q2.a, q3.d, q0.d, q1.c, q2.b, q3.a)
  }

  /** The quarter rounds on the four rows. */
  function RowRound(y: Block): Block {
    var q0 := QuarterRound(Quad(y.x0, y.x1, y.x2, y.x3));
    var q1 := QuarterRound(Quad(y.x5, y.x6, y.x7, y.x4));
    var q2 := QuarterRound(Quad(y.x10, y.x11, y.x8, y.x9));
    var q3 := QuarterRound(Quad(y.x15, y.x12, y.x13, y.x14));
    Block(q0.a, q0.b, q0.c, q0.d, q1.d, q1.a, q1.b, q1.c, q2.c, q2.d, q2.a, q2.b, q3.b, q3.c, q3.d, q3.a)
  }

  function DoubleRounds(x: Block, n: nat): Block {
    if n == 0 then x else RowRound(ColumnRound(DoubleRounds(x, n - 1)))
  }

  function XorBlock(a: Block, b: Block): Block {
    Block(Xor32(a.x0, b.x0), Xor32(a.x1, b.x1), Xor32(a.x2, b.x2), Xor32(a.x3, b.x3), Xor32(a.x4, b.x4),
      Xor32(a.x5, b.x5), Xor32(a.x6, b.x6), Xor32(a.x7, b.x7), Xor32(a.x8, b.x8), Xor32(a.x9, b.x9),
        Xor32(a.x10, b.x10), Xor32(a.x11, b.x11), Xor32(a.x12, b.x12), Xor32(a.x13, b.x13), Xor32(a.x14, b.x14),
          Xor32(a.x15, b.x15))
  }

  function AddBlock(a: Block, b: Block): Block {
    Block(Add32(a.x0, b.x0), Add32(a.x1, b.x1), Add32(a.x2, b.x2), Add32(a.x3, b.x3), Add32(a.x4, b.x4),
      Add32(a.x5, b.x5), Add32(a.x6, b.x6), Add32(a.x7, b.x7), Add32(a.x8, b.x8), Add32(a.x9, b.x9),
        Add32(a.x10, b.x10), Add32(a.x11, b.x11), Add32(a.x12, b.x12), Add32(a.x13, b.x13), Add32(a.x14, b.x14),
          Add32(a.x15, b.x15))
  }

  /** The Salsa20/8 core. */
  function Salsa8(x: Block): Block {
    AddBlock(x, DoubleRounds(x, 4))
  }

  /** The two 64-byte blocks that scrypt works on for r = 1. */
  datatype Pair = Pair(lo: Block, hi: Block)

  /** scryptBlockMix */
  function BlockMix(p: Pair): Pair {
    var y0 := Salsa8(XorBlock(p.lo, p.hi));
    Pair(y0, Salsa8(XorBlock(p.hi, y0)))
  }

  function XorPair(a: Pair, b: Pair): Pair {
    Pair(XorBlock(a.lo, b.lo), XorBlock(a.hi, b.hi))
  }

  const N: nat := 1024

  /** The scratchpad entry written in step `n`. */
  function Filled(p: Pair, n: nat): Pair {
    if n == 0 then p else BlockMix(Filled(p, n - 1))
  }

  function LowBits(w: Word): (j: nat)
    ensures j < N
  {
    (w & 1023) as nat
  }

  /** Integerify modulo N: the low bits of the second block's first word. */
  function ReadIndex(p: Pair): (j: nat)
    ensures j < N
  {
    LowBits(p.hi.x0)
  }

  /** `n` data-dependent reads, starting from `x` with the scratchpad filled from `p`. */
  function Mixed(p: Pair, x: Pair, n: nat): Pair {
    if n == 0 then x
    else
      var y := Mixed(p, x, n - 1);
      BlockMix(XorPair(y, Filled(p, ReadIndex(y))))
  }

  /** scryptROMix */
  function RoMix(p: Pair): Pair {
    Mixed(p, Filled(p, N), N)
  }
}
