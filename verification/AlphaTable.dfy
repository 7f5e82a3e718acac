/**
 The table of powers of 41 modulo 257 that SIMD's transform reads, in rows of
 sixteen, and the proof that it holds them.
 */
module AlphaTable {

  type Row = row: seq<int> | |row| == 16 witness seq(16, _ => 0)

  function Row0(): Row { [1, 41, 139, 45, 46, 87, 226, 14, 60, 147, 116, 130, 190, 80, 196, 69] }
  function Row1(): Row { [2, 82, 21, 90, 92, 174, 195, 28, 120, 37, 232, 3, 123, 160, 135, 138] }
  function Row2(): Row { [4, 164, 42, 180, 184, 91, 133, 56, 240, 74, 207, 6, 246, 63, 13, 19] }
  function Row3(): Row { [8, 71, 84, 103, 111, 182, 9, 112, 223, 148, 157, 12, 235, 126, 26, 38] }
  function Row4(): Row { [16, 142, 168, 206, 222, 107, 18, 224, 189, 39, 57, 24, 213, 252, 52, 76] }
  function Row5(): Row { [32, 27, 79, 155, 187, 214, 36, 191, 121, 78, 114, 48, 169, 247, 104, 152] }
  function Row6(): Row { [64, 54, 158, 53, 117, 171, 72, 125, 242, 156, 228, 96, 81, 237, 208, 47] }
  function Row7(): Row { [128, 108, 59, 106, 234, 85, 144, 250, 227, 55, 199, 192, 162, 217, 159, 94] }
  function Row8(): Row { [256, 216, 118, 212, 211, 170, 31, 243, 197, 110, 141, 127, 67, 177, 61, 188] }
  function Row9(): Row { [255, 175, 236, 167, 165, 83, 62, 229, 137, 220, 25, 254, 134, 97, 122, 119] }
  function Row10(): Row { [253, 93, 215, 77, 73, 166, 124, 201, 17, 183, 50, 251, 11, 194, 244, 238] }
  function Row11(): Row { [249, 186, 173, 154, 146, 75, 248, 145, 34, 109, 100, 245, 22, 131, 231, 219] }
  function Row12(): Row { [241, 115, 89, 51, 35, 150, 239, 33, 68, 218, 200, 233, 44, 5, 205, 181] }
  function Row13(): Row { [225, 230, 178, 102, 70, 43, 221, 66, 136, 179, 143, 209, 88, 10, 153, 105] }
  function Row14(): Row { [193, 203, 99, 204, 140, 86, 185, 132, 15, 101, 29, 161, 176, 20, 49, 210] }
  function Row15(): Row { [129, 149, 198, 151, 23, 172, 113, 7, 30, 202, 58, 65, 95, 40, 98, 163] }

  function RowAt(k: nat): Row
    requires k < 16
  {
    match k
    case 0 => Row0()
    case 1 => Row1()
    case 2 => Row2()
    case 3 => Row3()
    case 4 => Row4()
    case 5 => Row5()
    case 6 => Row6()
    case 7 => Row7()
    case 8 => Row8()
    case 9 => Row9()
    case 10 => Row10()
    case 11 => Row11()
    case 12 => Row12()
    case 13 => Row13()
    case 14 => Row14()
    case _ => Row15()
  }

  function AlphaTab(v: nat): int
    requires v < 256
  {
    RowAt(v / 16)[v % 16]
  }

  /** Each entry of the row is 41 times the one before it, and so is `next`. */
  predicate IsRow(row: Row, next: int) {
    && row[1] == 41 * row[0] % 257
    && row[2] == 41 * row[1] % 257
    && row[3] == 41 * row[2] % 257
    && row[4] == 41 * row[3] % 257
    && row[5] == 41 * row[4] % 257
    && row[6] == 41 * row[5] % 257
    && row[7] == 41 * row[6] % 257
    && row[8] == 41 * row[7] % 257
    && row[9] == 41 * row[8] % 257
    && row[10] == 41 * row[9] % 257
    && row[11] == 41 * row[10] % 257
    && row[12] == 41 * row[11] % 257
    && row[13] == 41 * row[12] % 257
    && row[14] == 41 * row[13] % 257
    && row[15] == 41 * row[14] % 257
    && next == 41 * row[15] % 257
  }

  lemma Row0Holds() ensures IsRow(Row0(), Row1()[0]) {}
  lemma Row1Holds() ensures IsRow(Row1(), Row2()[0]) {}
  lemma Row2Holds() ensures IsRow(Row2(), Row3()[0]) {}
  lemma Row3Holds() ensures IsRow(Row3(), Row4()[0]) {}
  lemma Row4Holds() ensures IsRow(Row4(), Row5()[0]) {}
  lemma Row5Holds() ensures IsRow(Row5(), Row6()[0]) {}
  lemma Row6Holds() ensures IsRow(Row6(), Row7()[0]) {}
  lemma Row7Holds() ensures IsRow(Row7(), Row8()[0]) {}
  lemma Row8Holds() ensures IsRow(Row8(), Row9()[0]) {}
  lemma Row9Holds() ensures IsRow(Row9(), Row10()[0]) {}
  lemma Row10Holds() ensures IsRow(Row10(), Row11()[0]) {}
  lemma Row11Holds() ensures IsRow(Row11(), Row12()[0]) {}
  lemma Row12Holds() ensures IsRow(Row12(), Row13()[0]) {}
  lemma Row13Holds() ensures IsRow(Row13(), Row14()[0]) {}
  lemma Row14Holds() ensures IsRow(Row14(), Row15()[0]) {}
  lemma Row15Holds() ensures IsRow(Row15(), 1) {}

  lemma RowsHold(k: nat)
    requires k < 16
    ensures IsRow(RowAt(k), if k < 15 then RowAt(k + 1)[0] else 1)
  {
    hide IsRow, Row0, Row1, Row2, Row3, Row4, Row5, Row6, Row7, Row8, Row9, Row10, Row11, Row12, Row13, Row14, Row15;
    match k
    case 0 => Row0Holds();
    case 1 => Row1Holds();
    case 2 => Row2Holds();
    case 3 => Row3Holds();
    case 4 => Row4Holds();
    case 5 => Row5Holds();
    case 6 => Row6Holds();
    case 7 => Row7Holds();
    case 8 => Row8Holds();
    case 9 => Row9Holds();
    case 10 => Row10Holds();
    case 11 => Row11Holds();
    case 12 => Row12Holds();
    case 13 => Row13Holds();
    case 14 => Row14Holds();
    case _ => Row15Holds();
  }

  lemma AlphaStep(v: nat)
    requires v < 255
    ensures AlphaTab(v + 1) == 41 * AlphaTab(v) % 257
  {
    hide RowAt;
    var k, r := v / 16, v % 16;
    RowsHold(k);
    if r < 15 {
      assert (v + 1) / 16 == k && (v + 1) % 16 == r + 1;
    } else {
      assert (v + 1) / 16 == k + 1 && (v + 1) % 16 == 0;
    }
  }
}
