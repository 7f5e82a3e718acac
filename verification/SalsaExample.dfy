/**
 The example of RFC 7914 section 9, scryptBlockMix on one pair of blocks: the quarter rounds,
 their order, the rotation amounts and the chaining of the two blocks give the published words.
 */
module SalsaExample {
  import opened SalsaSpec

  /** The two input blocks. */
  function Input(): Pair {
    Pair(Block(0x650bcef7, 0xa4722d3d, 0xabf58c10, 0xddff12e9, 0xdb167677, 0x0ea727bb, 0xaef30482, 0xad6f0f2d,
               0x488ff689, 0x7be8d111, 0x40d73bcc, 0x29fd9f0a, 0x84014f09, 0xf3749563, 0x31a1e59a, 0xd7bc1752),
      Block(0x44914989, 0x22bb1372, 0x4db5256c, 0xfb7063a8, 0x804398cd, 0xbb664637, 0xbfb5fc8f, 0xb054c240,
            0x517cd267, 0xfed54ace, 0x0bc929d8, 0x1b575a50, 0xad1c4d7f, 0xda3c526a, 0xbc670e77, 0x897eafea))
  }

  // ---------- the blocks of the two cores before the rounds and after every half round ----------

  const FIRST_0 :=
    Block(0x219a877e, 0x86c93e4f, 0xe640a97c, 0x268f7141, 0x5b55eeba, 0xb5c1618c, 0x1146f80d, 0x1d3bcd6d,
          0x19f324ee, 0x853d9bdf, 0x4b1e1214, 0x32aac55a, 0x291d0276, 0x2948c709, 0x8dc6ebed, 0x5ec2b8b8)
  const FIRST_1 :=
    Block(0x08857f83, 0xbc4dffa4, 0x225a0768, 0x90307809, 0x0091149f, 0xc3e54d59, 0xd113843e, 0xfb5a4eb0,
          0x4ecb1eaa, 0xc0727641, 0x6585dfa2, 0x6a7df42b, 0xaf742b9d, 0x4ee75de5, 0xbf43fb43, 0x55af2fd9)
  const FIRST_2 :=
    Block(0x482665b1, 0xe6b639e8, 0x5528d0b6, 0x7163bf72, 0x93580e01, 0x0c50b5fd, 0xea23785c, 0xead125ec,
          0xf701a95d, 0xd590a7ea, 0x209aedeb, 0x965705b9, 0xd6e1a597, 0x6f4dbdbc, 0x53299386, 0x10a42604)
  const FIRST_3 :=
    Block(0xb4cf7248, 0xb8e79720, 0x3e130cef, 0x0cf661a1, 0x175daa0e, 0xde3bd4f1, 0x5dbd3119, 0xdfde6fd7,
          0xff1ed7e2, 0x56e75513, 0xd8b882ab, 0x0c781823, 0x46dfa758, 0x1f5b9d7a, 0x0c1ab003, 0x0f4f975e)
  const FIRST_4 :=
    Block(0xe9e67835, 0x5a0e63c0, 0x85bf1cf2, 0xbce03a58, 0x95e02c9d, 0x10a33116, 0x91024ee3, 0xa399c709,
          0x678d68da, 0x70e69077, 0x3dffe364, 0xc393c734, 0xf3fc17d5, 0x8805fb7c, 0x4e709f83, 0x64b0ce84)
  const FIRST_5 :=
    Block(0xfbef1227, 0x12c789d1, 0x56808ce8, 0x9eaae64c, 0x64a829f3, 0x43dbdd85, 0xd82bca5e, 0x14f0670f,
          0x7ac93847, 0x282cfb42, 0x60e759d5, 0xaa38b147, 0xdfbb4c3b, 0x285d4b0d, 0xcf69bc64, 0x05ea3220)
  const FIRST_6 :=
    Block(0x28f2a180, 0x5e3bb01c, 0x03040a5c, 0x69e5ea6b, 0x997f9f3c, 0x1c650ad9, 0x9a28760a, 0x1c5778b3,
          0x89e18946, 0x5055ce7c, 0x3fec3108, 0x20123a83, 0x764c0e51, 0x44dda9f5, 0xf8616b01, 0x5632c6dc)
  const FIRST_7 :=
    Block(0xb0e98b83, 0x346a63e9, 0x3d22e238, 0x4b6545d0, 0x062877f3, 0x1abe5aed, 0x22bcf3e0, 0x2c4e21f0,
          0xbfd36f18, 0x0008b4c1, 0x678d4e77, 0x4cea3475, 0x0aad76ee, 0x9fa29dcd, 0xf232e26c, 0x0fa7223d)
  const FIRST_8 :=
    Block(0x7aea9826, 0x1302ca17, 0xe589d7bf, 0xdf5f9ac1, 0x25cb5c4a, 0xc7729c16, 0x51d583f0, 0x0bf39b29,
          0x4e3e14c6, 0x37a92e04, 0x6ca759ea, 0x87eba846, 0xe7af226e, 0x332bca23, 0xafa0c137, 0x22cca90f)

  const SECOND_0 :=
    Block(0xd814562d, 0xbb771b14, 0x867fa457, 0xfe9f6faa, 0x0162d3c9, 0xc655bb95, 0xdca98772, 0x997baad6,
          0x394debd3, 0x4233832d, 0xbc0c4226, 0xa1c137f0, 0xbdd0699b, 0x8648c346, 0x8100a353, 0x08f1ce2d)
  const SECOND_1 :=
    Block(0xd1add72d, 0xa88714ed, 0x671d2f78, 0xa71c617f, 0xf33d3783, 0xb457b44e, 0xef7b6f12, 0x8524f3b6,
          0x9a568a45, 0xa458d7ed, 0xc6251844, 0x8b679278, 0xc5e97829, 0xdb6fc793, 0xdbe46f1f, 0x10498c1f)
  const SECOND_2 :=
    Block(0x7c1ebc98, 0xcd9b42d1, 0xf52ed246, 0xe5be9926, 0x9d459a4e, 0xad1c2ec4, 0x250e87c1, 0x495cec04,
          0x1310a8b2, 0xa2372efb, 0x9893cd5b, 0xb59f8acd, 0xd314e75f, 0x67893a55, 0x1fd2e84c, 0x9acf916f)
  const SECOND_3 :=
    Block(0x2c76a3cc, 0x2ff085f6, 0xed480889, 0xd230870e, 0x049461e9, 0x792590ba, 0x28ddf049, 0x496c16de,
          0x752dabb3, 0xf98fe446, 0x7bdb95cc, 0x262209be, 0x92a76867, 0x3faf2f18, 0xcef86612, 0x18be2f57)
  const SECOND_4 :=
    Block(0xafb7c3f9, 0x7c65e889, 0x5450a3d8, 0x03bcbd18, 0xc62b1bcc, 0x46671c68, 0xf424a1f7, 0xdd097404,
          0x80010bad, 0xf809c632, 0x3ca675e7, 0x939f0084, 0x49eddc94, 0x67b8f9dd, 0x14365026, 0x30b3c0ea)
  const SECOND_5 :=
    Block(0xdfe9d5d3, 0x35f90c9a, 0x9c3ae884, 0x2adc0a7a, 0x14fb5d30, 0x2cddfc76, 0xe0dce048, 0xc29fbcb3,
          0xe6435824, 0x9e8bbed3, 0x1f9781b8, 0xeb7abd2b, 0x9f4743f3, 0x820e8e14, 0x71bdbf3e, 0xd7c97883)
  const SECOND_6 :=
    Block(0xaad84ddb, 0x57092a1f, 0x79c50ce9, 0xec3d1063, 0x127e7056, 0xe880388f, 0x0c703368, 0x5ec000c1,
          0x02b60010, 0x81ab2161, 0x9a51903c, 0xfadaf8f4, 0x5cdca357, 0xce393a7d, 0xca073a5c, 0x04af1982)
  const SECOND_7 :=
    Block(0xf9dd8462, 0x65dda20f, 0x09359a63, 0x29342b1c, 0xc806e955, 0xe055bd9c, 0x9c3e65eb, 0x98493c9a,
          0xbcd860f5, 0x451a767e, 0x9b6b05ec, 0x562c20db, 0xb595f3cc, 0xfb672026, 0xaae6e80f, 0x7178a057)
  const SECOND_8 :=
    Block(0x9db596f3, 0xed0a1d1e, 0xc6769bae, 0x3e2dbd6c, 0xfd193358, 0x1c09d1ca, 0xb26d1d3f, 0x1dfc8bbf,
          0x46ef4faa, 0x69b0dd0e, 0x2989c76c, 0x149215ab, 0x9a51c0c2, 0x6fa51231, 0x70b88931, 0x1cf32121)

  // ---------- half rounds ----------

  /** The quarter rounds on the columns lead from `x` to `y`. */
  predicate ColumnsLead(x: Block, y: Block) {
    && QuarterRound(Quad(x.x0, x.x4, x.x8, x.x12)) == Quad(y.x0, y.x4, y.x8, y.x12)
    && QuarterRound(Quad(x.x5, x.x9, x.x13, x.x1)) == Quad(y.x5, y.x9, y.x13, y.x1)
    && QuarterRound(Quad(x.x10, x.x14, x.x2, x.x6)) == Quad(y.x10, y.x14, y.x2, y.x6)
    && QuarterRound(Quad(x.x15, x.x3, x.x7, x.x11)) == Quad(y.x15, y.x3, y.x7, y.x11)
  }

  predicate RowsLead(x: Block, y: Block) {
    && QuarterRound(Quad(x.x0, x.x1, x.x2, x.x3)) == Quad(y.x0, y.x1, y.x2, y.x3)
    && QuarterRound(Quad(x.x5, x.x6, x.x7, x.x4)) == Quad(y.x5, y.x6, y.x7, y.x4)
    && QuarterRound(Quad(x.x10, x.x11, x.x8, x.x9)) == Quad(y.x10, y.x11, y.x8, y.x9)
    && QuarterRound(Quad(x.x15, x.x12, x.x13, x.x14)) == Quad(y.x15, y.x12, y.x13, y.x14)
  }

  lemma DoubleRoundIs(x: Block, y: Block, z: Block)
    requires ColumnsLead(x, y) && RowsLead(y, z)
    ensures RowRound(ColumnRound(x)) == z
  {
    hide QuarterRound;
    assert ColumnRound(x) == y;
  }

  lemma FirstRound0()
    ensures ColumnsLead(FIRST_0, FIRST_1) && RowsLead(FIRST_1, FIRST_2)
  {
    assert QuarterRound(Quad(0x219a877e, 0x5b55eeba, 0x19f324ee, 0x291d0276))
      == Quad(0x08857f83, 0x0091149f, 0x4ecb1eaa, 0xaf742b9d);
    assert QuarterRound(Quad(0xb5c1618c, 0x853d9bdf, 0x2948c709, 0x86c93e4f))
      == Quad(0xc3e54d59, 0xc0727641, 0x4ee75de5, 0xbc4dffa4);
    assert QuarterRound(Quad(0x4b1e1214, 0x8dc6ebed, 0xe640a97c, 0x1146f80d))
      == Quad(0x6585dfa2, 0xbf43fb43, 0x225a0768, 0xd113843e);
    assert QuarterRound(Quad(0x5ec2b8b8, 0x268f7141, 0x1d3bcd6d, 0x32aac55a))
      == Quad(0x55af2fd9, 0x90307809, 0xfb5a4eb0, 0x6a7df42b);
    assert QuarterRound(Quad(0x08857f83, 0xbc4dffa4, 0x225a0768, 0x90307809))
      == Quad(0x482665b1, 0xe6b639e8, 0x5528d0b6, 0x7163bf72);
    assert QuarterRound(Quad(0xc3e54d59, 0xd113843e, 0xfb5a4eb0, 0x0091149f))
      == Quad(0x0c50b5fd, 0xea23785c, 0xead125ec, 0x93580e01);
    assert QuarterRound(Quad(0x6585dfa2, 0x6a7df42b, 0x4ecb1eaa, 0xc0727641))
      == Quad(0x209aedeb, 0x965705b9, 0xf701a95d, 0xd590a7ea);
    assert QuarterRound(Quad(0x55af2fd9, 0xaf742b9d, 0x4ee75de5, 0xbf43fb43))
      == Quad(0x10a42604, 0xd6e1a597, 0x6f4dbdbc, 0x53299386);
  }

  lemma FirstRound1()
    ensures ColumnsLead(FIRST_2, FIRST_3) && RowsLead(FIRST_3, FIRST_4)
  {
    assert QuarterRound(Quad(0x482665b1, 0x93580e01, 0xf701a95d, 0xd6e1a597))
      == Quad(0xb4cf7248, 0x175daa0e, 0xff1ed7e2, 0x46dfa758);
    assert QuarterRound(Quad(0x0c50b5fd, 0xd590a7ea, 0x6f4dbdbc, 0xe6b639e8))
      == Quad(0xde3bd4f1, 0x56e75513, 0x1f5b9d7a, 0xb8e79720);
    assert QuarterRound(Quad(0x209aedeb, 0x53299386, 0x5528d0b6, 0xea23785c))
      == Quad(0xd8b882ab, 0x0c1ab003, 0x3e130cef, 0x5dbd3119);
    assert QuarterRound(Quad(0x10a42604, 0x7163bf72, 0xead125ec, 0x965705b9))
      == Quad(0x0f4f975e, 0x0cf661a1, 0xdfde6fd7, 0x0c781823);
    assert QuarterRound(Quad(0xb4cf7248, 0xb8e79720, 0x3e130cef, 0x0cf661a1))
      == Quad(0xe9e67835, 0x5a0e63c0, 0x85bf1cf2, 0xbce03a58);
    assert QuarterRound(Quad(0xde3bd4f1, 0x5dbd3119, 0xdfde6fd7, 0x175daa0e))
      == Quad(0x10a33116, 0x91024ee3, 0xa399c709, 0x95e02c9d);
    assert QuarterRound(Quad(0xd8b882ab, 0x0c781823, 0xff1ed7e2, 0x56e75513))
      == Quad(0x3dffe364, 0xc393c734, 0x678d68da, 0x70e69077);
    assert QuarterRound(Quad(0x0f4f975e, 0x46dfa758, 0x1f5b9d7a, 0x0c1ab003))
      == Quad(0x64b0ce84, 0xf3fc17d5, 0x8805fb7c, 0x4e709f83);
  }

  lemma FirstRound2()
    ensures ColumnsLead(FIRST_4, FIRST_5) && RowsLead(FIRST_5, FIRST_6)
  {
    assert QuarterRound(Quad(0xe9e67835, 0x95e02c9d, 0x678d68da, 0xf3fc17d5))
      == Quad(0xfbef1227, 0x64a829f3, 0x7ac93847, 0xdfbb4c3b);
    assert QuarterRound(Quad(0x10a33116, 0x70e69077, 0x8805fb7c, 0x5a0e63c0))
      == Quad(0x43dbdd85, 0x282cfb42, 0x285d4b0d, 0x12c789d1);
    assert QuarterRound(Quad(0x3dffe364, 0x4e709f83, 0x85bf1cf2, 0x91024ee3))
      == Quad(0x60e759d5, 0xcf69bc64, 0x56808ce8, 0xd82bca5e);
    assert QuarterRound(Quad(0x64b0ce84, 0xbce03a58, 0xa399c709, 0xc393c734))
      == Quad(0x05ea3220, 0x9eaae64c, 0x14f0670f, 0xaa38b147);
    assert QuarterRound(Quad(0xfbef1227, 0x12c789d1, 0x56808ce8, 0x9eaae64c))
      == Quad(0x28f2a180, 0x5e3bb01c, 0x03040a5c, 0x69e5ea6b);
    assert QuarterRound(Quad(0x43dbdd85, 0xd82bca5e, 0x14f0670f, 0x64a829f3))
      == Quad(0x1c650ad9, 0x9a28760a, 0x1c5778b3, 0x997f9f3c);
    assert QuarterRound(Quad(0x60e759d5, 0xaa38b147, 0x7ac93847, 0x282cfb42))
      == Quad(0x3fec3108, 0x20123a83, 0x89e18946, 0x5055ce7c);
    assert QuarterRound(Quad(0x05ea3220, 0xdfbb4c3b, 0x285d4b0d, 0xcf69bc64))
      == Quad(0x5632c6dc, 0x764c0e51, 0x44dda9f5, 0xf8616b01);
  }

  lemma FirstRound3()
    ensures ColumnsLead(FIRST_6, FIRST_7) && RowsLead(FIRST_7, FIRST_8)
  {
    assert QuarterRound(Quad(0x28f2a180, 0x997f9f3c, 0x89e18946, 0x764c0e51))
      == Quad(0xb0e98b83, 0x062877f3, 0xbfd36f18, 0x0aad76ee);
    assert QuarterRound(Quad(0x1c650ad9, 0x5055ce7c, 0x44dda9f5, 0x5e3bb01c))
      == Quad(0x1abe5aed, 0x0008b4c1, 0x9fa29dcd, 0x346a63e9);
    assert QuarterRound(Quad(0x3fec3108, 0xf8616b01, 0x03040a5c, 0x9a28760a))
      == Quad(0x678d4e77, 0xf232e26c, 0x3d22e238, 0x22bcf3e0);
    assert QuarterRound(Quad(0x5632c6dc, 0x69e5ea6b, 0x1c5778b3, 0x20123a83))
      == Quad(0x0fa7223d, 0x4b6545d0, 0x2c4e21f0, 0x4cea3475);
    assert QuarterRound(Quad(0xb0e98b83, 0x346a63e9, 0x3d22e238, 0x4b6545d0))
      == Quad(0x7aea9826, 0x1302ca17, 0xe589d7bf, 0xdf5f9ac1);
    assert QuarterRound(Quad(0x1abe5aed, 0x22bcf3e0, 0x2c4e21f0, 0x062877f3))
      == Quad(0xc7729c16, 0x51d583f0, 0x0bf39b29, 0x25cb5c4a);
    assert QuarterRound(Quad(0x678d4e77, 0x4cea3475, 0xbfd36f18, 0x0008b4c1))
      == Quad(0x6ca759ea, 0x87eba846, 0x4e3e14c6, 0x37a92e04);
    assert QuarterRound(Quad(0x0fa7223d, 0x0aad76ee, 0x9fa29dcd, 0xf232e26c))
      == Quad(0x22cca90f, 0xe7af226e, 0x332bca23, 0xafa0c137);
  }

  lemma SecondRound0()
    ensures ColumnsLead(SECOND_0, SECOND_1) && RowsLead(SECOND_1, SECOND_2)
  {
    assert QuarterRound(Quad(0xd814562d, 0x0162d3c9, 0x394debd3, 0xbdd0699b))
      == Quad(0xd1add72d, 0xf33d3783, 0x9a568a45, 0xc5e97829);
    assert QuarterRound(Quad(0xc655bb95, 0x4233832d, 0x8648c346, 0xbb771b14))
      == Quad(0xb457b44e, 0xa458d7ed, 0xdb6fc793, 0xa88714ed);
    assert QuarterRound(Quad(0xbc0c4226, 0x8100a353, 0x867fa457, 0xdca98772))
      == Quad(0xc6251844, 0xdbe46f1f, 0x671d2f78, 0xef7b6f12);
    assert QuarterRound(Quad(0x08f1ce2d, 0xfe9f6faa, 0x997baad6, 0xa1c137f0))
      == Quad(0x10498c1f, 0xa71c617f, 0x8524f3b6, 0x8b679278);
    assert QuarterRound(Quad(0xd1add72d, 0xa88714ed, 0x671d2f78, 0xa71c617f))
      == Quad(0x7c1ebc98, 0xcd9b42d1, 0xf52ed246, 0xe5be9926);
    assert QuarterRound(Quad(0xb457b44e, 0xef7b6f12, 0x8524f3b6, 0xf33d3783))
      == Quad(0xad1c2ec4, 0x250e87c1, 0x495cec04, 0x9d459a4e);
    assert QuarterRound(Quad(0xc6251844, 0x8b679278, 0x9a568a45, 0xa458d7ed))
      == Quad(0x9893cd5b, 0xb59f8acd, 0x1310a8b2, 0xa2372efb);
    assert QuarterRound(Quad(0x10498c1f, 0xc5e97829, 0xdb6fc793, 0xdbe46f1f))
      == Quad(0x9acf916f, 0xd314e75f, 0x67893a55, 0x1fd2e84c);
  }

  lemma SecondRound1()
    ensures ColumnsLead(SECOND_2, SECOND_3) && RowsLead(SECOND_3, SECOND_4)
  {
    assert QuarterRound(Quad(0x7c1ebc98, 0x9d459a4e, 0x1310a8b2, 0xd314e75f))
      == Quad(0x2c76a3cc, 0x049461e9, 0x752dabb3, 0x92a76867);
    assert QuarterRound(Quad(0xad1c2ec4, 0xa2372efb, 0x67893a55, 0xcd9b42d1))
      == Quad(0x792590ba, 0xf98fe446, 0x3faf2f18, 0x2ff085f6);
    assert QuarterRound(Quad(0x9893cd5b, 0x1fd2e84c, 0xf52ed246, 0x250e87c1))
      == Quad(0x7bdb95cc, 0xcef86612, 0xed480889, 0x28ddf049);
    assert QuarterRound(Quad(0x9acf916f, 0xe5be9926, 0x495cec04, 0xb59f8acd))
      == Quad(0x18be2f57, 0xd230870e, 0x496c16de, 0x262209be);
    assert QuarterRound(Quad(0x2c76a3cc, 0x2ff085f6, 0xed480889, 0xd230870e))
      == Quad(0xafb7c3f9, 0x7c65e889, 0x5450a3d8, 0x03bcbd18);
    assert QuarterRound(Quad(0x792590ba, 0x28ddf049, 0x496c16de, 0x049461e9))
      == Quad(0x46671c68, 0xf424a1f7, 0xdd097404, 0xc62b1bcc);
    assert QuarterRound(Quad(0x7bdb95cc, 0x262209be, 0x752dabb3, 0xf98fe446))
      == Quad(0x3ca675e7, 0x939f0084, 0x80010bad, 0xf809c632);
    assert QuarterRound(Quad(0x18be2f57, 0x92a76867, 0x3faf2f18, 0xcef86612))
      == Quad(0x30b3c0ea, 0x49eddc94, 0x67b8f9dd, 0x14365026);
  }

  lemma SecondRound2()
    ensures ColumnsLead(SECOND_4, SECOND_5) && RowsLead(SECOND_5, SECOND_6)
  {
    assert QuarterRound(Quad(0xafb7c3f9, 0xc62b1bcc, 0x80010bad, 0x49eddc94))
      == Quad(0xdfe9d5d3, 0x14fb5d30, 0xe6435824, 0x9f4743f3);
    assert QuarterRound(Quad(0x46671c68, 0xf809c632, 0x67b8f9dd, 0x7c65e889))
      == Quad(0x2cddfc76, 0x9e8bbed3, 0x820e8e14, 0x35f90c9a);
    assert QuarterRound(Quad(0x3ca675e7, 0x14365026, 0x5450a3d8, 0xf424a1f7))
      == Quad(0x1f9781b8, 0x71bdbf3e, 0x9c3ae884, 0xe0dce048);
    assert QuarterRound(Quad(0x30b3c0ea, 0x03bcbd18, 0xdd097404, 0x939f0084))
      == Quad(0xd7c97883, 0x2adc0a7a, 0xc29fbcb3, 0xeb7abd2b);
    assert QuarterRound(Quad(0xdfe9d5d3, 0x35f90c9a, 0x9c3ae884, 0x2adc0a7a))
      == Quad(0xaad84ddb, 0x57092a1f, 0x79c50ce9, 0xec3d1063);
    assert QuarterRound(Quad(0x2cddfc76, 0xe0dce048, 0xc29fbcb3, 0x14fb5d30))
      == Quad(0xe880388f, 0x0c703368, 0x5ec000c1, 0x127e7056);
    assert QuarterRound(Quad(0x1f9781b8, 0xeb7abd2b, 0xe6435824, 0x9e8bbed3))
      == Quad(0x9a51903c, 0xfadaf8f4, 0x02b60010, 0x81ab2161);
    assert QuarterRound(Quad(0xd7c97883, 0x9f4743f3, 0x820e8e14, 0x71bdbf3e))
      == Quad(0x04af1982, 0x5cdca357, 0xce393a7d, 0xca073a5c);
  }

  lemma SecondRound3()
    ensures ColumnsLead(SECOND_6, SECOND_7) && RowsLead(SECOND_7, SECOND_8)
  {
    assert QuarterRound(Quad(0xaad84ddb, 0x127e7056, 0x02b60010, 0x5cdca357))
      == Quad(0xf9dd8462, 0xc806e955, 0xbcd860f5, 0xb595f3cc);
    assert QuarterRound(Quad(0xe880388f, 0x81ab2161, 0xce393a7d, 0x57092a1f))
      == Quad(0xe055bd9c, 0x451a767e, 0xfb672026, 0x65dda20f);
    assert QuarterRound(Quad(0x9a51903c, 0xca073a5c, 0x79c50ce9, 0x0c703368))
      == Quad(0x9b6b05ec, 0xaae6e80f, 0x09359a63, 0x9c3e65eb);
    assert QuarterRound(Quad(0x04af1982, 0xec3d1063, 0x5ec000c1, 0xfadaf8f4))
      == Quad(0x7178a057, 0x29342b1c, 0x98493c9a, 0x562c20db);
    assert QuarterRound(Quad(0xf9dd8462, 0x65dda20f, 0x09359a63, 0x29342b1c))
      == Quad(0x9db596f3, 0xed0a1d1e, 0xc6769bae, 0x3e2dbd6c);
    assert QuarterRound(Quad(0xe055bd9c, 0x9c3e65eb, 0x98493c9a, 0xc806e955))
      == Quad(0x1c09d1ca, 0xb26d1d3f, 0x1dfc8bbf, 0xfd193358);
    assert QuarterRound(Quad(0x9b6b05ec, 0x562c20db, 0xbcd860f5, 0x451a767e))
      == Quad(0x2989c76c, 0x149215ab, 0x46ef4faa, 0x69b0dd0e);
    assert QuarterRound(Quad(0x7178a057, 0xb595f3cc, 0xfb672026, 0xaae6e80f))
      == Quad(0x1cf32121, 0x9a51c0c2, 0x6fa51231, 0x70b88931);
  }

  lemma FirstCore()
    ensures DoubleRounds(FIRST_0, 4) == FIRST_8
  {
    hide ColumnRound, RowRound, ColumnsLead, RowsLead;
    FirstRound0();
    DoubleRoundIs(FIRST_0, FIRST_1, FIRST_2);
    FirstRound1();
    DoubleRoundIs(FIRST_2, FIRST_3, FIRST_4);
    FirstRound2();
    DoubleRoundIs(FIRST_4, FIRST_5, FIRST_6);
    FirstRound3();
    DoubleRoundIs(FIRST_6, FIRST_7, FIRST_8);
    assert DoubleRounds(FIRST_0, 1) == FIRST_2;
    assert DoubleRounds(FIRST_0, 2) == FIRST_4;
  }

  lemma SecondCore()
    ensures DoubleRounds(SECOND_0, 4) == SECOND_8
  {
    hide ColumnRound, RowRound, ColumnsLead, RowsLead;
    SecondRound0();
    DoubleRoundIs(SECOND_0, SECOND_1, SECOND_2);
    SecondRound1();
    DoubleRoundIs(SECOND_2, SECOND_3, SECOND_4);
    SecondRound2();
    DoubleRoundIs(SECOND_4, SECOND_5, SECOND_6);
    SecondRound3();
    DoubleRoundIs(SECOND_6, SECOND_7, SECOND_8);
    assert DoubleRounds(SECOND_0, 1) == SECOND_2;
    assert DoubleRounds(SECOND_0, 2) == SECOND_4;
  }

  /** The output blocks. */
  lemma BlockMixExample()
    ensures BlockMix(Input()) == Pair(
      Block(0x9c851fa4, 0x99cc0866, 0xcbca813b, 0x05ef0c02, 0x81214b04, 0x7d33fda2, 0x631c7bfd, 0x292f6896,
            0x683139b4, 0xbce6c9e3, 0xb7c56bfe, 0xba966da0, 0x10cc24e4, 0x5c74912c, 0x3d67ad24, 0x818f61c7),
      Block(0x75c9ed20, 0xa8813832, 0x4cf64005, 0x3ccd2d16, 0xfe7c0721, 0xe25f8d5f, 0x8f16a4b1, 0xb7783695,
            0x803d3b7d, 0xabe4603b, 0xe5960992, 0xb6534d9b, 0x58222a5d, 0xf5edd577, 0xf1b92c84, 0x25e4ef4e))
  {
    hide DoubleRounds;
    FirstCore();
    SecondCore();
    assert XorBlock(Input().lo, Input().hi) == FIRST_0;
    var y0 := AddBlock(FIRST_0, FIRST_8);
    assert XorBlock(Input().hi, y0) == SECOND_0;
  }
}
