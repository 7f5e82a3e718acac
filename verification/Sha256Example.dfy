/**
 The example "abc" that NIST publishes for FIPS 180-4, worked through the sixty-four steps
 of its one compression: the functions, constants and byte orders of the standard's text
 give the published digest.
 */
module Sha256Example {
  import opened Streaming
  import opened Sha256Spec
  import opened Sha256

  /** The padded message: the letters, the one bit, zeros, and the length of 24 bits. */
  function Abc(): (block: Bytes)
    ensures |block| == 64
  {
    [0x61, 0x62, 0x63, 0x80] + ZeroBytes(59) + [24]
  }

  /** Words 8 * row to 8 * row + 7 of the message schedule. */
  function Schedule(row: nat): (r: seq<Word>)
    ensures |r| == 8
  {
    if row == 0 then [0x61626380, 0x00000000, 0x00000000, 0x00000000, 0x00000000, 0x00000000, 0x00000000, 0x00000000]
    else if row == 1 then [0x00000000, 0x00000000, 0x00000000, 0x00000000,
      0x00000000, 0x00000000, 0x00000000, 0x00000018]
    else if row == 2 then [0x61626380, 0x000f0000, 0x7da86405, 0x600003c6,
      0x3e9d7b78, 0x0183fc00, 0x12dcbfdb, 0xe2e2c38e]
    else if row == 3 then [0xc8215c1a, 0xb73679a2, 0xe5bc3909, 0x32663c5b,
      0x9d209d67, 0xec8726cb, 0x702138a4, 0xd3b7973b]
    else if row == 4 then [0x93f5997f, 0x3b68ba73, 0xaff4ffc1, 0xf10a5c62,
      0x0a8b3996, 0x72af830a, 0x9409e33e, 0x24641522]
    else if row == 5 then [0x9f47bf94, 0xf0a64f5a, 0x3e246a79, 0x27333ba3,
      0x0c4763f2, 0x840abf27, 0x7a290d5d, 0x065c43da]
    else if row == 6 then [0xfb3e89cb, 0xcc7617db, 0xb9e66c34, 0xa9993667,
      0x84badedd, 0xc21462bc, 0x1487472c, 0xb20f7a99]
    else [0xef57b9cd, 0xebe6b238, 0x9fe3095e, 0x78bc8d4b, 0xa43fcf15, 0x668b2ff8, 0xeeaba2cc, 0x12b1edeb]
  }

  /** The working variables after 8 * row steps, for rows 1 to 8. */
  function Variables(row: nat): Hash {
    if row == 1 then Hash(0x85a07b5f, 0xe5030380, 0x2b4209f5, 0x04409a6a,
      0x0c657a79, 0x9b27a401, 0x714260ad, 0x43ada245)
    else if row == 2 then Hash(0xb0fa238e, 0xc0645fde, 0xd932eb16, 0x87912990,
      0x07590dcd, 0x0b92f20c, 0x745a48de, 0x1e578218)
    else if row == 3 then Hash(0xc5d53d8d, 0xa7a3623f, 0xc2606d6d, 0x9dc68b63,
      0xaa47c347, 0x49f5114a, 0xe1257970, 0x8ada8930)
    else if row == 4 then Hash(0x73b33bf5, 0xea992a22, 0xa0060b30, 0x363482c9,
      0xba591112, 0x0109ab3a, 0xade79437, 0x6112a3b7)
    else if row == 5 then Hash(0x79ea687a, 0x6dc57a8a, 0x34df1604, 0x41a65cb1,
      0x1efbc0a0, 0xf0781bc8, 0xa507a53d, 0x0772a26b)
    else if row == 6 then Hash(0x4172328d, 0xa14c14b0, 0x72ab4b91, 0x26628815,
      0xfecf0bc6, 0xd57b94a9, 0xb7755da1, 0xa80f11f0)
    else if row == 7 then Hash(0x38cc9913, 0x3ec45cdb, 0xf5702fdb, 0x101fd28f,
      0x54cb266b, 0xe50e1b4f, 0x9f4787c3, 0x529e7d00)
    else Hash(0x506e3058, 0xd39a2165, 0x04d24d6c, 0xb85e2ce9, 0x5ef50f24, 0xfb121210, 0x948d25b6, 0x961f4894)
  }

  // ---------- the schedule ----------

  predicate RowIs(row: nat) {
    forall i: nat :: i < 8 ==> WordAt(row, i) == Schedule(row)[i]
  }

  function WordAt(row: nat, i: nat): Word {
    W(Abc(), 8 * row + i)
  }

  lemma FirstWords()
    ensures RowIs(0) && RowIs(1)
  {
    var b := Abc();
    assert forall k: nat :: 4 <= k < 63 ==> b[k] == 0;
  }

  lemma NextWord(t: nat, a: Word, b: Word, c: Word, d: Word, w: Word)
    requires t >= 16 && W(Abc(), t - 2) == a && W(Abc(), t - 7) == b && W(Abc(), t - 15) == c && W(Abc(), t - 16) == d
    requires Add(Add(Add(SmallSigma1(a), b), SmallSigma0(c)), d) == w
    ensures W(Abc(), t) == w
  {
    hide Add, SmallSigma0, SmallSigma1;
  }

  lemma ScheduleRow2()
    requires RowIs(0) && RowIs(1)
    ensures RowIs(2)
  {
    hide W, Abc;
    RowWords(0);
    RowWords(1);
    NextWord(16, 0x00000000, 0x00000000, 0x00000000, 0x61626380, 0x61626380);
    NextWord(17, 0x00000018, 0x00000000, 0x00000000, 0x00000000, 0x000f0000);
    NextWord(18, 0x61626380, 0x00000000, 0x00000000, 0x00000000, 0x7da86405);
    NextWord(19, 0x000f0000, 0x00000000, 0x00000000, 0x00000000, 0x600003c6);
    NextWord(20, 0x7da86405, 0x00000000, 0x00000000, 0x00000000, 0x3e9d7b78);
    NextWord(21, 0x600003c6, 0x00000000, 0x00000000, 0x00000000, 0x0183fc00);
    NextWord(22, 0x3e9d7b78, 0x00000018, 0x00000000, 0x00000000, 0x12dcbfdb);
    NextWord(23, 0x0183fc00, 0x61626380, 0x00000000, 0x00000000, 0xe2e2c38e);
  }

  lemma ScheduleRow3()
    requires RowIs(1) && RowIs(2)
    ensures RowIs(3)
  {
    hide W, Abc;
    RowWords(1);
    RowWords(2);
    NextWord(24, 0x12dcbfdb, 0x000f0000, 0x00000000, 0x00000000, 0xc8215c1a);
    NextWord(25, 0xe2e2c38e, 0x7da86405, 0x00000000, 0x00000000, 0xb73679a2);
    NextWord(26, 0xc8215c1a, 0x600003c6, 0x00000000, 0x00000000, 0xe5bc3909);
    NextWord(27, 0xb73679a2, 0x3e9d7b78, 0x00000000, 0x00000000, 0x32663c5b);
    NextWord(28, 0xe5bc3909, 0x0183fc00, 0x00000000, 0x00000000, 0x9d209d67);
    NextWord(29, 0x32663c5b, 0x12dcbfdb, 0x00000000, 0x00000000, 0xec8726cb);
    NextWord(30, 0x9d209d67, 0xe2e2c38e, 0x00000018, 0x00000000, 0x702138a4);
    NextWord(31, 0xec8726cb, 0xc8215c1a, 0x61626380, 0x00000018, 0xd3b7973b);
  }

  lemma ScheduleRow4()
    requires RowIs(2) && RowIs(3)
    ensures RowIs(4)
  {
    hide W, Abc;
    RowWords(2);
    RowWords(3);
    NextWord(32, 0x702138a4, 0xb73679a2, 0x000f0000, 0x61626380, 0x93f5997f);
    NextWord(33, 0xd3b7973b, 0xe5bc3909, 0x7da86405, 0x000f0000, 0x3b68ba73);
    NextWord(34, 0x93f5997f, 0x32663c5b, 0x600003c6, 0x7da86405, 0xaff4ffc1);
    NextWord(35, 0x3b68ba73, 0x9d209d67, 0x3e9d7b78, 0x600003c6, 0xf10a5c62);
    NextWord(36, 0xaff4ffc1, 0xec8726cb, 0x0183fc00, 0x3e9d7b78, 0x0a8b3996);
    NextWord(37, 0xf10a5c62, 0x702138a4, 0x12dcbfdb, 0x0183fc00, 0x72af830a);
    NextWord(38, 0x0a8b3996, 0xd3b7973b, 0xe2e2c38e, 0x12dcbfdb, 0x9409e33e);
    NextWord(39, 0x72af830a, 0x93f5997f, 0xc8215c1a, 0xe2e2c38e, 0x24641522);
  }

  lemma ScheduleRow5()
    requires RowIs(3) && RowIs(4)
    ensures RowIs(5)
  {
    hide W, Abc;
    RowWords(3);
    RowWords(4);
    NextWord(40, 0x9409e33e, 0x3b68ba73, 0xb73679a2, 0xc8215c1a, 0x9f47bf94);
    NextWord(41, 0x24641522, 0xaff4ffc1, 0xe5bc3909, 0xb73679a2, 0xf0a64f5a);
    NextWord(42, 0x9f47bf94, 0xf10a5c62, 0x32663c5b, 0xe5bc3909, 0x3e246a79);
    NextWord(43, 0xf0a64f5a, 0x0a8b3996, 0x9d209d67, 0x32663c5b, 0x27333ba3);
    NextWord(44, 0x3e246a79, 0x72af830a, 0xec8726cb, 0x9d209d67, 0x0c4763f2);
    NextWord(45, 0x27333ba3, 0x9409e33e, 0x702138a4, 0xec8726cb, 0x840abf27);
    NextWord(46, 0x0c4763f2, 0x24641522, 0xd3b7973b, 0x702138a4, 0x7a290d5d);
    NextWord(47, 0x840abf27, 0x9f47bf94, 0x93f5997f, 0xd3b7973b, 0x065c43da);
  }

  lemma ScheduleRow6()
    requires RowIs(4) && RowIs(5)
    ensures RowIs(6)
  {
    hide W, Abc;
    RowWords(4);
    RowWords(5);
    NextWord(48, 0x7a290d5d, 0xf0a64f5a, 0x3b68ba73, 0x93f5997f, 0xfb3e89cb);
    NextWord(49, 0x065c43da, 0x3e246a79, 0xaff4ffc1, 0x3b68ba73, 0xcc7617db);
    NextWord(50, 0xfb3e89cb, 0x27333ba3, 0xf10a5c62, 0xaff4ffc1, 0xb9e66c34);
    NextWord(51, 0xcc7617db, 0x0c4763f2, 0x0a8b3996, 0xf10a5c62, 0xa9993667);
    NextWord(52, 0xb9e66c34, 0x840abf27, 0x72af830a, 0x0a8b3996, 0x84badedd);
    NextWord(53, 0xa9993667, 0x7a290d5d, 0x9409e33e, 0x72af830a, 0xc21462bc);
    NextWord(54, 0x84badedd, 0x065c43da, 0x24641522, 0x9409e33e, 0x1487472c);
    NextWord(55, 0xc21462bc, 0xfb3e89cb, 0x9f47bf94, 0x24641522, 0xb20f7a99);
  }

  lemma ScheduleRow7()
    requires RowIs(5) && RowIs(6)
    ensures RowIs(7)
  {
    hide W, Abc;
    RowWords(5);
    RowWords(6);
    NextWord(56, 0x1487472c, 0xcc7617db, 0xf0a64f5a, 0x9f47bf94, 0xef57b9cd);
    NextWord(57, 0xb20f7a99, 0xb9e66c34, 0x3e246a79, 0xf0a64f5a, 0xebe6b238);
    NextWord(58, 0xef57b9cd, 0xa9993667, 0x27333ba3, 0x3e246a79, 0x9fe3095e);
    NextWord(59, 0xebe6b238, 0x84badedd, 0x0c4763f2, 0x27333ba3, 0x78bc8d4b);
    NextWord(60, 0x9fe3095e, 0xc21462bc, 0x840abf27, 0x0c4763f2, 0xa43fcf15);
    NextWord(61, 0x78bc8d4b, 0x1487472c, 0x7a290d5d, 0x840abf27, 0x668b2ff8);
    NextWord(62, 0xa43fcf15, 0xb20f7a99, 0x065c43da, 0x7a290d5d, 0xeeaba2cc);
    NextWord(63, 0x668b2ff8, 0xef57b9cd, 0xfb3e89cb, 0x065c43da, 0x12b1edeb);
  }

  lemma RowWords(row: nat)
    requires RowIs(row)
    ensures W(Abc(), 8 * row) == Schedule(row)[0] && W(Abc(), 8 * row + 1) == Schedule(row)[1]
    ensures W(Abc(), 8 * row + 2) == Schedule(row)[2] && W(Abc(), 8 * row + 3) == Schedule(row)[3]
    ensures W(Abc(), 8 * row + 4) == Schedule(row)[4] && W(Abc(), 8 * row + 5) == Schedule(row)[5]
    ensures W(Abc(), 8 * row + 6) == Schedule(row)[6] && W(Abc(), 8 * row + 7) == Schedule(row)[7]
  {
    hide W, Abc, Schedule;
    forall i: nat | i < 8
      ensures W(Abc(), 8 * row + i) == Schedule(row)[i]
    {
      assert WordAt(row, i) == Schedule(row)[i];
    }
  }

  // ---------- the steps ----------

  /** A step moves the variables on and computes two of them anew. */
  function Moved(v: Hash, a: Word, e: Word): Hash {
    Hash(a, v.a, v.b, v.c, e, v.e, v.f, v.g)
  }

  lemma Steps0()
    ensures Eight(InitialHash(), Schedule(0), ConstantRow(0)) == Variables(1)
  {
    var v0 := InitialHash();
    var v1 := Moved(v0, 0x5d6aebcd, 0xfa2a4622);
    assert Round(v0, 0x61626380, 0x428a2f98) == v1;
    var v2 := Moved(v1, 0x5a6ad9ad, 0x78ce7989);
    assert Round(v1, 0x00000000, 0x71374491) == v2;
    var v3 := Moved(v2, 0xc8c347a7, 0xf92939eb);
    assert Round(v2, 0x00000000, 0xb5c0fbcf) == v3;
    var v4 := Moved(v3, 0xd550f666, 0x24e00850);
    assert Round(v3, 0x00000000, 0xe9b5dba5) == v4;
    var v5 := Moved(v4, 0x04409a6a, 0x43ada245);
    assert Round(v4, 0x00000000, 0x3956c25b) == v5;
    var v6 := Moved(v5, 0x2b4209f5, 0x714260ad);
    assert Round(v5, 0x00000000, 0x59f111f1) == v6;
    var v7 := Moved(v6, 0xe5030380, 0x9b27a401);
    assert Round(v6, 0x00000000, 0x923f82a4) == v7;
  }

  lemma Steps1()
    ensures Eight(Variables(1), Schedule(1), ConstantRow(1)) == Variables(2)
  {
    var v0 := Variables(1);
    var v1 := Moved(v0, 0x8e04ecb9, 0x32ca2d8c);
    assert Round(v0, 0x00000000, 0xd807aa98) == v1;
    var v2 := Moved(v1, 0x8c87346b, 0x1cc92596);
    assert Round(v1, 0x00000000, 0x12835b01) == v2;
    var v3 := Moved(v2, 0x4798a3f4, 0x436b23e8);
    assert Round(v2, 0x00000000, 0x243185be) == v3;
    var v4 := Moved(v3, 0xf71fc5a9, 0x816fd6e9);
    assert Round(v3, 0x00000000, 0x550c7dc3) == v4;
    var v5 := Moved(v4, 0x87912990, 0x1e578218);
    assert Round(v4, 0x00000000, 0x72be5d74) == v5;
    var v6 := Moved(v5, 0xd932eb16, 0x745a48de);
    assert Round(v5, 0x00000000, 0x80deb1fe) == v6;
    var v7 := Moved(v6, 0xc0645fde, 0x0b92f20c);
    assert Round(v6, 0x00000000, 0x9bdc06a7) == v7;
  }

  lemma Steps2()
    ensures Eight(Variables(2), Schedule(2), ConstantRow(2)) == Variables(3)
  {
    var v0 := Variables(2);
    var v1 := Moved(v0, 0x21da9a9b, 0x8034229c);
    assert Round(v0, 0x61626380, 0xe49b69c1) == v1;
    var v2 := Moved(v1, 0xc2fbd9d1, 0x846ee454);
    assert Round(v1, 0x000f0000, 0xefbe4786) == v2;
    var v3 := Moved(v2, 0xfe777bbf, 0xcc899961);
    assert Round(v2, 0x7da86405, 0x0fc19dc6) == v3;
    var v4 := Moved(v3, 0xe1f20c33, 0xb0638179);
    assert Round(v3, 0x600003c6, 0x240ca1cc) == v4;
    var v5 := Moved(v4, 0x9dc68b63, 0x8ada8930);
    assert Round(v4, 0x3e9d7b78, 0x2de92c6f) == v5;
    var v6 := Moved(v5, 0xc2606d6d, 0xe1257970);
    assert Round(v5, 0x0183fc00, 0x4a7484aa) == v6;
    var v7 := Moved(v6, 0xa7a3623f, 0x49f5114a);
    assert Round(v6, 0x12dcbfdb, 0x5cb0a9dc) == v7;
  }

  lemma Steps3()
    ensures Eight(Variables(3), Schedule(3), ConstantRow(3)) == Variables(4)
  {
    var v0 := Variables(3);
    var v1 := Moved(v0, 0x1c2c2838, 0x2823ef91);
    assert Round(v0, 0xc8215c1a, 0x983e5152) == v1;
    var v2 := Moved(v1, 0xcde8037d, 0x14383d8e);
    assert Round(v1, 0xb73679a2, 0xa831c66d) == v2;
    var v3 := Moved(v2, 0xb62ec4bc, 0xc74c6516);
    assert Round(v2, 0xe5bc3909, 0xb00327c8) == v3;
    var v4 := Moved(v3, 0x77d37528, 0xedffbff8);
    assert Round(v3, 0x32663c5b, 0xbf597fc7) == v4;
    var v5 := Moved(v4, 0x363482c9, 0x6112a3b7);
    assert Round(v4, 0x9d209d67, 0xc6e00bf3) == v5;
    var v6 := Moved(v5, 0xa0060b30, 0xade79437);
    assert Round(v5, 0xec8726cb, 0xd5a79147) == v6;
    var v7 := Moved(v6, 0xea992a22, 0x0109ab3a);
    assert Round(v6, 0x702138a4, 0x06ca6351) == v7;
  }

  lemma Steps4()
    ensures Eight(Variables(4), Schedule(4), ConstantRow(4)) == Variables(5)
  {
    var v0 := Variables(4);
    var v1 := Moved(v0, 0x98e12507, 0x9cd9f5f6);
    assert Round(v0, 0x93f5997f, 0x27b70a85) == v1;
    var v2 := Moved(v1, 0xfe604df5, 0x59249dd3);
    assert Round(v1, 0x3b68ba73, 0x2e1b2138) == v2;
    var v3 := Moved(v2, 0xa9a7738c, 0x085f3833);
    assert Round(v2, 0xaff4ffc1, 0x4d2c6dfc) == v3;
    var v4 := Moved(v3, 0x65a0cfe4, 0xf4b002d6);
    assert Round(v3, 0xf10a5c62, 0x53380d13) == v4;
    var v5 := Moved(v4, 0x41a65cb1, 0x0772a26b);
    assert Round(v4, 0x0a8b3996, 0x650a7354) == v5;
    var v6 := Moved(v5, 0x34df1604, 0xa507a53d);
    assert Round(v5, 0x72af830a, 0x766a0abb) == v6;
    var v7 := Moved(v6, 0x6dc57a8a, 0xf0781bc8);
    assert Round(v6, 0x9409e33e, 0x81c2c92e) == v7;
  }

  lemma Steps5()
    ensures Eight(Variables(5), Schedule(5), ConstantRow(5)) == Variables(6)
  {
    var v0 := Variables(5);
    var v1 := Moved(v0, 0xd6670766, 0x26352d63);
    assert Round(v0, 0x9f47bf94, 0xa2bfe8a1) == v1;
    var v2 := Moved(v1, 0xdf46652f, 0x838b2711);
    assert Round(v1, 0xf0a64f5a, 0xa81a664b) == v2;
    var v3 := Moved(v2, 0x17aa0dfe, 0xdecd4715);
    assert Round(v2, 0x3e246a79, 0xc24b8b70) == v3;
    var v4 := Moved(v3, 0x9d4baf93, 0xfda24c2e);
    assert Round(v3, 0x27333ba3, 0xc76c51a3) == v4;
    var v5 := Moved(v4, 0x26628815, 0xa80f11f0);
    assert Round(v4, 0x0c4763f2, 0xd192e819) == v5;
    var v6 := Moved(v5, 0x72ab4b91, 0xb7755da1);
    assert Round(v5, 0x840abf27, 0xd6990624) == v6;
    var v7 := Moved(v6, 0xa14c14b0, 0xd57b94a9);
    assert Round(v6, 0x7a290d5d, 0xf40e3585) == v7;
  }

  lemma Steps6()
    ensures Eight(Variables(6), Schedule(6), ConstantRow(6)) == Variables(7)
  {
    var v0 := Variables(6);
    var v1 := Moved(v0, 0x05757ceb, 0xbd714038);
    assert Round(v0, 0xfb3e89cb, 0x19a4c116) == v1;
    var v2 := Moved(v1, 0xf11bfaa8, 0x6e5c390c);
    assert Round(v1, 0xcc7617db, 0x1e376c08) == v2;
    var v3 := Moved(v2, 0x7a0508a1, 0x52f1ccf7);
    assert Round(v2, 0xb9e66c34, 0x2748774c) == v3;
    var v4 := Moved(v3, 0x886e7a22, 0x49231c1e);
    assert Round(v3, 0xa9993667, 0x34b0bcb5) == v4;
    var v5 := Moved(v4, 0x101fd28f, 0x529e7d00);
    assert Round(v4, 0x84badedd, 0x391c0cb3) == v5;
    var v6 := Moved(v5, 0xf5702fdb, 0x9f4787c3);
    assert Round(v5, 0xc21462bc, 0x4ed8aa4a) == v6;
    var v7 := Moved(v6, 0x3ec45cdb, 0xe50e1b4f);
    assert Round(v6, 0x1487472c, 0x5b9cca4f) == v7;
  }

  lemma Steps7()
    ensures Eight(Variables(7), Schedule(7), ConstantRow(7)) == Variables(8)
  {
    var v0 := Variables(7);
    var v1 := Moved(v0, 0xfcd1887b, 0x9b5e906c);
    assert Round(v0, 0xef57b9cd, 0x748f82ee) == v1;
    var v2 := Moved(v1, 0xc062d46f, 0x7e44008e);
    assert Round(v1, 0xebe6b238, 0x78a5636f) == v2;
    var v3 := Moved(v2, 0xffb70472, 0x6d83bfc6);
    assert Round(v2, 0x9fe3095e, 0x84c87814) == v3;
    var v4 := Moved(v3, 0xb6ae8fff, 0xb21bad3d);
    assert Round(v3, 0x78bc8d4b, 0x8cc70208) == v4;
    var v5 := Moved(v4, 0xb85e2ce9, 0x961f4894);
    assert Round(v4, 0xa43fcf15, 0x90befffa) == v5;
    var v6 := Moved(v5, 0x04d24d6c, 0x948d25b6);
    assert Round(v5, 0x668b2ff8, 0xa4506ceb) == v6;
    var v7 := Moved(v6, 0xd39a2165, 0xfb121210);
    assert Round(v6, 0xeeaba2cc, 0xbef9a3f7) == v7;
  }

  lemma EightMore(row: nat, v: Hash)
    requires row < 8 && RowIs(row)
    requires v == Rounds(InitialHash(), Abc(), 8 * row)
    ensures Rounds(InitialHash(), Abc(), 8 * row + 8) == Eight(v, Schedule(row), ConstantRow(row))
  {
    hide W, K, Abc, Schedule, ConstantRow, Eight, Rounds, InitialHash;
    forall i: nat | i < 8
      ensures Schedule(row)[i] == W(Abc(), 8 * row + i)
    {
      assert WordAt(row, i) == Schedule(row)[i];
    }
    ConstantRowAt(row);
    EightAreRounds(InitialHash(), Abc(), 8 * row, Schedule(row), ConstantRow(row));
  }

  lemma AllSteps()
    ensures Rounds(InitialHash(), Abc(), 64) == Variables(8)
  {
    hide Round, W, K, Abc, Schedule, ConstantRow, Eight, InitialHash, Variables, RowIs;
    FirstWords();
    ScheduleRow2();
    ScheduleRow3();
    ScheduleRow4();
    ScheduleRow5();
    ScheduleRow6();
    ScheduleRow7();
    assert Rounds(InitialHash(), Abc(), 0) == InitialHash();
    EightMore(0, InitialHash());
    Steps0();
    EightMore(1, Variables(1));
    Steps1();
    EightMore(2, Variables(2));
    Steps2();
    EightMore(3, Variables(3));
    Steps3();
    EightMore(4, Variables(4));
    Steps4();
    EightMore(5, Variables(5));
    Steps5();
    EightMore(6, Variables(6));
    Steps6();
    EightMore(7, Variables(7));
    Steps7();
  }

  lemma {:induction false} BigEndianZero(k: nat)
    ensures BigEndian(0, k) == ZeroBytes(k)
  {
    if k > 0 {
      BigEndianZero(k - 1);
    }
  }

  lemma LengthBytes()
    ensures BigEndian(24, 8) == ZeroBytes(7) + [24]
  {
    BigEndianZero(7);
    assert BigEndian(24, 8) == BigEndian(24 / 256, 7) + [24];
  }

  lemma PaddedAbc()
    ensures Padded([0x61, 0x62, 0x63]) == Abc()
  {
    hide BigEndian;
    LengthBytes();
    assert PaddingZeros(3) == 52;
    assert ZeroBytes(52) + (ZeroBytes(7) + [24]) == ZeroBytes(59) + [24];
  }

  lemma CompressAbc()
    ensures Compress(InitialHash(), Abc())
      == Hash(0xba7816bf, 0x8f01cfea, 0x414140de, 0x5dae2223, 0xb00361a3,
           0x96177a9c, 0xb410ff61, 0xf20015ad)
  {
    hide Rounds;
    AllSteps();
  }

  /** The words of the digest of "abc" are those that NIST publishes. */
  lemma DigestOfAbc()
    ensures Digest([0x61, 0x62, 0x63])
      == HashBytes(Hash(0xba7816bf, 0x8f01cfea, 0x414140de, 0x5dae2223, 0xb00361a3,
           0x96177a9c, 0xb410ff61, 0xf20015ad))
  {
    hide Compress, Padded, InitialHash, HashBytes;
    PaddedAbc();
    CompressAbc();
    var block := Abc();
    assert block[..64] == block && block[64..] == [];
  }
}
