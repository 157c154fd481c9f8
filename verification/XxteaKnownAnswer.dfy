/**
 One encryption traced round by round: the id 1, packed as the words 1 and 0,
 under a key whose words are not all the same.
 */
module XxteaKnownAnswer {
  import opened Bits
  import opened Xxtea
  import opened BitVectors

  const KEY: seq<word> := [1, 0, 0, 0]

  function KeyWord(index: bv32): bv32 {
    if index == 0 then 1 else 0
  }

  function Mixture(sum: bv32, x: bv32, p: bv32): bv32 {
    MxWord(sum, x, x, KeyWord(KeyPlace(p, sum)))
  }

  /** The round sum and the two words after r rounds, as machine words. */
  ghost predicate After(r: nat, sum: bv32, v0: bv32, v1: bv32) {
    var v := EncryptRounds([1, 0], r, KEY);
    Bv(RoundSum(r)) == sum && Bv(v[0]) == v0 && Bv(v[1]) == v1
  }

  lemma KeyWordAt(i: nat)
    requires i < 4
    ensures Bv(KEY[i]) == KeyWord(Bv(i))
  {
    SmallBv();
    hide Bv;
  }

  /** Two words: each absorbs a mixture of the other. */
  lemma TwoWordRound(v: seq<word>, sum: word)
    requires |v| == 2
    ensures var a := Add32(v[0], Mx(sum, v[1], v[1], 0, (sum / 4) % 4, KEY));
            Forward(v, 2, sum, KEY) == [a, Add32(v[1], Mx(sum, a, a, 1, (sum / 4) % 4, KEY))]
  {
    hide Mx, Add32;
    var e := (sum / 4) % 4;
    var a := Add32(v[0], Mx(sum, v[1], v[1], 0, e, KEY));
    assert Forward(v, 0, sum, KEY) == v;
    assert Forward(v, 1, sum, KEY) == v[0 := a] == [a, v[1]];
  }

  lemma AbsorbIs(v: word, sum: word, x: word, p: nat)
    ensures Bv(Add32(v, Mx(sum, x, x, p, (sum / 4) % 4, KEY))) == Plus(Bv(v), Mixture(Bv(sum), Bv(x), Bv(p)))
  {
    hide Bv, Plus, MxWord, KeyPlace, KeyWord, Mx, Add32;
    var i := KeyPlaceExists(sum, p);
    KeyWordAt(i);
    MxOnWords(sum, x, x, p, KEY, i);
    BvAdd32(v, Mx(sum, x, x, p, (sum / 4) % 4, KEY));
  }

  lemma QuarterParts(high: nat, low: nat)
    ensures Bv(0x100 * high + low) == Plus(Times256(Bv(high)), Bv(low))
  {
    hide Bv, Plus, Times256;
    Bv256(high);
    BvSum(0x100 * high, low);
  }

  lemma Half9E37()
    ensures Bv(0x9E37) == 0x9E37
  {
    assert Bv(0x9E) == 0x9E && Bv(0x37) == 0x37;
    hide Bv;
    QuarterParts(0x9E, 0x37);
  }

  lemma Half79B9()
    ensures Bv(0x79B9) == 0x79B9
  {
    assert Bv(0x79) == 0x79 && Bv(0xB9) == 0xB9;
    hide Bv;
    QuarterParts(0x79, 0xB9);
  }

  lemma Half4D67()
    ensures Bv(0x4D67) == 0x4D67
  {
    assert Bv(0x4D) == 0x4D && Bv(0x67) == 0x67;
    hide Bv;
    QuarterParts(0x4D, 0x67);
  }

  lemma Half3C1C()
    ensures Bv(0x3C1C) == 0x3C1C
  {
    assert Bv(0x3C) == 0x3C && Bv(0x1C) == 0x1C;
    hide Bv;
    QuarterParts(0x3C, 0x1C);
  }

  lemma Half074F()
    ensures Bv(0x074F) == 0x074F
  {
    assert Bv(0x7) == 0x7 && Bv(0x4F) == 0x4F;
    hide Bv;
    QuarterParts(0x7, 0x4F);
  }

  lemma Half4D5C()
    ensures Bv(0x4D5C) == 0x4D5C
  {
    assert Bv(0x4D) == 0x4D && Bv(0x5C) == 0x5C;
    hide Bv;
    QuarterParts(0x4D, 0x5C);
  }

  /** A number written as two 16-bit halves. */
  lemma Halves(high: nat, low: nat)
    ensures Bv(0x1_0000 * high + low) == Plus(Times65536(Bv(high)), Bv(low))
  {
    hide Bv, Plus, Times65536;
    Bv65536(high);
    BvSum(0x1_0000 * high, low);
  }

  lemma DeltaWord()
    ensures Bv(DELTA) == 0x9E37_79B9
  {
    hide Bv;
    Half9E37();
    Half79B9();
    Halves(0x9E37, 0x79B9);
  }

  lemma CipherWords()
    ensures Bv(0x4D67_3C1C) == 0x4D67_3C1C && Bv(0x074F_4D5C) == 0x074F_4D5C
  {
    hide Bv;
    Half4D67();
    Half3C1C();
    Halves(0x4D67, 0x3C1C);
    Half074F();
    Half4D5C();
    Halves(0x074F, 0x4D5C);
  }

  lemma SumIs(r: nat)
    ensures Bv(RoundSum(r + 1)) == Plus(Bv(RoundSum(r)), 0x9E37_79B9)
  {
    DeltaWord();
    hide Bv, Plus;
    RoundSumNext(r);
    BvAdd32(RoundSum(r), DELTA);
  }

  lemma NextRound(r: nat, sum: bv32, v0: bv32, v1: bv32, sum': bv32, v0': bv32, v1': bv32)
    requires After(r, sum, v0, v1) && sum' == Plus(sum, 0x9E37_79B9)
    requires v0' == Plus(v0, Mixture(sum', v1, 0)) && v1' == Plus(v1, Mixture(sum', v0', 1))
    ensures After(r + 1, sum', v0', v1')
  {
    SmallBv();
    hide Bv, Plus, Mixture, Add32, Mx, RoundSum, Forward;
    var v, s := EncryptRounds([1, 0], r, KEY), RoundSum(r + 1);
    SumIs(r);
    TwoWordRound(v, s);
    var a := Add32(v[0], Mx(s, v[1], v[1], 0, (s / 4) % 4, KEY));
    AbsorbIs(v[0], s, v[1], 0);
    AbsorbIs(v[1], s, a, 1);
  }

  lemma Rounds1To4()
    requires After(0, 0x0, 0x1, 0x0)
    ensures After(4, 0x78DD_E6E4, 0x718E_D2F7, 0x1319_09E4)
  {
    hide After;
    NextRound(0, 0x0, 0x1, 0x0, 0x9E37_79B9, 0x9E37_79BA, 0xF2EA_A801);
    NextRound(1, 0x9E37_79B9, 0x9E37_79BA, 0xF2EA_A801, 0x3C6E_F372, 0xDA92_42E1, 0xD187_B3AC);
    NextRound(2, 0x3C6E_F372, 0xDA92_42E1, 0xD187_B3AC, 0xDAA6_6D2B, 0x7909_70B2, 0x6CA2_D474);
    NextRound(3, 0xDAA6_6D2B, 0x7909_70B2, 0x6CA2_D474, 0x78DD_E6E4, 0x718E_D2F7, 0x1319_09E4);
  }

  lemma Rounds5To8()
    requires After(4, 0x78DD_E6E4, 0x718E_D2F7, 0x1319_09E4)
    ensures After(8, 0xF1BB_CDC8, 0xEF60_B8F5, 0x05B5_FCF4)
  {
    hide After;
    NextRound(4, 0x78DD_E6E4, 0x718E_D2F7, 0x1319_09E4, 0x1715_609D, 0x0964_AEFD, 0xADAF_6FB3);
    NextRound(5, 0x1715_609D, 0x0964_AEFD, 0xADAF_6FB3, 0xB54C_DA56, 0x4EE5_A8EC, 0x1998_4126);
    NextRound(6, 0xB54C_DA56, 0x4EE5_A8EC, 0x1998_4126, 0x5384_540F, 0xB1B6_5F86, 0x5CD8_ACA1);
    NextRound(7, 0x5384_540F, 0xB1B6_5F86, 0x5CD8_ACA1, 0xF1BB_CDC8, 0xEF60_B8F5, 0x05B5_FCF4);
  }

  lemma Rounds9To12()
    requires After(8, 0xF1BB_CDC8, 0xEF60_B8F5, 0x05B5_FCF4)
    ensures After(12, 0x6A99_B4AC, 0xF937_1FD9, 0x3444_9C79)
  {
    hide After;
    NextRound(8, 0xF1BB_CDC8, 0xEF60_B8F5, 0x05B5_FCF4, 0x8FF3_4781, 0xEC80_2E74, 0xCABA_004C);
    NextRound(9, 0x8FF3_4781, 0xEC80_2E74, 0xCABA_004C, 0x2E2A_C13A, 0x5D80_02AD, 0x6470_F3AE);
    NextRound(10, 0x2E2A_C13A, 0x5D80_02AD, 0x6470_F3AE, 0xCC62_3AF3, 0x3062_D363, 0x50BB_6F2E);
    NextRound(11, 0xCC62_3AF3, 0x3062_D363, 0x50BB_6F2E, 0x6A99_B4AC, 0xF937_1FD9, 0x3444_9C79);
  }

  lemma Rounds13To16()
    requires After(12, 0x6A99_B4AC, 0xF937_1FD9, 0x3444_9C79)
    ensures After(16, 0xE377_9B90, 0xF9D5_153C, 0xBB0A_EC79)
  {
    hide After;
    NextRound(12, 0x6A99_B4AC, 0xF937_1FD9, 0x3444_9C79, 0x08D1_2E65, 0x5CE3_078C, 0xBA46_CBC4);
    NextRound(13, 0x08D1_2E65, 0x5CE3_078C, 0xBA46_CBC4, 0xA708_A81E, 0xA55B_58A4, 0x3110_9CBB);
    NextRound(14, 0xA708_A81E, 0xA55B_58A4, 0x3110_9CBB, 0x4540_21D7, 0x1EF2_ECBB, 0x4399_9E51);
    NextRound(15, 0x4540_21D7, 0x1EF2_ECBB, 0x4399_9E51, 0xE377_9B90, 0xF9D5_153C, 0xBB0A_EC79);
  }

  lemma Rounds17To20()
    requires After(16, 0xE377_9B90, 0xF9D5_153C, 0xBB0A_EC79)
    ensures After(20, 0x5C55_8274, 0x3E1C_ED4C, 0xEADC_F145)
  {
    hide After;
    NextRound(16, 0xE377_9B90, 0xF9D5_153C, 0xBB0A_EC79, 0x81AF_1549, 0x5E48_7A4B, 0x1018_AC33);
    NextRound(17, 0x81AF_1549, 0x5E48_7A4B, 0x1018_AC33, 0x1FE6_8F02, 0xC2C2_FD4B, 0xEE8A_AE7E);
    NextRound(18, 0x1FE6_8F02, 0xC2C2_FD4B, 0xEE8A_AE7E, 0xBE1E_08BB, 0x5088_C944, 0x6AE6_29FF);
    NextRound(19, 0xBE1E_08BB, 0x5088_C944, 0x6AE6_29FF, 0x5C55_8274, 0x3E1C_ED4C, 0xEADC_F145);
  }

  lemma Rounds21To24()
    requires After(20, 0x5C55_8274, 0x3E1C_ED4C, 0xEADC_F145)
    ensures After(24, 0xD533_6958, 0x77ED_77EB, 0xD07C_D78E)
  {
    hide After;
    NextRound(20, 0x5C55_8274, 0x3E1C_ED4C, 0xEADC_F145, 0xFA8C_FC2D, 0xE5B2_4107, 0xC863_019A);
    NextRound(21, 0xFA8C_FC2D, 0xE5B2_4107, 0xC863_019A, 0x98C4_75E6, 0xC3B4_22E8, 0xFB88_ADFD);
    NextRound(22, 0x98C4_75E6, 0xC3B4_22E8, 0xFB88_ADFD, 0x36FB_EF9F, 0x1CB5_703D, 0x797E_C490);
    NextRound(23, 0x36FB_EF9F, 0x1CB5_703D, 0x797E_C490, 0xD533_6958, 0x77ED_77EB, 0xD07C_D78E);
  }

  lemma Rounds25To28()
    requires After(24, 0xD533_6958, 0x77ED_77EB, 0xD07C_D78E)
    ensures After(28, 0x4E11_503C, 0x210F_6DD7, 0x8CE5_661B)
  {
    hide After;
    NextRound(24, 0xD533_6958, 0x77ED_77EB, 0xD07C_D78E, 0x736A_E311, 0x8E8E_0EA6, 0x8B8C_628A);
    NextRound(25, 0x736A_E311, 0x8E8E_0EA6, 0x8B8C_628A, 0x11A2_5CCA, 0x802D_3D8D, 0x91BC_E477);
    NextRound(26, 0x11A2_5CCA, 0x802D_3D8D, 0x91BC_E477, 0xAFD9_D683, 0x1C87_8324, 0x82C4_0EDD);
    NextRound(27, 0xAFD9_D683, 0x1C87_8324, 0x82C4_0EDD, 0x4E11_503C, 0x210F_6DD7, 0x8CE5_661B);
  }

  lemma Rounds29To32()
    requires After(28, 0x4E11_503C, 0x210F_6DD7, 0x8CE5_661B)
    ensures After(32, 0xC6EF_3720, 0x4D67_3C1C, 0x074F_4D5C)
  {
    hide After;
    NextRound(28, 0x4E11_503C, 0x210F_6DD7, 0x8CE5_661B, 0xEC48_C9F5, 0x1B3E_049D, 0x9B03_1FB2);
    NextRound(29, 0xEC48_C9F5, 0x1B3E_049D, 0x9B03_1FB2, 0x8A80_43AE, 0xBBE1_8962, 0x1A01_A493);
    NextRound(30, 0x8A80_43AE, 0xBBE1_8962, 0x1A01_A493, 0x28B7_BD67, 0xFC68_2CEF, 0x3815_A4D1);
    NextRound(31, 0x28B7_BD67, 0xFC68_2CEF, 0x3815_A4D1, 0xC6EF_3720, 0x4D67_3C1C, 0x074F_4D5C);
  }

  lemma AtStart()
    ensures After(0, 0, 1, 0)
  {
    SmallBv();
    RoundSumNext(0);
  }

  /** The ciphertext of the words 1 and 0 under the key 1, 0, 0, 0. */
  lemma KnownAnswer()
    ensures Encrypted([1, 0], [1]) == [0x4D67_3C1C, 0x074F_4D5C]
  {
    hide After;
    AtStart();
    Rounds1To4();
    Rounds5To8();
    Rounds9To12();
    Rounds13To16();
    Rounds17To20();
    Rounds21To24();
    Rounds25To28();
    Rounds29To32();
    CipherWords();
    KeyPadded();
    Concluded();
  }

  lemma KeyPadded()
    ensures FixKey([1]) == KEY
  {
    var k: seq<word> := [1];
    var z: seq<word> := [0];
    assert k + z == [1, 0] && k + z + z == [1, 0, 0] && k + z + z + z == KEY;
    assert FixKey(KEY) == KEY;
    assert FixKey(k) == FixKey(k + z) == FixKey(k + z + z) == FixKey(k + z + z + z);
  }

  lemma Concluded()
    requires After(32, 0xC6EF_3720, 0x4D67_3C1C, 0x074F_4D5C) && FixKey([1]) == KEY
    requires Bv(0x4D67_3C1C) == 0x4D67_3C1C && Bv(0x074F_4D5C) == 0x074F_4D5C
    ensures Encrypted([1, 0], [1]) == [0x4D67_3C1C, 0x074F_4D5C]
  {
    hide Bv, EncryptRounds, RoundSum;
    var v := EncryptRounds([1, 0], 32, KEY);
    BvInjective(v[0], 0x4D67_3C1C);
    BvInjective(v[1], 0x074F_4D5C);
    assert v == [0x4D67_3C1C, 0x074F_4D5C];
  }
}
