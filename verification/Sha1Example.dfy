/** SHA-1 on the first example of FIPS 180-3, the message "abc", step by step; and what its functions mean, bit by
    bit. */
module Sha1Example {
  import opened Sha1

  // ------------------------------------------------------------ the functions

  /** Where the bits of `x` are set Ch is `y`, elsewhere `z`. */
  lemma Chooses(x: bv32, y: bv32, z: bv32)
    ensures Ch(x, y, z) & x == y & x && Ch(x, y, z) & !x == z & !x
  {}

  /** A bit of Maj is set where it is set in at least two of the three. */
  lemma Majority(x: bv32, y: bv32, z: bv32)
    ensures Maj(x, y, z) == (x & y) | (z & (x | y))
  {}

  /** Six rotations by five places are one by thirty, and two more places complete the circle. */
  lemma Rotates(x: bv32)
    ensures Rotl30(Rotl1(Rotl1(x))) == x && Rotl30(x) == Rotl5(Rotl5(Rotl5(Rotl5(Rotl5(Rotl5(x))))))
  {}

  // ------------------------------------------------------------ the message "abc"

  const ABC: seq<bv8> := [0x61, 0x62, 0x63]

  const BLOCK: seq<bv8> := ABC + [0x80] + Repeat(0, 59) + [0x18]

  lemma PaddedAbc()
    ensures |BLOCK| == 64 && Padded(ABC) == BLOCK
  {
    assert Zeros(3) == 52;
    assert Bytes4(0) == [0, 0, 0, 0] && Bytes4(24) == [0, 0, 0, 24];
    var r := Padded(ABC);
    assert r == ABC + [0x80] + Repeat(0, 52) + ([0, 0, 0, 0] + [0, 0, 0, 24]);
  }

  function Word(t: nat): bv32 { W(BLOCK, t) }

  function After(t: nat): Words { Steps(INITIAL, BLOCK, t) }

  lemma Words0()
    ensures Word(0) == 0x61626380 && Word(1) == 0x00000000 && Word(2) == 0x00000000 && Word(3) == 0x00000000
    ensures Word(4) == 0x00000000 && Word(5) == 0x00000000 && Word(6) == 0x00000000 && Word(7) == 0x00000000
    ensures Word(8) == 0x00000000 && Word(9) == 0x00000000 && Word(10) == 0x00000000 && Word(11) == 0x00000000
    ensures Word(12) == 0x00000000 && Word(13) == 0x00000000 && Word(14) == 0x00000000 && Word(15) == 0x00000018
  {
    hide Mix;
    forall t: nat | t < 16
      ensures Word(t) == BigEndian(BLOCK[4 * t], BLOCK[4 * t + 1], BLOCK[4 * t + 2], BLOCK[4 * t + 3])
    {}
  }

  lemma NextWord(t: nat)
    requires t >= 16
    ensures Word(t) == Mix(Word(t - 3), Word(t - 8), Word(t - 14), Word(t - 16))
  {}

  lemma Words1()
    ensures Word(16) == 0xc2c4c700 && Word(17) == 0x00000000 && Word(18) == 0x00000030 && Word(19) == 0x85898e01
    ensures Word(20) == 0x00000000 && Word(21) == 0x00000060 && Word(22) == 0x0b131c03 && Word(23) == 0x00000030
    ensures Word(24) == 0x85898ec1 && Word(25) == 0x16263806 && Word(26) == 0x00000000 && Word(27) == 0x00000180
    ensures Word(28) == 0x2c4c700c && Word(29) == 0x000000f0 && Word(30) == 0x93afb507 && Word(31) == 0x5898e048
  {
    hide Word;
    Words0();
    NextWord(16);
    NextWord(17);
    NextWord(18);
    NextWord(19);
    NextWord(20);
    NextWord(21);
    NextWord(22);
    NextWord(23);
    NextWord(24);
    NextWord(25);
    NextWord(26);
    NextWord(27);
    NextWord(28);
    NextWord(29);
    NextWord(30);
    NextWord(31);
  }

  lemma Words2()
    ensures Word(32) == 0x8e9a9202 && Word(33) == 0x00000600 && Word(34) == 0xb131c0f0 && Word(35) == 0x16263bc6
    ensures Word(36) == 0x4ebed41e && Word(37) == 0x626380a1 && Word(38) == 0x16263806 && Word(39) == 0x000018c0
    ensures Word(40) == 0xd2e138c4 && Word(41) == 0x00000f00 && Word(42) == 0x3afb5079 && Word(43) == 0x898e04e5
    ensures Word(44) == 0xe2ba3c2b && Word(45) == 0x000060c0 && Word(46) == 0x053a37cd && Word(47) == 0x74458547
  {
    hide Word;
    Words1();
    NextWord(32);
    NextWord(33);
    NextWord(34);
    NextWord(35);
    NextWord(36);
    NextWord(37);
    NextWord(38);
    NextWord(39);
    NextWord(40);
    NextWord(41);
    NextWord(42);
    NextWord(43);
    NextWord(44);
    NextWord(45);
    NextWord(46);
    NextWord(47);
  }

  lemma Words3()
    ensures Word(48) == 0xda9415ed && Word(49) == 0x26380a16 && Word(50) == 0x626383a1 && Word(51) == 0x4ebf54de
    ensures Word(52) == 0x3835b44b && Word(53) == 0x0000f600 && Word(54) == 0x1e84c7a3 && Word(55) == 0x98e04d98
    ensures Word(56) == 0x651d16a0 && Word(57) == 0x62658ca1 && Word(58) == 0x458544d6 && Word(59) == 0x44584cb7
    ensures Word(60) == 0x7ba06619 && Word(61) == 0x6380aea2 && Word(62) == 0x0ae55269 && Word(63) == 0x627b49a1
  {
    hide Word;
    Words2();
    NextWord(48);
    NextWord(49);
    NextWord(50);
    NextWord(51);
    NextWord(52);
    NextWord(53);
    NextWord(54);
    NextWord(55);
    NextWord(56);
    NextWord(57);
    NextWord(58);
    NextWord(59);
    NextWord(60);
    NextWord(61);
    NextWord(62);
    NextWord(63);
  }

  lemma Words4()
    ensures Word(64) == 0x7cd45c9d && Word(65) == 0x000f0000 && Word(66) == 0xfb50753a && Word(67) == 0xec6765e8
    ensures Word(68) == 0xba3c2be2 && Word(69) == 0x0060c000 && Word(70) == 0x3a37cd05 && Word(71) == 0x458546f4
    ensures Word(72) == 0xb8599dd6 && Word(73) == 0x380a1a26 && Word(74) == 0x01e02203 && Word(75) == 0xe7cc3456
    ensures Word(76) == 0xe6e60b69 && Word(77) == 0x00f60a00 && Word(78) == 0x5795ef4f && Word(79) == 0x822e0879
  {
    hide Word;
    Words3();
    NextWord(64);
    NextWord(65);
    NextWord(66);
    NextWord(67);
    NextWord(68);
    NextWord(69);
    NextWord(70);
    NextWord(71);
    NextWord(72);
    NextWord(73);
    NextWord(74);
    NextWord(75);
    NextWord(76);
    NextWord(77);
    NextWord(78);
    NextWord(79);
  }

  lemma NextStep(t: nat)
    requires t < 80
    ensures var p := After(t); After(t + 1) == Step(p, F(t, p.b, p.c, p.d), Word(t), K(t))
  {}

  lemma Begin()
    ensures After(0) == INITIAL
  {}

  lemma Steps0()
    ensures After(8) == Words(0x9e8c07d4, 0x993e30c1, 0x0ff1f290, 0xb3f52677, 0xf3763846)
  {
    hide Word, After;
    Words0();
    Begin();
    NextStep(0);
    assert After(1) == Words(0x0116fc33, 0x67452301, 0x7bf36ae2, 0x98badcfe, 0x10325476);
    NextStep(1);
    assert After(2) == Words(0x8990536d, 0x0116fc33, 0x59d148c0, 0x7bf36ae2, 0x98badcfe);
    NextStep(2);
    assert After(3) == Words(0xa1390f08, 0x8990536d, 0xc045bf0c, 0x59d148c0, 0x7bf36ae2);
    NextStep(3);
    assert After(4) == Words(0xcdd8e11b, 0xa1390f08, 0x626414db, 0xc045bf0c, 0x59d148c0);
    NextStep(4);
    assert After(5) == Words(0xcfd499de, 0xcdd8e11b, 0x284e43c2, 0x626414db, 0xc045bf0c);
    NextStep(5);
    assert After(6) == Words(0x3fc7ca40, 0xcfd499de, 0xf3763846, 0x284e43c2, 0x626414db);
    NextStep(6);
    assert After(7) == Words(0x993e30c1, 0x3fc7ca40, 0xb3f52677, 0xf3763846, 0x284e43c2);
    NextStep(7);
    assert After(8) == Words(0x9e8c07d4, 0x993e30c1, 0x0ff1f290, 0xb3f52677, 0xf3763846);
  }

  lemma Steps1()
    ensures After(16) == Words(0x20bdd62f, 0x196bee77, 0x644a3da5, 0x1181ed99, 0x18c623f9)
  {
    hide Word, After;
    Words0();
    Steps0();
    NextStep(8);
    assert After(9) == Words(0x4b6ae328, 0x9e8c07d4, 0x664f8c30, 0x0ff1f290, 0xb3f52677);
    NextStep(9);
    assert After(10) == Words(0x8351f929, 0x4b6ae328, 0x27a301f5, 0x664f8c30, 0x0ff1f290);
    NextStep(10);
    assert After(11) == Words(0xfbda9e89, 0x8351f929, 0x12dab8ca, 0x27a301f5, 0x664f8c30);
    NextStep(11);
    assert After(12) == Words(0x63188fe4, 0xfbda9e89, 0x60d47e4a, 0x12dab8ca, 0x27a301f5);
    NextStep(12);
    assert After(13) == Words(0x4607b664, 0x63188fe4, 0x7ef6a7a2, 0x60d47e4a, 0x12dab8ca);
    NextStep(13);
    assert After(14) == Words(0x9128f695, 0x4607b664, 0x18c623f9, 0x7ef6a7a2, 0x60d47e4a);
    NextStep(14);
    assert After(15) == Words(0x196bee77, 0x9128f695, 0x1181ed99, 0x18c623f9, 0x7ef6a7a2);
    NextStep(15);
    assert After(16) == Words(0x20bdd62f, 0x196bee77, 0x644a3da5, 0x1181ed99, 0x18c623f9);
  }

  lemma Steps2()
    ensures After(24) == Words(0xd541f12d, 0x21283486, 0x0ce88eff, 0x868dec32, 0x7f67875f)
  {
    hide Word, After;
    Words1();
    Steps1();
    NextStep(16);
    assert After(17) == Words(0x4e925823, 0x20bdd62f, 0xc65afb9d, 0x644a3da5, 0x1181ed99);
    NextStep(17);
    assert After(18) == Words(0x82aa6728, 0x4e925823, 0xc82f758b, 0xc65afb9d, 0x644a3da5);
    NextStep(18);
    assert After(19) == Words(0xdc64901d, 0x82aa6728, 0xd3a49608, 0xc82f758b, 0xc65afb9d);
    NextStep(19);
    assert After(20) == Words(0xfd9e1d7d, 0xdc64901d, 0x20aa99ca, 0xd3a49608, 0xc82f758b);
    NextStep(20);
    assert After(21) == Words(0x1a37b0ca, 0xfd9e1d7d, 0x77192407, 0x20aa99ca, 0xd3a49608);
    NextStep(21);
    assert After(22) == Words(0x33a23bfc, 0x1a37b0ca, 0x7f67875f, 0x77192407, 0x20aa99ca);
    NextStep(22);
    assert After(23) == Words(0x21283486, 0x33a23bfc, 0x868dec32, 0x7f67875f, 0x77192407);
    NextStep(23);
    assert After(24) == Words(0xd541f12d, 0x21283486, 0x0ce88eff, 0x868dec32, 0x7f67875f);
  }

  lemma Steps3()
    ensures After(32) == Words(0x3b845d33, 0x1267b407, 0x717eebd7, 0xa0dc2d4b, 0xd2aa1365)
  {
    hide Word, After;
    Words1();
    Steps2();
    NextStep(24);
    assert After(25) == Words(0xc7567dc6, 0xd541f12d, 0x884a0d21, 0x0ce88eff, 0x868dec32);
    NextStep(25);
    assert After(26) == Words(0x48413ba4, 0xc7567dc6, 0x75507c4b, 0x884a0d21, 0x0ce88eff);
    NextStep(26);
    assert After(27) == Words(0xbe35fbd5, 0x48413ba4, 0xb1d59f71, 0x75507c4b, 0x884a0d21);
    NextStep(27);
    assert After(28) == Words(0x4aa84d97, 0xbe35fbd5, 0x12104ee9, 0xb1d59f71, 0x75507c4b);
    NextStep(28);
    assert After(29) == Words(0x8370b52e, 0x4aa84d97, 0x6f8d7ef5, 0x12104ee9, 0xb1d59f71);
    NextStep(29);
    assert After(30) == Words(0xc5fbaf5d, 0x8370b52e, 0xd2aa1365, 0x6f8d7ef5, 0x12104ee9);
    NextStep(30);
    assert After(31) == Words(0x1267b407, 0xc5fbaf5d, 0xa0dc2d4b, 0xd2aa1365, 0x6f8d7ef5);
    NextStep(31);
    assert After(32) == Words(0x3b845d33, 0x1267b407, 0x717eebd7, 0xa0dc2d4b, 0xd2aa1365);
  }

  lemma Steps4()
    ensures After(40) == Words(0x32de1cba, 0x4c986405, 0xf718e5cf, 0x03d447f6, 0xf72eec32)
  {
    hide Word, After;
    Words2();
    Steps3();
    NextStep(32);
    assert After(33) == Words(0x046faa0a, 0x3b845d33, 0xc499ed01, 0x717eebd7, 0xa0dc2d4b);
    NextStep(33);
    assert After(34) == Words(0x2c0ebc11, 0x046faa0a, 0xcee1174c, 0xc499ed01, 0x717eebd7);
    NextStep(34);
    assert After(35) == Words(0x21796ad4, 0x2c0ebc11, 0x811bea82, 0xcee1174c, 0xc499ed01);
    NextStep(35);
    assert After(36) == Words(0xdcbbb0cb, 0x21796ad4, 0x4b03af04, 0x811bea82, 0xcee1174c);
    NextStep(36);
    assert After(37) == Words(0x0f511fd8, 0xdcbbb0cb, 0x085e5ab5, 0x4b03af04, 0x811bea82);
    NextStep(37);
    assert After(38) == Words(0xdc63973f, 0x0f511fd8, 0xf72eec32, 0x085e5ab5, 0x4b03af04);
    NextStep(38);
    assert After(39) == Words(0x4c986405, 0xdc63973f, 0x03d447f6, 0xf72eec32, 0x085e5ab5);
    NextStep(39);
    assert After(40) == Words(0x32de1cba, 0x4c986405, 0xf718e5cf, 0x03d447f6, 0xf72eec32);
  }

  lemma Steps5()
    ensures After(48) == Words(0xbead02ca, 0xa01b846c, 0x8714787c, 0x503ca382, 0xfb86c6ab)
  {
    hide Word, After;
    Words2();
    Steps4();
    NextStep(40);
    assert After(41) == Words(0xfc87dedf, 0x32de1cba, 0x53261901, 0xf718e5cf, 0x03d447f6);
    NextStep(41);
    assert After(42) == Words(0x970a0d5c, 0xfc87dedf, 0x8cb7872e, 0x53261901, 0xf718e5cf);
    NextStep(42);
    assert After(43) == Words(0x7f193dc5, 0x970a0d5c, 0xff21f7b7, 0x8cb7872e, 0x53261901);
    NextStep(43);
    assert After(44) == Words(0xee1b1aaf, 0x7f193dc5, 0x25c28357, 0xff21f7b7, 0x8cb7872e);
    NextStep(44);
    assert After(45) == Words(0x40f28e09, 0xee1b1aaf, 0x5fc64f71, 0x25c28357, 0xff21f7b7);
    NextStep(45);
    assert After(46) == Words(0x1c51e1f2, 0x40f28e09, 0xfb86c6ab, 0x5fc64f71, 0x25c28357);
    NextStep(46);
    assert After(47) == Words(0xa01b846c, 0x1c51e1f2, 0x503ca382, 0xfb86c6ab, 0x5fc64f71);
    NextStep(47);
    assert After(48) == Words(0xbead02ca, 0xa01b846c, 0x8714787c, 0x503ca382, 0xfb86c6ab);
  }

  lemma Steps6()
    ensures After(56) == Words(0x5e6456af, 0x7b71f76d, 0x09fa7c76, 0x792410db, 0x8e11eb59)
  {
    hide Word, After;
    Words3();
    Steps5();
    NextStep(48);
    assert After(49) == Words(0xbaf39337, 0xbead02ca, 0x2806e11b, 0x8714787c, 0x503ca382);
    NextStep(49);
    assert After(50) == Words(0x120731c5, 0xbaf39337, 0xafab40b2, 0x2806e11b, 0x8714787c);
    NextStep(50);
    assert After(51) == Words(0x641db2ce, 0x120731c5, 0xeebce4cd, 0xafab40b2, 0x2806e11b);
    NextStep(51);
    assert After(52) == Words(0x3847ad66, 0x641db2ce, 0x4481cc71, 0xeebce4cd, 0xafab40b2);
    NextStep(52);
    assert After(53) == Words(0xe490436d, 0x3847ad66, 0x99076cb3, 0x4481cc71, 0xeebce4cd);
    NextStep(53);
    assert After(54) == Words(0x27e9f1d8, 0xe490436d, 0x8e11eb59, 0x99076cb3, 0x4481cc71);
    NextStep(54);
    assert After(55) == Words(0x7b71f76d, 0x27e9f1d8, 0x792410db, 0x8e11eb59, 0x99076cb3);
    NextStep(55);
    assert After(56) == Words(0x5e6456af, 0x7b71f76d, 0x09fa7c76, 0x792410db, 0x8e11eb59);
  }

  lemma Steps7()
    ensures After(64) == Words(0x6b61c9e1, 0xb66c020b, 0x9523272c, 0xf5d5b051, 0x8fd4b796)
  {
    hide Word, After;
    Words3();
    Steps6();
    NextStep(56);
    assert After(57) == Words(0xc846093f, 0x5e6456af, 0x5edc7ddb, 0x09fa7c76, 0x792410db);
    NextStep(57);
    assert After(58) == Words(0xd262ff50, 0xc846093f, 0xd79915ab, 0x5edc7ddb, 0x09fa7c76);
    NextStep(58);
    assert After(59) == Words(0x09d785fd, 0xd262ff50, 0xf211824f, 0xd79915ab, 0x5edc7ddb);
    NextStep(59);
    assert After(60) == Words(0x3f52de5a, 0x09d785fd, 0x3498bfd4, 0xf211824f, 0xd79915ab);
    NextStep(60);
    assert After(61) == Words(0xd756c147, 0x3f52de5a, 0x4275e17f, 0x3498bfd4, 0xf211824f);
    NextStep(61);
    assert After(62) == Words(0x548c9cb2, 0xd756c147, 0x8fd4b796, 0x4275e17f, 0x3498bfd4);
    NextStep(62);
    assert After(63) == Words(0xb66c020b, 0x548c9cb2, 0xf5d5b051, 0x8fd4b796, 0x4275e17f);
    NextStep(63);
    assert After(64) == Words(0x6b61c9e1, 0xb66c020b, 0x9523272c, 0xf5d5b051, 0x8fd4b796);
  }

  lemma Steps8()
    ensures After(72) == Words(0x39859de7, 0xc199f8c7, 0x8fc96230, 0x125c24f0, 0xde37534a)
  {
    hide Word, After;
    Words4();
    Steps7();
    NextStep(64);
    assert After(65) == Words(0x19dfa7ac, 0x6b61c9e1, 0xed9b0082, 0x9523272c, 0xf5d5b051);
    NextStep(65);
    assert After(66) == Words(0x101655f9, 0x19dfa7ac, 0x5ad87278, 0xed9b0082, 0x9523272c);
    NextStep(66);
    assert After(67) == Words(0x0c3df2b4, 0x101655f9, 0x0677e9eb, 0x5ad87278, 0xed9b0082);
    NextStep(67);
    assert After(68) == Words(0x78dd4d2b, 0x0c3df2b4, 0x4405957e, 0x0677e9eb, 0x5ad87278);
    NextStep(68);
    assert After(69) == Words(0x497093c0, 0x78dd4d2b, 0x030f7cad, 0x4405957e, 0x0677e9eb);
    NextStep(69);
    assert After(70) == Words(0x3f2588c2, 0x497093c0, 0xde37534a, 0x030f7cad, 0x4405957e);
    NextStep(70);
    assert After(71) == Words(0xc199f8c7, 0x3f2588c2, 0x125c24f0, 0xde37534a, 0x030f7cad);
    NextStep(71);
    assert After(72) == Words(0x39859de7, 0xc199f8c7, 0x8fc96230, 0x125c24f0, 0xde37534a);
  }

  lemma Steps9()
    ensures After(80) == Words(0x42541b35, 0x5738d5e1, 0x21834873, 0x681e6df6, 0xd8fdf6ad)
  {
    hide Word, After;
    Words4();
    Steps8();
    NextStep(72);
    assert After(73) == Words(0xedb42de4, 0x39859de7, 0xf0667e31, 0x8fc96230, 0x125c24f0);
    NextStep(73);
    assert After(74) == Words(0x11793f6f, 0xedb42de4, 0xce616779, 0xf0667e31, 0x8fc96230);
    NextStep(74);
    assert After(75) == Words(0x5ee76897, 0x11793f6f, 0x3b6d0b79, 0xce616779, 0xf0667e31);
    NextStep(75);
    assert After(76) == Words(0x63f7dab7, 0x5ee76897, 0xc45e4fdb, 0x3b6d0b79, 0xce616779);
    NextStep(76);
    assert After(77) == Words(0xa079b7d9, 0x63f7dab7, 0xd7b9da25, 0xc45e4fdb, 0x3b6d0b79);
    NextStep(77);
    assert After(78) == Words(0x860d21cc, 0xa079b7d9, 0xd8fdf6ad, 0xd7b9da25, 0xc45e4fdb);
    NextStep(78);
    assert After(79) == Words(0x5738d5e1, 0x860d21cc, 0x681e6df6, 0xd8fdf6ad, 0xd7b9da25);
    NextStep(79);
    assert After(80) == Words(0x42541b35, 0x5738d5e1, 0x21834873, 0x681e6df6, 0xd8fdf6ad);
  }

  const HASH := Words(0xa9993e36, 0x4706816a, 0xba3e2571, 0x7850c26c, 0x9cd0d89d)

  lemma AbcHash()
    ensures Chain(INITIAL, BLOCK) == HASH
  {
    Steps9();
    hide Steps;
    assert BLOCK[..64] == BLOCK && BLOCK[64..] == [];
    assert Chain(Compress(INITIAL, BLOCK), []) == Compress(INITIAL, BLOCK);
  }

  /** The digest published for it. */
  lemma AbcDigest()
    ensures Digest(ABC) == [
              0xa9, 0x99, 0x3e, 0x36, 0x47, 0x06, 0x81, 0x6a, 0xba, 0x3e, 0x25, 0x71, 0x78, 0x50, 0xc2, 0x6c,
              0x9c, 0xd0, 0xd8, 0x9d]
  {
    hide Chain, Padded;
    PaddedAbc();
    AbcHash();
  }
}
