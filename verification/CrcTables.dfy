/** The entries of the constant table in tools/firmware-utils/src/cyg_crc32.c, and the catalogued check values of
    both kinds of CRC. */
module CrcTables {
  import opened Folds
  import opened Crc32
  import CraftCrc
  import Crc16
  import BuffaloContainer

  // ---------- The table ----------

  /** Eight shifts of i. */
  function Tab(i: word): word {
    Step8(CraftCrc.POLY, i)
  }

  lemma Entries0()
    ensures Tab(0) == 0x0000_0000 && Tab(1) == 0x7707_3096 && Tab(2) == 0xee0e_612c && Tab(3) == 0x9909_51ba
    ensures Tab(4) == 0x076d_c419 && Tab(5) == 0x706a_f48f && Tab(6) == 0xe963_a535 && Tab(7) == 0x9e64_95a3
    ensures Tab(8) == 0x0edb_8832 && Tab(9) == 0x79dc_b8a4 && Tab(10) == 0xe0d5_e91e && Tab(11) == 0x97d2_d988
    ensures Tab(12) == 0x09b6_4c2b && Tab(13) == 0x7eb1_7cbd && Tab(14) == 0xe7b8_2d07 && Tab(15) == 0x90bf_1d91
    ensures Tab(16) == 0x1db7_1064 && Tab(17) == 0x6ab0_20f2 && Tab(18) == 0xf3b9_7148 && Tab(19) == 0x84be_41de
    ensures Tab(20) == 0x1ada_d47d && Tab(21) == 0x6ddd_e4eb && Tab(22) == 0xf4d4_b551 && Tab(23) == 0x83d3_85c7
    ensures Tab(24) == 0x136c_9856 && Tab(25) == 0x646b_a8c0 && Tab(26) == 0xfd62_f97a && Tab(27) == 0x8a65_c9ec
    ensures Tab(28) == 0x1401_5c4f && Tab(29) == 0x6306_6cd9 && Tab(30) == 0xfa0f_3d63 && Tab(31) == 0x8d08_0df5
  {}

  lemma Entries1()
    ensures Tab(32) == 0x3b6e_20c8 && Tab(33) == 0x4c69_105e && Tab(34) == 0xd560_41e4 && Tab(35) == 0xa267_7172
    ensures Tab(36) == 0x3c03_e4d1 && Tab(37) == 0x4b04_d447 && Tab(38) == 0xd20d_85fd && Tab(39) == 0xa50a_b56b
    ensures Tab(40) == 0x35b5_a8fa && Tab(41) == 0x42b2_986c && Tab(42) == 0xdbbb_c9d6 && Tab(43) == 0xacbc_f940
    ensures Tab(44) == 0x32d8_6ce3 && Tab(45) == 0x45df_5c75 && Tab(46) == 0xdcd6_0dcf && Tab(47) == 0xabd1_3d59
    ensures Tab(48) == 0x26d9_30ac && Tab(49) == 0x51de_003a && Tab(50) == 0xc8d7_5180 && Tab(51) == 0xbfd0_6116
    ensures Tab(52) == 0x21b4_f4b5 && Tab(53) == 0x56b3_c423 && Tab(54) == 0xcfba_9599 && Tab(55) == 0xb8bd_a50f
    ensures Tab(56) == 0x2802_b89e && Tab(57) == 0x5f05_8808 && Tab(58) == 0xc60c_d9b2 && Tab(59) == 0xb10b_e924
    ensures Tab(60) == 0x2f6f_7c87 && Tab(61) == 0x5868_4c11 && Tab(62) == 0xc161_1dab && Tab(63) == 0xb666_2d3d
  {}

  lemma Entries2()
    ensures Tab(64) == 0x76dc_4190 && Tab(65) == 0x01db_7106 && Tab(66) == 0x98d2_20bc && Tab(67) == 0xefd5_102a
    ensures Tab(68) == 0x71b1_8589 && Tab(69) == 0x06b6_b51f && Tab(70) == 0x9fbf_e4a5 && Tab(71) == 0xe8b8_d433
    ensures Tab(72) == 0x7807_c9a2 && Tab(73) == 0x0f00_f934 && Tab(74) == 0x9609_a88e && Tab(75) == 0xe10e_9818
    ensures Tab(76) == 0x7f6a_0dbb && Tab(77) == 0x086d_3d2d && Tab(78) == 0x9164_6c97 && Tab(79) == 0xe663_5c01
    ensures Tab(80) == 0x6b6b_51f4 && Tab(81) == 0x1c6c_6162 && Tab(82) == 0x8565_30d8 && Tab(83) == 0xf262_004e
    ensures Tab(84) == 0x6c06_95ed && Tab(85) == 0x1b01_a57b && Tab(86) == 0x8208_f4c1 && Tab(87) == 0xf50f_c457
    ensures Tab(88) == 0x65b0_d9c6 && Tab(89) == 0x12b7_e950 && Tab(90) == 0x8bbe_b8ea && Tab(91) == 0xfcb9_887c
    ensures Tab(92) == 0x62dd_1ddf && Tab(93) == 0x15da_2d49 && Tab(94) == 0x8cd3_7cf3 && Tab(95) == 0xfbd4_4c65
  {}

  lemma Entries3()
    ensures Tab(96) == 0x4db2_6158 && Tab(97) == 0x3ab5_51ce && Tab(98) == 0xa3bc_0074 && Tab(99) == 0xd4bb_30e2
    ensures Tab(100) == 0x4adf_a541 && Tab(101) == 0x3dd8_95d7 && Tab(102) == 0xa4d1_c46d && Tab(103) == 0xd3d6_f4fb
    ensures Tab(104) == 0x4369_e96a && Tab(105) == 0x346e_d9fc && Tab(106) == 0xad67_8846 && Tab(107) == 0xda60_b8d0
    ensures Tab(108) == 0x4404_2d73 && Tab(109) == 0x3303_1de5 && Tab(110) == 0xaa0a_4c5f && Tab(111) == 0xdd0d_7cc9
    ensures Tab(112) == 0x5005_713c && Tab(113) == 0x2702_41aa && Tab(114) == 0xbe0b_1010 && Tab(115) == 0xc90c_2086
    ensures Tab(116) == 0x5768_b525 && Tab(117) == 0x206f_85b3 && Tab(118) == 0xb966_d409 && Tab(119) == 0xce61_e49f
    ensures Tab(120) == 0x5ede_f90e && Tab(121) == 0x29d9_c998 && Tab(122) == 0xb0d0_9822 && Tab(123) == 0xc7d7_a8b4
    ensures Tab(124) == 0x59b3_3d17 && Tab(125) == 0x2eb4_0d81 && Tab(126) == 0xb7bd_5c3b && Tab(127) == 0xc0ba_6cad
  {}

  lemma Entries4()
    ensures Tab(128) == 0xedb8_8320 && Tab(129) == 0x9abf_b3b6 && Tab(130) == 0x03b6_e20c && Tab(131) == 0x74b1_d29a
    ensures Tab(132) == 0xead5_4739 && Tab(133) == 0x9dd2_77af && Tab(134) == 0x04db_2615 && Tab(135) == 0x73dc_1683
    ensures Tab(136) == 0xe363_0b12 && Tab(137) == 0x9464_3b84 && Tab(138) == 0x0d6d_6a3e && Tab(139) == 0x7a6a_5aa8
    ensures Tab(140) == 0xe40e_cf0b && Tab(141) == 0x9309_ff9d && Tab(142) == 0x0a00_ae27 && Tab(143) == 0x7d07_9eb1
    ensures Tab(144) == 0xf00f_9344 && Tab(145) == 0x8708_a3d2 && Tab(146) == 0x1e01_f268 && Tab(147) == 0x6906_c2fe
    ensures Tab(148) == 0xf762_575d && Tab(149) == 0x8065_67cb && Tab(150) == 0x196c_3671 && Tab(151) == 0x6e6b_06e7
    ensures Tab(152) == 0xfed4_1b76 && Tab(153) == 0x89d3_2be0 && Tab(154) == 0x10da_7a5a && Tab(155) == 0x67dd_4acc
    ensures Tab(156) == 0xf9b9_df6f && Tab(157) == 0x8ebe_eff9 && Tab(158) == 0x17b7_be43 && Tab(159) == 0x60b0_8ed5
  {}

  lemma Entries5()
    ensures Tab(160) == 0xd6d6_a3e8 && Tab(161) == 0xa1d1_937e && Tab(162) == 0x38d8_c2c4 && Tab(163) == 0x4fdf_f252
    ensures Tab(164) == 0xd1bb_67f1 && Tab(165) == 0xa6bc_5767 && Tab(166) == 0x3fb5_06dd && Tab(167) == 0x48b2_364b
    ensures Tab(168) == 0xd80d_2bda && Tab(169) == 0xaf0a_1b4c && Tab(170) == 0x3603_4af6 && Tab(171) == 0x4104_7a60
    ensures Tab(172) == 0xdf60_efc3 && Tab(173) == 0xa867_df55 && Tab(174) == 0x316e_8eef && Tab(175) == 0x4669_be79
    ensures Tab(176) == 0xcb61_b38c && Tab(177) == 0xbc66_831a && Tab(178) == 0x256f_d2a0 && Tab(179) == 0x5268_e236
    ensures Tab(180) == 0xcc0c_7795 && Tab(181) == 0xbb0b_4703 && Tab(182) == 0x2202_16b9 && Tab(183) == 0x5505_262f
    ensures Tab(184) == 0xc5ba_3bbe && Tab(185) == 0xb2bd_0b28 && Tab(186) == 0x2bb4_5a92 && Tab(187) == 0x5cb3_6a04
    ensures Tab(188) == 0xc2d7_ffa7 && Tab(189) == 0xb5d0_cf31 && Tab(190) == 0x2cd9_9e8b && Tab(191) == 0x5bde_ae1d
  {}

  lemma Entries6()
    ensures Tab(192) == 0x9b64_c2b0 && Tab(193) == 0xec63_f226 && Tab(194) == 0x756a_a39c && Tab(195) == 0x026d_930a
    ensures Tab(196) == 0x9c09_06a9 && Tab(197) == 0xeb0e_363f && Tab(198) == 0x7207_6785 && Tab(199) == 0x0500_5713
    ensures Tab(200) == 0x95bf_4a82 && Tab(201) == 0xe2b8_7a14 && Tab(202) == 0x7bb1_2bae && Tab(203) == 0x0cb6_1b38
    ensures Tab(204) == 0x92d2_8e9b && Tab(205) == 0xe5d5_be0d && Tab(206) == 0x7cdc_efb7 && Tab(207) == 0x0bdb_df21
    ensures Tab(208) == 0x86d3_d2d4 && Tab(209) == 0xf1d4_e242 && Tab(210) == 0x68dd_b3f8 && Tab(211) == 0x1fda_836e
    ensures Tab(212) == 0x81be_16cd && Tab(213) == 0xf6b9_265b && Tab(214) == 0x6fb0_77e1 && Tab(215) == 0x18b7_4777
    ensures Tab(216) == 0x8808_5ae6 && Tab(217) == 0xff0f_6a70 && Tab(218) == 0x6606_3bca && Tab(219) == 0x1101_0b5c
    ensures Tab(220) == 0x8f65_9eff && Tab(221) == 0xf862_ae69 && Tab(222) == 0x616b_ffd3 && Tab(223) == 0x166c_cf45
  {}

  lemma Entries7()
    ensures Tab(224) == 0xa00a_e278 && Tab(225) == 0xd70d_d2ee && Tab(226) == 0x4e04_8354 && Tab(227) == 0x3903_b3c2
    ensures Tab(228) == 0xa767_2661 && Tab(229) == 0xd060_16f7 && Tab(230) == 0x4969_474d && Tab(231) == 0x3e6e_77db
    ensures Tab(232) == 0xaed1_6a4a && Tab(233) == 0xd9d6_5adc && Tab(234) == 0x40df_0b66 && Tab(235) == 0x37d8_3bf0
    ensures Tab(236) == 0xa9bc_ae53 && Tab(237) == 0xdebb_9ec5 && Tab(238) == 0x47b2_cf7f && Tab(239) == 0x30b5_ffe9
    ensures Tab(240) == 0xbdbd_f21c && Tab(241) == 0xcaba_c28a && Tab(242) == 0x53b3_9330 && Tab(243) == 0x24b4_a3a6
    ensures Tab(244) == 0xbad0_3605 && Tab(245) == 0xcdd7_0693 && Tab(246) == 0x54de_5729 && Tab(247) == 0x23d9_67bf
    ensures Tab(248) == 0xb366_7a2e && Tab(249) == 0xc461_4ab8 && Tab(250) == 0x5d68_1b02 && Tab(251) == 0x2a6f_2b94
    ensures Tab(252) == 0xb40b_be37 && Tab(253) == 0xc30c_8ea1 && Tab(254) == 0x5a05_df1b && Tab(255) == 0x2d02_ef8d
  {}

  /** buffalo_csum has the same polynomial. */
  lemma BuffaloPolynomial()
    ensures BuffaloContainer.CSUM_POLY == CraftCrc.POLY as nat
  {}

  // ---------- The check values ----------

  /** Nine steps of a register whose values are listed. */
  lemma NineSteps<S, B>(f: (S, B) -> S, init: S, d: seq<B>, st: seq<S>)
    requires |d| == 9 && |st| == 9 && f(init, d[0]) == st[0]
    requires f(st[0], d[1]) == st[1] && f(st[1], d[2]) == st[2] && f(st[2], d[3]) == st[3] && f(st[3], d[4]) == st[4]
    requires f(st[4], d[5]) == st[5] && f(st[5], d[6]) == st[6] && f(st[6], d[7]) == st[7] && f(st[7], d[8]) == st[8]
    ensures Fold(f, init, d) == st[8]
  {
    assert d[..9] == d && d[..0] == [];
    for i := 0 to 9
      invariant Fold(f, init, d[..i]) == if i == 0 then init else st[i - 1]
    {
      FoldNext(f, init, d, i);
    }
  }

  lemma Check32Steps()
    ensures Feed(CraftCrc.POLY, 0xffff_ffff, 0x31) == 0x7c23_1048
    ensures Feed(CraftCrc.POLY, 0x7c23_1048, 0x32) == 0xb0ac_bb32
    ensures Feed(CraftCrc.POLY, 0xb0ac_bb32, 0x33) == 0x77b7_9c2d
    ensures Feed(CraftCrc.POLY, 0x77b7_9c2d, 0x34) == 0x641c_1f5c
    ensures Feed(CraftCrc.POLY, 0x641c_1f5c, 0x35) == 0x340a_c5e3
    ensures Feed(CraftCrc.POLY, 0x340a_c5e3, 0x36) == 0xf68d_2c9e
    ensures Feed(CraftCrc.POLY, 0xf68d_2c9e, 0x37) == 0xaffc_9660
    ensures Feed(CraftCrc.POLY, 0xaffc_9660, 0x38) == 0x651f_2550
    ensures Feed(CraftCrc.POLY, 0x651f_2550, 0x39) == 0x340b_c6d9
  {}

  /** The check value of CRC-32: that of the characters 1 to 9. */
  lemma Check32()
    ensures Crc(CraftCrc.POLY, 0, [0x31, 0x32, 0x33, 0x34, 0x35, 0x36, 0x37, 0x38, 0x39]) == 0xcbf4_3926
  {
    Check32Steps();
    NineSteps(FeedStep(CraftCrc.POLY), 0xffff_ffff, [0x31, 0x32, 0x33, 0x34, 0x35, 0x36, 0x37, 0x38, 0x39],
              [0x7c23_1048, 0xb0ac_bb32, 0x77b7_9c2d, 0x641c_1f5c, 0x340a_c5e3,
               0xf68d_2c9e, 0xaffc_9660, 0x651f_2550, 0x340b_c6d9]);
    assert Inv(0) == 0xffff_ffff && Inv(0x340b_c6d9) == 0xcbf4_3926;
  }

  lemma Check16Steps()
    ensures Crc16.Feed(0xffff, 0x31) == 0xc782
    ensures Crc16.Feed(0xc782, 0x32) == 0x3dba
    ensures Crc16.Feed(0x3dba, 0x33) == 0x5bce
    ensures Crc16.Feed(0x5bce, 0x34) == 0x5349
    ensures Crc16.Feed(0x5349, 0x35) == 0x4560
    ensures Crc16.Feed(0x4560, 0x36) == 0x2ef4
    ensures Crc16.Feed(0x2ef4, 0x37) == 0x7718
    ensures Crc16.Feed(0x7718, 0x38) == 0xa12b
    ensures Crc16.Feed(0xa12b, 0x39) == 0x29b1
  {}

  /** The check value of the CRC with polynomial 0x1021 and first register 0xffff. */
  lemma Check16()
    ensures Fold(Crc16.FeedStep(), 0xffff, [0x31, 0x32, 0x33, 0x34, 0x35, 0x36, 0x37, 0x38, 0x39]) == 0x29b1
  {
    Check16Steps();
    NineSteps(Crc16.FeedStep(), 0xffff, [0x31, 0x32, 0x33, 0x34, 0x35, 0x36, 0x37, 0x38, 0x39],
              [0xc782, 0x3dba, 0x5bce, 0x5349, 0x4560,
               0x2ef4, 0x7718, 0xa12b, 0x29b1]);
  }
}
