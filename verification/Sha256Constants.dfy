/** Where the constants of SHA-256 come from: sections 4.2.2 and 5.3.3 of FIPS 180-4. */
module Sha256Constants {
  import opened Words
  import opened Sha256File

  const FRACTION: nat := 0x1_0000_0000

  /** The cube root of p in units of 2^-32 is, rounded down, n with f behind the point. */
  predicate CubeRoot(p: nat, n: nat, f: nat) {
    var c := n * FRACTION + f;
    c * c * c <= p * FRACTION * FRACTION * FRACTION < (c + 1) * (c + 1) * (c + 1)
  }

  /** The same for the square root. */
  predicate SquareRoot(p: nat, n: nat, f: nat) {
    var c := n * FRACTION + f;
    c * c <= p * FRACTION * FRACTION < (c + 1) * (c + 1)
  }

  lemma Roots0()
    ensures CubeRoot(2, 1, 0x428a_2f98) && CubeRoot(3, 1, 0x7137_4491) && CubeRoot(5, 1, 0xb5c0_fbcf)
    ensures CubeRoot(7, 1, 0xe9b5_dba5) && CubeRoot(11, 2, 0x3956_c25b) && CubeRoot(13, 2, 0x59f1_11f1)
    ensures CubeRoot(17, 2, 0x923f_82a4) && CubeRoot(19, 2, 0xab1c_5ed5)
  {}

  lemma Constants0()
    ensures K0[0] == 0x428a_2f98 && K0[1] == 0x7137_4491 && K0[2] == 0xb5c0_fbcf
    ensures K0[3] == 0xe9b5_dba5 && K0[4] == 0x3956_c25b && K0[5] == 0x59f1_11f1
    ensures K0[6] == 0x923f_82a4 && K0[7] == 0xab1c_5ed5
  {}

  lemma Roots8()
    ensures CubeRoot(23, 2, 0xd807_aa98) && CubeRoot(29, 3, 0x1283_5b01) && CubeRoot(31, 3, 0x2431_85be)
    ensures CubeRoot(37, 3, 0x550c_7dc3) && CubeRoot(41, 3, 0x72be_5d74) && CubeRoot(43, 3, 0x80de_b1fe)
    ensures CubeRoot(47, 3, 0x9bdc_06a7) && CubeRoot(53, 3, 0xc19b_f174)
  {}

  lemma Constants8()
    ensures K0[8] == 0xd807_aa98 && K0[9] == 0x1283_5b01 && K0[10] == 0x2431_85be
    ensures K0[11] == 0x550c_7dc3 && K0[12] == 0x72be_5d74 && K0[13] == 0x80de_b1fe
    ensures K0[14] == 0x9bdc_06a7 && K0[15] == 0xc19b_f174
  {}

  lemma Roots16()
    ensures CubeRoot(59, 3, 0xe49b_69c1) && CubeRoot(61, 3, 0xefbe_4786) && CubeRoot(67, 4, 0x0fc1_9dc6)
    ensures CubeRoot(71, 4, 0x240c_a1cc) && CubeRoot(73, 4, 0x2de9_2c6f) && CubeRoot(79, 4, 0x4a74_84aa)
    ensures CubeRoot(83, 4, 0x5cb0_a9dc) && CubeRoot(89, 4, 0x76f9_88da)
  {}

  lemma Constants16()
    ensures K1[0] == 0xe49b_69c1 && K1[1] == 0xefbe_4786 && K1[2] == 0x0fc1_9dc6
    ensures K1[3] == 0x240c_a1cc && K1[4] == 0x2de9_2c6f && K1[5] == 0x4a74_84aa
    ensures K1[6] == 0x5cb0_a9dc && K1[7] == 0x76f9_88da
  {}

  lemma Roots24()
    ensures CubeRoot(97, 4, 0x983e_5152) && CubeRoot(101, 4, 0xa831_c66d) && CubeRoot(103, 4, 0xb003_27c8)
    ensures CubeRoot(107, 4, 0xbf59_7fc7) && CubeRoot(109, 4, 0xc6e0_0bf3) && CubeRoot(113, 4, 0xd5a7_9147)
    ensures CubeRoot(127, 5, 0x06ca_6351) && CubeRoot(131, 5, 0x1429_2967)
  {}

  lemma Constants24()
    ensures K1[8] == 0x983e_5152 && K1[9] == 0xa831_c66d && K1[10] == 0xb003_27c8
    ensures K1[11] == 0xbf59_7fc7 && K1[12] == 0xc6e0_0bf3 && K1[13] == 0xd5a7_9147
    ensures K1[14] == 0x06ca_6351 && K1[15] == 0x1429_2967
  {}

  lemma Roots32()
    ensures CubeRoot(137, 5, 0x27b7_0a85) && CubeRoot(139, 5, 0x2e1b_2138) && CubeRoot(149, 5, 0x4d2c_6dfc)
    ensures CubeRoot(151, 5, 0x5338_0d13) && CubeRoot(157, 5, 0x650a_7354) && CubeRoot(163, 5, 0x766a_0abb)
    ensures CubeRoot(167, 5, 0x81c2_c92e) && CubeRoot(173, 5, 0x9272_2c85)
  {}

  lemma Constants32()
    ensures K2[0] == 0x27b7_0a85 && K2[1] == 0x2e1b_2138 && K2[2] == 0x4d2c_6dfc
    ensures K2[3] == 0x5338_0d13 && K2[4] == 0x650a_7354 && K2[5] == 0x766a_0abb
    ensures K2[6] == 0x81c2_c92e && K2[7] == 0x9272_2c85
  {}

  lemma Roots40()
    ensures CubeRoot(179, 5, 0xa2bf_e8a1) && CubeRoot(181, 5, 0xa81a_664b) && CubeRoot(191, 5, 0xc24b_8b70)
    ensures CubeRoot(193, 5, 0xc76c_51a3) && CubeRoot(197, 5, 0xd192_e819) && CubeRoot(199, 5, 0xd699_0624)
    ensures CubeRoot(211, 5, 0xf40e_3585) && CubeRoot(223, 6, 0x106a_a070)
  {}

  lemma Constants40()
    ensures K2[8] == 0xa2bf_e8a1 && K2[9] == 0xa81a_664b && K2[10] == 0xc24b_8b70
    ensures K2[11] == 0xc76c_51a3 && K2[12] == 0xd192_e819 && K2[13] == 0xd699_0624
    ensures K2[14] == 0xf40e_3585 && K2[15] == 0x106a_a070
  {}

  lemma Roots48()
    ensures CubeRoot(227, 6, 0x19a4_c116) && CubeRoot(229, 6, 0x1e37_6c08) && CubeRoot(233, 6, 0x2748_774c)
    ensures CubeRoot(239, 6, 0x34b0_bcb5) && CubeRoot(241, 6, 0x391c_0cb3) && CubeRoot(251, 6, 0x4ed8_aa4a)
    ensures CubeRoot(257, 6, 0x5b9c_ca4f) && CubeRoot(263, 6, 0x682e_6ff3)
  {}

  lemma Constants48()
    ensures K3[0] == 0x19a4_c116 && K3[1] == 0x1e37_6c08 && K3[2] == 0x2748_774c
    ensures K3[3] == 0x34b0_bcb5 && K3[4] == 0x391c_0cb3 && K3[5] == 0x4ed8_aa4a
    ensures K3[6] == 0x5b9c_ca4f && K3[7] == 0x682e_6ff3
  {}

  lemma Roots56()
    ensures CubeRoot(269, 6, 0x748f_82ee) && CubeRoot(271, 6, 0x78a5_636f) && CubeRoot(277, 6, 0x84c8_7814)
    ensures CubeRoot(281, 6, 0x8cc7_0208) && CubeRoot(283, 6, 0x90be_fffa) && CubeRoot(293, 6, 0xa450_6ceb)
    ensures CubeRoot(307, 6, 0xbef9_a3f7) && CubeRoot(311, 6, 0xc671_78f2)
  {}

  lemma Constants56()
    ensures K3[8] == 0x748f_82ee && K3[9] == 0x78a5_636f && K3[10] == 0x84c8_7814
    ensures K3[11] == 0x8cc7_0208 && K3[12] == 0x90be_fffa && K3[13] == 0xa450_6ceb
    ensures K3[14] == 0xbef9_a3f7 && K3[15] == 0xc671_78f2
  {}

  lemma RegisterRoots()
    ensures SquareRoot(2, 1, 0x6a09_e667) && SquareRoot(3, 1, 0xbb67_ae85) && SquareRoot(5, 2, 0x3c6e_f372)
    ensures SquareRoot(7, 2, 0xa54f_f53a) && SquareRoot(11, 3, 0x510e_527f) && SquareRoot(13, 3, 0x9b05_688c)
    ensures SquareRoot(17, 4, 0x1f83_d9ab) && SquareRoot(19, 4, 0x5be0_cd19)
  {}

  lemma Registers()
    ensures INIT[0] == 0x6a09_e667 && INIT[1] == 0xbb67_ae85 && INIT[2] == 0x3c6e_f372
    ensures INIT[3] == 0xa54f_f53a && INIT[4] == 0x510e_527f && INIT[5] == 0x9b05_688c
    ensures INIT[6] == 0x1f83_d9ab && INIT[7] == 0x5be0_cd19
  {}
}
