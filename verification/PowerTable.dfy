/** The table of powers of ten of internal/diyfp.h, 10^-348, 10^-340, ..., 10^340, and the arithmetic of its entries. */
module PowerTable {
  import opened Powers

  /** The powers in 64 bits. */
  function Significand(i: nat): nat {
    if i < 10 then (
      match i
      case 0 => 0xfa8fd5a0_081c0288 case 1 => 0xbaaee17f_a23ebf76 case 2 => 0x8b16fb20_3055ac76 case 3 => 0xcf42894a_5dce35ea
      case 4 => 0x9a6bb0aa_55653b2d case 5 => 0xe61acf03_3d1a45df case 6 => 0xab70fe17_c79ac6ca case 7 => 0xff77b1fc_bebcdc4f
      case 8 => 0xbe5691ef_416bd60c case _ => 0x8dd01fad_907ffc3c
    ) else if i < 20 then (
      match i
      case 10 => 0xd3515c28_31559a83 case 11 => 0x9d71ac8f_ada6c9b5 case 12 => 0xea9c2277_23ee8bcb case 13 => 0xaecc4991_4078536d
      case 14 => 0x823c1279_5db6ce57 case 15 => 0xc2109436_4dfb5637 case 16 => 0x9096ea6f_3848984f case 17 => 0xd77485cb_25823ac7
      case 18 => 0xa086cfcd_97bf97f4 case _ => 0xef340a98_172aace5
    ) else if i < 30 then (
      match i
      case 20 => 0xb23867fb_2a35b28e case 21 => 0x84c8d4df_d2c63f3b case 22 => 0xc5dd4427_1ad3cdba case 23 => 0x936b9fce_bb25c996
      case 24 => 0xdbac6c24_7d62a584 case 25 => 0xa3ab6658_0d5fdaf6 case 26 => 0xf3e2f893_dec3f126 case 27 => 0xb5b5ada8_aaff80b8
      case 28 => 0x87625f05_6c7c4a8b case _ => 0xc9bcff60_34c13053
    ) else if i < 40 then (
      match i
      case 30 => 0x964e858c_91ba2655 case 31 => 0xdff97724_70297ebd case 32 => 0xa6dfbd9f_b8e5b88f case 33 => 0xf8a95fcf_88747d94
      case 34 => 0xb9447093_8fa89bcf case 35 => 0x8a08f0f8_bf0f156b case 36 => 0xcdb02555_653131b6 case 37 => 0x993fe2c6_d07b7fac
      case 38 => 0xe45c10c4_2a2b3b06 case _ => 0xaa242499_697392d3
    ) else if i < 50 then (
      match i
      case 40 => 0xfd87b5f2_8300ca0e case 41 => 0xbce50864_92111aeb case 42 => 0x8cbccc09_6f5088cc case 43 => 0xd1b71758_e219652c
      case 44 => 0x9c400000_00000000 case 45 => 0xe8d4a510_00000000 case 46 => 0xad78ebc5_ac620000 case 47 => 0x813f3978_f8940984
      case 48 => 0xc097ce7b_c90715b3 case _ => 0x8f7e32ce_7bea5c70
    ) else if i < 60 then (
      match i
      case 50 => 0xd5d238a4_abe98068 case 51 => 0x9f4f2726_179a2245 case 52 => 0xed63a231_d4c4fb27 case 53 => 0xb0de6538_8cc8ada8
      case 54 => 0x83c7088e_1aab65db case 55 => 0xc45d1df9_42711d9a case 56 => 0x924d692c_a61be758 case 57 => 0xda01ee64_1a708dea
      case 58 => 0xa26da399_9aef774a case _ => 0xf209787b_b47d6b85
    ) else if i < 70 then (
      match i
      case 60 => 0xb454e4a1_79dd1877 case 61 => 0x865b8692_5b9bc5c2 case 62 => 0xc83553c5_c8965d3d case 63 => 0x952ab45c_fa97a0b3
      case 64 => 0xde469fbd_99a05fe3 case 65 => 0xa59bc234_db398c25 case 66 => 0xf6c69a72_a3989f5c case 67 => 0xb7dcbf53_54e9bece
      case 68 => 0x88fcf317_f22241e2 case _ => 0xcc20ce9b_d35c78a5
    ) else if i < 80 then (
      match i
      case 70 => 0x98165af3_7b2153df case 71 => 0xe2a0b5dc_971f303a case 72 => 0xa8d9d153_5ce3b396 case 73 => 0xfb9b7cd9_a4a7443c
      case 74 => 0xbb764c4c_a7a44410 case 75 => 0x8bab8eef_b6409c1a case 76 => 0xd01fef10_a657842c case 77 => 0x9b10a4e5_e9913129
      case 78 => 0xe7109bfb_a19c0c9d case _ => 0xac2820d9_623bf429
    ) else (
      match i
      case 80 => 0x80444b5e_7aa7cf85 case 81 => 0xbf21e440_03acdd2d case 82 => 0x8e679c2f_5e44ff8f case 83 => 0xd433179d_9c8cb841
      case 84 => 0x9e19db92_b4e31ba9 case 85 => 0xeb96bf6e_badf77d9 case _ => 0xaf87023b_9bf0ee6b
    )
  }

  /** Their binary exponents. */
  function Exponent(i: nat): int {
    if i < 10 then (
      match i
      case 0 => -1220 case 1 => -1193 case 2 => -1166 case 3 => -1140 case 4 => -1113 case 5 => -1087 case 6 => -1060 case 7 => -1034 case 8 => -1007 case _ => -980
    ) else if i < 20 then (
      match i
      case 10 => -954 case 11 => -927 case 12 => -901 case 13 => -874 case 14 => -847 case 15 => -821 case 16 => -794 case 17 => -768 case 18 => -741 case _ => -715
    ) else if i < 30 then (
      match i
      case 20 => -688 case 21 => -661 case 22 => -635 case 23 => -608 case 24 => -582 case 25 => -555 case 26 => -529 case 27 => -502 case 28 => -475 case _ => -449
    ) else if i < 40 then (
      match i
      case 30 => -422 case 31 => -396 case 32 => -369 case 33 => -343 case 34 => -316 case 35 => -289 case 36 => -263 case 37 => -236 case 38 => -210 case _ => -183
    ) else if i < 50 then (
      match i
      case 40 => -157 case 41 => -130 case 42 => -103 case 43 => -77 case 44 => -50 case 45 => -24 case 46 => 3 case 47 => 30 case 48 => 56 case _ => 83
    ) else if i < 60 then (
      match i
      case 50 => 109 case 51 => 136 case 52 => 162 case 53 => 189 case 54 => 216 case 55 => 242 case 56 => 269 case 57 => 295 case 58 => 322 case _ => 348
    ) else if i < 70 then (
      match i
      case 60 => 375 case 61 => 402 case 62 => 428 case 63 => 455 case 64 => 481 case 65 => 508 case 66 => 534 case 67 => 561 case 68 => 588 case _ => 614
    ) else if i < 80 then (
      match i
      case 70 => 641 case 71 => 667 case 72 => 694 case 73 => 720 case 74 => 747 case 75 => 774 case 76 => 800 case 77 => 827 case 78 => 853 case _ => 880
    ) else (
      match i
      case 80 => 907 case 81 => 933 case 82 => 960 case 83 => 986 case 84 => 1013 case 85 => 1039 case _ => 1066
    )
  }

  /** 64 more bits of each power, what stands behind the point, from below. */
  function Tail(i: nat): int {
    if i < 10 then (
      match i
      case 0 => 0x1732c869_cd60e434 case 1 => 0x5d79bcf0_0d2df633 case 2 => 0x4c3bcb50_21afcc21 case 3 => 0x52064cac_828675a2
      case 4 => 0x47b233c9_2125365e case 5 => 0x6fb92487_298e33a6 case 6 => 0x6dbd630a_48aaf3f5 case 7 => 0x25e8e89c_13bb0f61
      case 8 => 0x23cc986b_c656d541 case _ => -0x51c25826_80986d2a
    ) else if i < 20 then (
      match i
      case 10 => 0x0d5a5b44_ca873df0 case 11 => 0x6f773fc3_603db49b case 12 => 0x465e15a9_79c1cac7 case 13 => 0x58fae9f7_73886e09
      case 14 => 0x76c53d08_d6b7084d case 15 => -0x67a6ea03_ed0abd2b case 16 => 0x3ff0d2c8_5def7616 case 17 => 0x7d633293_366b827a
      case 18 => -0x7f175bf1_332dd768 case _ => -0x7904768e_e93783de
    ) else if i < 30 then (
      match i
      case 20 => -0x16619e65_b0dc55ca case 21 => 0x29ecd9f4_0041e06a case 22 => 0x40eff1e1_853f29f0 case 23 => -0x354ef226_ff4113d5
      case 24 => -0x20ba08b9_48b540d5 case 25 => -0x3ec19f2f_2d1f1450 case 26 => 0x5a89dba3_c3efcced case 27 => 0x0d819992_132456b1
      case 28 => 0x11471cd7_64ad496c case _ => -0x03764c6c_22fd0f54
    ) else if i < 40 then (
      match i
      case 30 => 0x3a6a07f8_d510f869 case 31 => 0x59787e2b_93bc56ed case 32 => -0x34b332af_f09446b4 case 33 => 0x75a44c63_97ce9121
      case 34 => -0x07f71bf1_72a4c19d case 35 => 0x1b8e9ecb_641b58fb case 36 => 0x3792f412_cb067947 case 37 => -0x1ab957fc_7101bfdb
      case 38 => -0x73476582_4883af9a case _ => -0x221af42e_2a2f4619
    ) else if i < 50 then (
      match i
      case 40 => -0x74356291_e777ac07 case 41 => -0x770b44e3_59430a7e case 42 => -0x06c07848_bbd1ba2d case 43 => -0x2c3c9eec_bfb15b58
      case 44 => 0x00000000_00000000 case 45 => 0x00000000_00000000 case 46 => 0x00000000_00000000 case 47 => 0x40000000_00000000
      case 48 => 0x4b9f1000_00000000 case _ => -0x1b7dffdc_5e000000
    ) else if i < 60 then (
      match i
      case 50 => 0x72a49045_98d6d880 case 51 => 0x01d76242_2c946590 case 52 => 0x4ca7aaa8_63ee4bdc case 53 => 0x3b25a55f_43294bca
      case 54 => 0x792667c6_da79e0f8 case 55 => 0x3ba5d0bd_324f8391 case 56 => 0x593c2626_705f9c54 case 57 => -0x17f190b7_df336b6e
      case 58 => -0x1c41a1cc_f0c70f65 case _ => -0x3f9873a2_42dc5b6b
    ) else if i < 70 then (
      match i
      case 60 => 0x29babe45_98c311f7 case 61 => 0x0b8a2392_ba45a9ae case 62 => 0x6f928294_94e5acc0 case 63 => -0x226ba58b_840d9e82
      case 64 => 0x6fca5f8e_d9aef3b2 case 65 => 0x43fab983_7e69908e case 66 => -0x7552ab61_a8d8c2c7 case 67 => 0x0c11ed6d_538aeb26
      case 68 => 0x441fece3_bdf81efc case _ => 0x31ec038d_f7b441e9
    ) else if i < 80 then (
      match i
      case 70 => -0x3c8d85cc_85748fbf case 71 => 0x2e44ae64_840fd610 case 72 => 0x7f1839a7_41a14d03 case 73 => 0x169840ef_017da3a1
      case 74 => -0x6292e52b_e541c81b case 75 => 0x1ad089b6_c2f75484 case 76 => 0x2d2b7569_b0432d75 case 77 => -0x35830d4b_e6e37ce6
      case 78 => 0x0cc51267_0a783ac2 case _ => 0x546345fa_9fbdcd36
    ) else (
      match i
      case 80 => 0x7980d163_cf5b81a8 case 81 => -0x1fb8f59c_1942a94e case 82 => 0x570f09ea_a7ea763b case 83 => 0x5fa60692_a46151d7
      case 84 => 0x6c07a2c2_6a8346c1 case 85 => -0x1be3a42e_73a81789 case _ => -0x14705283_80797f5e
    )
  }

  function Fine(i: nat): int {
    Significand(i) * TWO64 + Tail(i)
  }

  /** The entry is the power rounded to nearest, and suits the exponents it is chosen for, with a millionth to spare. */
  predicate RowOk(i: nat) {
    && -(TWO63 as int) <= Tail(i) <= TWO63 - 0x2000_0000_0000
    && TWO63 <= Significand(i) < TWO64
    && (64 + Exponent(i)) * 30102999566398114 > (8 * i - 348) * 100000000000000000 + 100000000000
    && (36 + Exponent(i)) * 30102999566398114 <= (8 * i - 356) * 100000000000000000 - 100000000000
    && ((37 + Exponent(i)) * 30102999566398114 <= (8 * i - 356) * 100000000000000000 - 100000000000 || Significand(i) < 100000000 * 0x20_0000_0000)
  }

  /** Neighbours in the table are 10^8 apart, rounded down on the way from 10^4, which is exact. */
  predicate StepOk(i: nat) {
    var n := Exponent(i + 1) - Exponent(i);
    && 26 <= n <= 27
    && var p := if n == 26 then 0x400_0000 else 0x800_0000;
       if i < 44 then Fine(i) * 100000000 <= Fine(i + 1) * p < (Fine(i) + 1) * 100000000
       else Fine(i + 1) * p <= Fine(i) * 100000000 < (Fine(i + 1) + 1) * p
  }

  lemma Rows0()
    ensures RowOk(0) && RowOk(1) && RowOk(2) && RowOk(3) && RowOk(4) && RowOk(5) && RowOk(6) && RowOk(7) && RowOk(8) && RowOk(9)
  {
  }

  lemma Steps0()
    ensures StepOk(0) && StepOk(1) && StepOk(2) && StepOk(3) && StepOk(4) && StepOk(5) && StepOk(6) && StepOk(7) && StepOk(8) && StepOk(9)
  {
  }

  lemma Rows10()
    ensures RowOk(10) && RowOk(11) && RowOk(12) && RowOk(13) && RowOk(14) && RowOk(15) && RowOk(16) && RowOk(17) && RowOk(18) && RowOk(19)
  {
  }

  lemma Steps10()
    ensures StepOk(10) && StepOk(11) && StepOk(12) && StepOk(13) && StepOk(14) && StepOk(15) && StepOk(16) && StepOk(17) && StepOk(18) && StepOk(19)
  {
  }

  lemma Rows20()
    ensures RowOk(20) && RowOk(21) && RowOk(22) && RowOk(23) && RowOk(24) && RowOk(25) && RowOk(26) && RowOk(27) && RowOk(28) && RowOk(29)
  {
  }

  lemma Steps20()
    ensures StepOk(20) && StepOk(21) && StepOk(22) && StepOk(23) && StepOk(24) && StepOk(25) && StepOk(26) && StepOk(27) && StepOk(28) && StepOk(29)
  {
  }

  lemma Rows30()
    ensures RowOk(30) && RowOk(31) && RowOk(32) && RowOk(33) && RowOk(34) && RowOk(35) && RowOk(36) && RowOk(37) && RowOk(38) && RowOk(39)
  {
  }

  lemma Steps30()
    ensures StepOk(30) && StepOk(31) && StepOk(32) && StepOk(33) && StepOk(34) && StepOk(35) && StepOk(36) && StepOk(37) && StepOk(38) && StepOk(39)
  {
  }

  lemma Rows40()
    ensures RowOk(40) && RowOk(41) && RowOk(42) && RowOk(43) && RowOk(44) && RowOk(45) && RowOk(46) && RowOk(47) && RowOk(48) && RowOk(49)
  {
  }

  lemma Steps40()
    ensures StepOk(40) && StepOk(41) && StepOk(42) && StepOk(43) && StepOk(44) && StepOk(45) && StepOk(46) && StepOk(47) && StepOk(48) && StepOk(49)
  {
  }

  lemma Rows50()
    ensures RowOk(50) && RowOk(51) && RowOk(52) && RowOk(53) && RowOk(54) && RowOk(55) && RowOk(56) && RowOk(57) && RowOk(58) && RowOk(59)
  {
  }

  lemma Steps50()
    ensures StepOk(50) && StepOk(51) && StepOk(52) && StepOk(53) && StepOk(54) && StepOk(55) && StepOk(56) && StepOk(57) && StepOk(58) && StepOk(59)
  {
  }

  lemma Rows60()
    ensures RowOk(60) && RowOk(61) && RowOk(62) && RowOk(63) && RowOk(64) && RowOk(65) && RowOk(66) && RowOk(67) && RowOk(68) && RowOk(69)
  {
  }

  lemma Steps60()
    ensures StepOk(60) && StepOk(61) && StepOk(62) && StepOk(63) && StepOk(64) && StepOk(65) && StepOk(66) && StepOk(67) && StepOk(68) && StepOk(69)
  {
  }

  lemma Rows70()
    ensures RowOk(70) && RowOk(71) && RowOk(72) && RowOk(73) && RowOk(74) && RowOk(75) && RowOk(76) && RowOk(77) && RowOk(78) && RowOk(79)
  {
  }

  lemma Steps70()
    ensures StepOk(70) && StepOk(71) && StepOk(72) && StepOk(73) && StepOk(74) && StepOk(75) && StepOk(76) && StepOk(77) && StepOk(78) && StepOk(79)
  {
  }

  lemma Rows80()
    ensures RowOk(80) && RowOk(81) && RowOk(82) && RowOk(83) && RowOk(84) && RowOk(85) && RowOk(86)
  {
  }

  lemma Steps80()
    ensures StepOk(80) && StepOk(81) && StepOk(82) && StepOk(83) && StepOk(84) && StepOk(85)
  {
  }

  lemma RowsFrom0(i: nat)
    requires i < 30
    ensures RowOk(i)
  {
    hide *;
    if i < 10 {
      Rows0();
    } else if i < 20 {
      Rows10();
    } else {
      Rows20();
    }
  }

  lemma RowsFrom30(i: nat)
    requires 30 <= i < 60
    ensures RowOk(i)
  {
    hide *;
    if i < 40 {
      Rows30();
    } else if i < 50 {
      Rows40();
    } else {
      Rows50();
    }
  }

  lemma RowsFrom60(i: nat)
    requires 60 <= i < 87
    ensures RowOk(i)
  {
    hide *;
    if i < 70 {
      Rows60();
    } else if i < 80 {
      Rows70();
    } else {
      Rows80();
    }
  }

  lemma AllRows(i: nat)
    requires i < 87
    ensures RowOk(i)
  {
    hide *;
    if i < 30 {
      RowsFrom0(i);
    } else if i < 60 {
      RowsFrom30(i);
    } else {
      RowsFrom60(i);
    }
  }

  lemma StepsFrom0(i: nat)
    requires i < 30
    ensures StepOk(i)
  {
    hide *;
    if i < 10 {
      Steps0();
    } else if i < 20 {
      Steps10();
    } else {
      Steps20();
    }
  }

  lemma StepsFrom30(i: nat)
    requires 30 <= i < 60
    ensures StepOk(i)
  {
    hide *;
    if i < 40 {
      Steps30();
    } else if i < 50 {
      Steps40();
    } else {
      Steps50();
    }
  }

  lemma StepsFrom60(i: nat)
    requires 60 <= i < 86
    ensures StepOk(i)
  {
    hide *;
    if i < 70 {
      Steps60();
    } else if i < 80 {
      Steps70();
    } else {
      Steps80();
    }
  }

  lemma AllSteps(i: nat)
    requires i < 86
    ensures StepOk(i)
  {
    hide *;
    if i < 30 {
      StepsFrom0(i);
    } else if i < 60 {
      StepsFrom30(i);
    } else {
      StepsFrom60(i);
    }
  }
}
