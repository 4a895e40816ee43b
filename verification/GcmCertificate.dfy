// Constants that certify the irreducibility of x^128 + x^7 + x^2 + x + 1,
// each checked here: the orbit of x under squaring, which returns to x after
// 128 steps, and a left inverse of v -> v^2 + v up to the constant term.
module GcmCertificate {
  import opened Gf128
  import opened GcmSquare

  // ----- The orbit of x -----

  // w is the square of v, and next in the orbit of x.
  predicate Next(v: bv128, w: bv128) { Square(v) == w }

  lemma Orbit0()
    ensures Next(0x40000000_00000000_00000000_00000000, 0x20000000_00000000_00000000_00000000)
    ensures Next(0x20000000_00000000_00000000_00000000, 0x08000000_00000000_00000000_00000000)
    ensures Next(0x08000000_00000000_00000000_00000000, 0x00800000_00000000_00000000_00000000)
    ensures Next(0x00800000_00000000_00000000_00000000, 0x00008000_00000000_00000000_00000000)
    ensures Next(0x00008000_00000000_00000000_00000000, 0x00000000_80000000_00000000_00000000)
    ensures Next(0x00000000_80000000_00000000_00000000, 0x00000000_00000000_80000000_00000000)
    ensures Next(0x00000000_00000000_80000000_00000000, 0xe1000000_00000000_00000000_00000000)
    ensures Next(0xe1000000_00000000_00000000_00000000, 0xa8020000_00000000_00000000_00000000)
  {
  }

  lemma Orbit8()
    ensures Next(0xa8020000_00000000_00000000_00000000, 0x88800008_00000000_00000000_00000000)
    ensures Next(0x88800008_00000000_00000000_00000000, 0x80808000_00000080_00000000_00000000)
    ensures Next(0x80808000_00000080_00000000_00000000, 0x80008000_80000000_00000000_00008000)
    ensures Next(0x80008000_80000000_00000000_00008000, 0x80000000_80000000_80000000_e1000000)
    ensures Next(0x80000000_80000000_80000000_e1000000, 0x61000000_00000000_57538400_00000000)
    ensures Next(0x61000000_00000000_57538400_00000000, 0x13f3efc9_75384000_00000000_00000000)
    ensures Next(0x13f3efc9_75384000_00000000_00000000, 0x020aaa0a_a8aaa082_2a220a80_20000000)
    ensures Next(0x020aaa0a_a8aaa082_2a220a80_20000000, 0x0ef71e96_9867f188_86908888_88008008)
  {
  }

  lemma Orbit16()
    ensures Next(0x0ef71e96_9867f188_86908888_88008008, 0xe19e18ae_e34963c9_6361282a_4b028061)
    ensures Next(0xe19e18ae_e34963c9_6361282a_4b028061, 0x785720fb_88718657_80a6b48c_d90a96d1)
    ensures Next(0x785720fb_88718657_80a6b48c_d90a96d1, 0x2d88cd0c_b4ac0b53_1aa6aeed_729aa8ed)
    ensures Next(0x2d88cd0c_b4ac0b53_1aa6aeed_729aa8ed, 0x9d417fa6_1f65872a_7bfa7acb_ff7bf580)
    ensures Next(0x9d417fa6_1f65872a_7bfa7acb_ff7bf580, 0xb79a6039_0f914184_42aac91a_c0c52d88)
    ensures Next(0xb79a6039_0f914184_42aac91a_c0c52d88, 0xb2647d77_e1a28de9_c9ea5b79_eac8a5c1)
    ensures Next(0xb2647d77_e1a28de9_c9ea5b79_eac8a5c1, 0xb5a27b9f_018a8b1c_fbbd41a9_6f89b5c1)
    ensures Next(0xb5a27b9f_018a8b1c_fbbd41a9_6f89b5c1, 0xb812f046_d6c9e958_b286b56a_e8251fe3)
  {
  }

  lemma Orbit24()
    ensures Next(0xb812f046_d6c9e958_b286b56a_e8251fe3, 0x9c32f33e_16afd297_6599aea9_6fd221dd)
    ensures Next(0x9c32f33e_16afd297_6599aea9_6fd221dd, 0x22432c6e_c1cdb55a_b0ac8660_bc1bdc34)
    ensures Next(0x22432c6e_c1cdb55a_b0ac8660_bc1bdc34, 0x941ccfc3_a9964ef8_4c4fe3ca_c43f6f24)
    ensures Next(0x941ccfc3_a9964ef8_4c4fe3ca_c43f6f24, 0xca397a34_a3f7eda5_41facf68_c22c70a8)
    ensures Next(0xca397a34_a3f7eda5_41facf68_c22c70a8, 0x98cb5ab9_e31ce891_5144b4e3_dd7667d3)
    ensures Next(0x98cb5ab9_e31ce891_5144b4e3_dd7667d3, 0x436f1cf2_8e241ddf_e614f342_cee58ccb)
    ensures Next(0x436f1cf2_8e241ddf_e614f342_cee58ccb, 0x0d447b16_96790646_493f8f4b_277b3b06)
    ensures Next(0x0d447b16_96790646_493f8f4b_277b3b06, 0x54a0a960_1f5eee84_180dcbba_9950b41e)
  {
  }

  lemma Orbit32()
    ensures Next(0x54a0a960_1f5eee84_180dcbba_9950b41e, 0x4de588da_952e507b_f0cc9d6c_4404c373)
    ensures Next(0x4de588da_952e507b_f0cc9d6c_4404c373, 0x0e5e71bb_22de5001_fa5a4890_bb4d8b53)
    ensures Next(0x0e5e71bb_22de5001_fa5a4890_bb4d8b53, 0x2ebb0983_02a3680e_e4700e32_07ecafcb)
    ensures Next(0x2ebb0983_02a3680e_e4700e32_07ecafcb, 0x25e8ff5e_0055dd90_103d8b83_87440d04)
    ensures Next(0x25e8ff5e_0055dd90_103d8b83_87440d04, 0x7b26a5ce_8f4657a5_7535ce5a_e2784638)
    ensures Next(0x7b26a5ce_8f4657a5_7535ce5a_e2784638, 0x1f65c187_95b5cb83_47f4051d_1a5cd557)
    ensures Next(0x1f65c187_95b5cb83_47f4051d_1a5cd557, 0xb07728ce_e0394774_4549a13f_3a757ffb)
    ensures Next(0xb07728ce_e0394774_4549a13f_3a757ffb, 0x4853d688_639329e8_717b2f6d_d12a2a18)
  {
  }

  lemma Orbit40()
    ensures Next(0x4853d688_639329e8_717b2f6d_d12a2a18, 0x15579332_38ec620a_36cd08f5_167dbbe5)
    ensures Next(0x15579332_38ec620a_36cd08f5_167dbbe5, 0x9908abb0_46ebdee7_cd32cdae_007043e3)
    ensures Next(0x9908abb0_46ebdee7_cd32cdae_007043e3, 0xa130c91a_4110a1c7_70289d5e_9ae5eb77)
    ensures Next(0xa130c91a_4110a1c7_70289d5e_9ae5eb77, 0x377e04f1_42dcfd9b_9269c56b_9bbe01cb)
    ensures Next(0x377e04f1_42dcfd9b_9269c56b_9bbe01cb, 0x12880c1a_5d5b58be_5660dae3_faa1df26)
    ensures Next(0x12880c1a_5d5b58be_5660dae3_faa1df26, 0x555ae6d0_da8bc5d5_6299dd99_7c90508e)
    ensures Next(0x555ae6d0_da8bc5d5_6299dd99_7c90508e, 0x78dcd0ee_f6368466_1385220e_9be643f5)
    ensures Next(0x78dcd0ee_f6368466_1385220e_9be643f5, 0xbf81d79b_681eb87f_1840494e_e86d68c7)
  {
  }

  lemma Orbit48()
    ensures Next(0xbf81d79b_681eb87f_1840494e_e86d68c7, 0x0367b842_9a883e1d_af313422_7831f3df)
    ensures Next(0x0367b842_9a883e1d_af313422_7831f3df, 0x6566f1bd_032c6e16_a7bd8d17_5a714cb2)
    ensures Next(0x6566f1bd_032c6e16_a7bd8d17_5a714cb2, 0xdb271066_8fd84d13_ef212d77_9431aeb2)
    ensures Next(0xdb271066_8fd84d13_ef212d77_9431aeb2, 0x692ed239_88cad9c9_b616ef17_4b65be90)
    ensures Next(0x692ed239_88cad9c9_b616ef17_4b65be90, 0xc4205b1a_258cdd33_6c2c02e3_8ac11206)
    ensures Next(0xc4205b1a_258cdd33_6c2c02e3_8ac11206, 0xfa0946c9_6284c5d5_7dcd49e3_25281a3c)
    ensures Next(0xfa0946c9_6284c5d5_7dcd49e3_25281a3c, 0xef061d18_dc8af3df_b2234ad1_a349bf6f)
    ensures Next(0xef061d18_dc8af3df_b2234ad1_a349bf6f, 0xce981e35_ae0dc847_c9bd2c2a_c24a402e)
  {
  }

  lemma Orbit56()
    ensures Next(0xce981e35_ae0dc847_c9bd2c2a_c24a402e, 0x15aaeace_c86144dd_41e6280d_88c02eed)
    ensures Next(0x15aaeace_c86144dd_41e6280d_88c02eed, 0xace9dbee_f679a072_8561f142_2ee72528)
    ensures Next(0xace9dbee_f679a072_8561f142_2ee72528, 0x699b5ad1_f25d14e6_b4efade7_522be0f9)
    ensures Next(0x699b5ad1_f25d14e6_b4efade7_522be0f9, 0x2226150e_1942b167_45c23c5e_41707c1e)
    ensures Next(0x2226150e_1942b167_45c23c5e_41707c1e, 0x5cd31566_1f6f7bbb_6ac191dc_bf0f6b79)
    ensures Next(0x5cd31566_1f6f7bbb_6ac191dc_bf0f6b79, 0xf2176b49_64a57635_aeeafc7e_c8362bbc)
    ensures Next(0xf2176b49_64a57635_aeeafc7e_c8362bbc, 0x354f8595_ec875581_a1818580_74d4726f)
    ensures Next(0x354f8595_ec875581_a1818580_74d4726f, 0x6f9945a9_e519a722_9d4c1ad6_57f8a686)
  {
  }

  lemma Orbit64()
    ensures Next(0x6f9945a9_e519a722_9d4c1ad6_57f8a686, 0xa6547e1b_63494270_c3d302b7_670cb93e)
    ensures Next(0xa6547e1b_63494270_c3d302b7_670cb93e, 0x3dc56ce9_bea6fe2b_ca6ff45b_8c7ea343)
    ensures Next(0x3dc56ce9_bea6fe2b_ca6ff45b_8c7ea343, 0x292586a6_284cd3aa_ff71fd2b_15b5a4c7)
    ensures Next(0x292586a6_284cd3aa_ff71fd2b_15b5a4c7, 0x562ae9f5_d02642d4_9f3f080f_892211fd)
    ensures Next(0x562ae9f5_d02642d4_9f3f080f_892211fd, 0x56f0d1c8_7c63aaf6_97e28236_338ff22e)
    ensures Next(0x56f0d1c8_7c63aaf6_97e28236_338ff22e, 0xac39a95e_530cbd22_77395dde_8852b4ef)
    ensures Next(0xac39a95e_530cbd22_77395dde_8852b4ef, 0x37e9d3f4_379c3cbb_93eb3b6a_760e9f8c)
    ensures Next(0x37e9d3f4_379c3cbb_93eb3b6a_760e9f8c, 0x9823eb3e_3b72089f_2fc8d277_b8f0bf53)
  {
  }

  lemma Orbit72()
    ensures Next(0x9823eb3e_3b72089f_2fc8d277_b8f0bf53, 0x766c05ab_72402f49_32fffedc_ecc06d63)
    ensures Next(0x766c05ab_72402f49_32fffedc_ecc06d63, 0xdd9aeca0_00210297_bd81b940_3e20d2df)
    ensures Next(0xdd9aeca0_00210297_bd81b940_3e20d2df, 0xc444a78b_c0d63440_0d435612_dac2483a)
    ensures Next(0xc444a78b_c0d63440_0d435612_dac2483a, 0xbcdadc6d_27d8d300_6a2b6b66_22812d7b)
    ensures Next(0xbcdadc6d_27d8d300_6a2b6b66_22812d7b, 0x4637bc74_001c8ac4_56345383_28c0f138)
    ensures Next(0x4637bc74_001c8ac4_56345383_28c0f138, 0x1bda5786_f1695f2d_9af1dbe0_545f2955)
    ensures Next(0x1bda5786_f1695f2d_9af1dbe0_545f2955, 0x7669665f_7c02c378_91fe5392_f858b75d)
    ensures Next(0x7669665f_7c02c378_91fe5392_f858b75d, 0x5e277881_43e15420_ee953b2d_4cabc59e)
  {
  }

  lemma Orbit80()
    ensures Next(0x5e277881_43e15420_ee953b2d_4cabc59e, 0x998fba95_e3f81ac8_dc9307fe_6f5b2e53)
    ensures Next(0x998fba95_e3f81ac8_dc9307fe_6f5b2e53, 0xa2b72223_1ebd8221_ce8e45a8_984fcb49)
    ensures Next(0xa2b72223_1ebd8221_ce8e45a8_984fcb49, 0xb7973bfd_607323fb_e0cdb236_8da4a4a0)
    ensures Next(0xb7973bfd_607323fb_e0cdb236_8da4a4a0, 0x5d7a5bb0_2210b700_99da0122_a722059a)
    ensures Next(0x5d7a5bb0_2210b700_99da0122_a722059a, 0xdce474a3_3289001e_f72dd81e_9a11266b)
    ensures Next(0xdce474a3_3289001e_f72dd81e_9a11266b, 0x8c6972ea_34058b59_b8639305_8a266414)
    ensures Next(0x8c6972ea_34058b59_b8639305_8a266414, 0x1c551edf_5c813cb3_2fcf1e04_e6e2613e)
    ensures Next(0x1c551edf_5c813cb3_2fcf1e04_e6e2613e, 0x60c42fb6_d5fbf292_b5c6075c_2cf30349)
  {
  }

  lemma Orbit88()
    ensures Next(0x60c42fb6_d5fbf292_b5c6075c_2cf30349, 0x22a7bd56_589f6535_eceb3e53_3e052eaa)
    ensures Next(0x22a7bd56_589f6535_eceb3e53_3e052eaa, 0xc3a11f96_13e149e1_bbc3d291_e2e5b5dd)
    ensures Next(0xc3a11f96_13e149e1_bbc3d291_e2e5b5dd, 0xdafac54f_4c6070af_51546f69_082db61c)
    ensures Next(0xdafac54f_4c6070af_51546f69_082db61c, 0xe9cf1574_d6a6c218_a44126ca_02a2dbf7)
    ensures Next(0xe9cf1574_d6a6c218_a44126ca_02a2dbf7, 0xcd02d8e9_8804a38f_b2267736_6a204261)
    ensures Next(0xcd02d8e9_8804a38f_b2267736_6a204261, 0xaa301e2e_c7617120_e63f1e30_b044a6f9)
    ensures Next(0xaa301e2e_c7617120_e63f1e30_b044a6f9, 0xb9e65740_d5fb553c_4cbe107a_85248c36)
    ensures Next(0xb9e65740_d5fb553c_4cbe107a_85248c36, 0xdebb046b_71ae153b_531960a2_83fb4702)
  {
  }

  lemma Orbit96()
    ensures Next(0xdebb046b_71ae153b_531960a2_83fb4702, 0x85411dec_b270c794_db0fc890_ae57de84)
    ensures Next(0x85411dec_b270c794_db0fc890_ae57de84, 0x2a8ab4d6_0f034a24_65cf41f1_ae393318)
    ensures Next(0x2a8ab4d6_0f034a24_65cf41f1_ae393318, 0x3ee39d1c_6663f2ff_6b6d5d7c_a9119f45)
    ensures Next(0x3ee39d1c_6663f2ff_6b6d5d7c_a9119f45, 0xaa9c0a80_7dbcf3ad_87daaf8d_cc5846d1)
    ensures Next(0xaa9c0a80_7dbcf3ad_87daaf8d_cc5846d1, 0x8fb58c8b_ff4cb5da_373bf185_927c0265)
    ensures Next(0x8fb58c8b_ff4cb5da_373bf185_927c0265, 0x1b83535a_c077e5b1_8c2005ad_ca2c84e3)
    ensures Next(0x1b83535a_c077e5b1_8c2005ad_ca2c84e3, 0x197bce1a_22310942_bdaf34e3_091a1d5f)
    ensures Next(0x197bce1a_22310942_bdaf34e3_091a1d5f, 0x6464014e_790495d5_9cea8d69_13dcdf18)
  {
  }

  lemma Orbit104()
    ensures Next(0x6464014e_790495d5_9cea8d69_13dcdf18, 0xca7dbf9f_f1d8d21a_ad0b4e3d_18327547)
    ensures Next(0xca7dbf9f_f1d8d21a_ad0b4e3d_18327547, 0xc5eaee4e_263ddfe4_6d67af1a_87e7fefd)
    ensures Next(0xc5eaee4e_263ddfe4_6d67af1a_87e7fefd, 0x00205aed_936cf7c3_f91d09c7_a2a92c2e)
    ensures Next(0x00205aed_936cf7c3_f91d09c7_a2a92c2e, 0xb8968f5e_e66af5d7_b914d752_20e3eecd)
    ensures Next(0xb8968f5e_e66af5d7_b914d752_20e3eecd, 0xf07e0594_1a5bcd62_b638ffd5_e9a52bb0)
    ensures Next(0xf07e0594_1a5bcd62_b638ffd5_e9a52bb0, 0x46a277dd_d4228cdf_113a49a1_6a5e509c)
    ensures Next(0x46a277dd_d4228cdf_113a49a1_6a5e509c, 0x532f0173_0288c9b1_109f231b_eb6440f7)
    ensures Next(0x532f0173_0288c9b1_109f231b_eb6440f7, 0xab26eafa_da1fbd62_43b422e8_d8c25ee3)
  {
  }

  lemma Orbit112()
    ensures Next(0xab26eafa_da1fbd62_43b422e8_d8c25ee3, 0x4aef7084_e6966d39_78addbe4_a1b1af55)
    ensures Next(0x4aef7084_e6966d39_78addbe4_a1b1af55, 0x83354760_3428c348_073beabf_4366e57d)
    ensures Next(0x83354760_3428c348_073beabf_4366e57d, 0x16b7d35a_6395d440_e66daae6_2761d18e)
    ensures Next(0x16b7d35a_6395d440_e66daae6_2761d18e, 0xb9eeeca0_89f5e5ee_762f6071_fce745d7)
    ensures Next(0xb9eeeca0_89f5e5ee_762f6071_fce745d7, 0x35c8f66c_4af0bdd7_d08f3d47_4459b659)
    ensures Next(0x35c8f66c_4af0bdd7_d08f3d47_4459b659, 0x36ee4154_7366d4d5_ccf0d126_e200c90c)
    ensures Next(0x36ee4154_7366d4d5_ccf0d126_e200c90c, 0xa3313c7c_fac5a806_ad543828_7b8226fb)
    ensures Next(0xa3313c7c_fac5a806_ad543828_7b8226fb, 0x9de8f5fe_47d52451_9fb0d52c_96a68410)
  {
  }

  lemma Orbit120()
    ensures Next(0x9de8f5fe_47d52451_9fb0d52c_96a68410, 0x60f29014_70dd6061_82981d04_b9186186)
    ensures Next(0x60f29014_70dd6061_82981d04_b9186186, 0xa5ae586d_815ec618_867625c7_1e534d34)
    ensures Next(0xa5ae586d_815ec618_867625c7_1e534d34, 0x1994ed4a_7cab35d7_57514961_0cb2cb2c)
    ensures Next(0x1994ed4a_7cab35d7_57514961_0cb2cb2c, 0x49f36de7_140092db_ae792410_c38e38e3)
    ensures Next(0x49f36de7_140092db_ae792410_c38e38e3, 0x356dcf3c_a28aebae_db6d75d7_df7d75d7)
    ensures Next(0x356dcf3c_a28aebae_db6d75d7_df7d75d7, 0x5aa28a28_51451451_86186186_59659659)
    ensures Next(0x5aa28a28_51451451_86186186_59659659, 0x25b6db6d_b6db6db6_49249249_24924924)
    ensures Next(0x25b6db6d_b6db6db6_49249249_24924924, 0x40000000_00000000_00000000_00000000)
  {
  }

  // ----- The left inverse -----

  function Pick(i: bv8, a0: bv128, a1: bv128, a2: bv128, a3: bv128, a4: bv128, a5: bv128, a6: bv128, a7: bv128): bv128 {
    if i < 4 then
      if i < 2 then if i == 0 then a0 else a1
      else if i == 2 then a2 else a3
    else
      if i < 6 then if i == 4 then a4 else a5
      else if i == 6 then a6 else a7
  }

  // The image of x^i.
  function InverseOf(i: bv8): bv128 {
    if i < 64 then
      if i < 32 then
        if i < 16 then
          if i < 8 then
            Pick(i - 0,
              0x10d04d25_f93556e6_9f58ce2f_8d035a94, 0x202f566e_f59a9949_91d0e977_a9aa5ba7,
              0x602f566e_f59a9949_91d0e977_a9aa5ba7, 0x3045202c_ccefc1ee_67fd0ac2_e3641972,
              0x402f566e_f59a9949_91d0e977_a9aa5ba7, 0x5672e0c1_d328e3be_0d2c5beb_59e57554,
              0x2045202c_ccefc1ee_67fd0ac2_e3641972, 0x187f9b4b_8cafcfaf_8e882758_24a90133)
          else
            Pick(i - 8,
              0x482f566e_f59a9949_91d0e977_a9aa5ba7, 0x22da1351_7461d3ee_69739a8b_e16c1972,
              0x5272e0c1_d328e3be_0d2c5beb_59e57554, 0x6aff5560_3cd3fcef_f55228f5_56d54755,
              0x2245202c_ccefc1ee_67fd0ac2_e3641972, 0x46fc0602_5397fc91_bb49eab3_3e4cf467,
              0x197f9b4b_8cafcfaf_8e882758_24a90133, 0x646dca2b_e3d6cc87_d093e2fc_4c0f4ad5)
        else
          if i < 24 then
            Pick(i - 16,
              0x48af566e_f59a9949_91d0e977_a9aa5ba7, 0x5cea2fd5_9105659e_2d1ccaeb_5d2c7d54,
              0x229a1351_7461d3ee_69739a8b_e16c1972, 0x3f46a4c4_1f7d3958_74f4e33b_9d331780,
              0x5252e0c1_d328e3be_0d2c5beb_59e57554, 0x31270152_4d961730_583bcf84_4c342240,
              0x6aef5560_3cd3fcef_f55228f5_56d54755, 0x144559bb_6c9ffcd7_bc4c239c_f48626f3)
          else
            Pick(i - 24,
              0x224d202c_ccefc1ee_67fd0ac2_e3641972, 0x1a24eaea_541cab0f_9092b011_69688933,
              0x46f80602_5397fc91_bb49eab3_3e4cf467, 0x2c14dba7_1e26fe96_4f314b94_33eb3eb2,
              0x197d9b4b_8cafcfaf_8e882758_24a90133, 0x2561da58_536a903f_e562896a_e4899333,
              0x646cca2b_e3d6cc87_d093e2fc_4c0f4ad5, 0x41d77800_d619af28_38dab35b_297373a6)
      else
        if i < 48 then
          if i < 40 then
            Pick(i - 32,
              0x48afd66e_f59a9949_91d0e977_a9aa5ba7, 0x5ce7c3e3_968e47f6_2e5390ab_45fe70d4,
              0x5cea6fd5_9105659e_2d1ccaeb_5d2c7d54, 0x428019a1_1caacb88_24c82412_64b2fba6,
              0x229a3351_7461d3ee_69739a8b_e16c1972, 0x258e6f54_b84bf6f7_ef54f70e_70ef2ef3,
              0x3f46b4c4_1f7d3958_74f4e33b_9d331780, 0x1af09299_21b9589f_9fb368dc_e89d2373)
          else
            Pick(i - 40,
              0x5252e8c1_d328e3be_0d2c5beb_59e57554, 0x3bdc8ad6_04f36599_e246fae8_99f68fc1,
              0x31270552_4d961730_583bcf84_4c342240, 0x038e6217_d7e479d8_10955456_9546afc0,
              0x6aef5760_3cd3fcef_f55228f5_56d54755, 0x2bd77bb3_64ab6b3f_c733d887_5e039333,
              0x144558bb_6c9ffcd7_bc4c239c_f48626f3, 0x698e6217_d7fb8627_ef6aa903_c013fa95)
        else
          if i < 56 then
            Pick(i - 48,
              0x224d20ac_ccefc1ee_67fd0ac2_e3641972, 0x21ce3a83_c07704de_74dad50f_0d583b32,
              0x1a24eaaa_541cab0f_9092b011_69688933, 0x56f3167f_e31312df_9eb885b8_69165d55,
              0x46f80622_5397fc91_bb49eab3_3e4cf467, 0x77dcb1c6_0e3ad1c9_e2190477_682adba7,
              0x2c14dbb7_1e26fe96_4f314b94_33eb3eb2, 0x7348a7e5_645f92d0_76e747a9_d181ec26)
          else
            Pick(i - 56,
              0x197d9b43_8cafcfaf_8e882758_24a90133, 0x2cfbb440_9945161e_45d21862_e0409b32,
              0x2561da5c_536a903f_e562896a_e4899333, 0x36e717e0_2724b8f1_d1527df7_3b8e8241,
              0x646cca29_e3d6cc87_d093e2fc_4c0f4ad5, 0x7adc3b34_04788e11_d4cfd6f8_f5447467,
              0x41d77801_d619af28_38dab35b_297373a6, 0x04a2ade4_2a1db559_927495c4_d4e62fc1)
    else
      if i < 96 then
        if i < 80 then
          if i < 72 then
            Pick(i - 64,
              0x48afd66e_759a9949_91d0e977_a9aa5ba7, 0x329f337d_b88e1200_4e8e9049_02080000,
              0x5ce7c3e3_d68e47f6_2e5390ab_45fe70d4, 0x36e9eb0b_e64d6b99_d3ec2e5e_502bb781,
              0x5cea6fd5_b105659e_2d1ccaeb_5d2c7d54, 0x4622ba58_b211bb21_b69fb337_b1785627,
              0x428019a1_0caacb88_24c82412_64b2fba6, 0x049a065c_d7758d51_96f0e357_8d383201)
          else
            Pick(i - 72,
              0x229a3351_7c61d3ee_69739a8b_e16c1972, 0x55aabdbe_ec28a207_8079924a_4cd2f295,
              0x258e6f54_bc4bf6f7_ef54f70e_70ef2ef3, 0x7986f6af_cfc951e9_cb9188c1_a5beebe7,
              0x3f46b4c4_1d7d3958_74f4e33b_9d331780, 0x2f76850d_57908a5e_54a716d4_6cf0bb32,
              0x1af09299_20b9589f_9fb368dc_e89d2373, 0x489a0b11_781e0c11_96cc4fde_bc394c27)
        else
          if i < 88 then
            Pick(i - 80,
              0x5252e8c1_d3a8e3be_0d2c5beb_59e57554, 0x072ccff3_fd3d1861_82e1ce9a_41041041,
              0x3bdc8ad6_04b36599_e246fae8_99f68fc1, 0x5c33b52f_8947e946_2158188b_7248d294,
              0x31270552_4db61730_583bcf84_4c342240, 0x79880aa6_66d696d9_c9266228_82fff1e7,
              0x038e6217_d7f479d8_10955456_9546afc0, 0x285aabc6_79b16ad7_d6c2852a_bfdb1eb3)
          else
            Pick(i - 88,
              0x6aef5760_3cdbfcef_f55228f5_56d54755, 0x26d44eb7_7ddd535f_f0b1c738_de72bb33,
              0x2bd77bb3_64af6b3f_c733d887_5e039333, 0x3cfddc25_f2ae2df8_6391fd8d_3387a7c0,
              0x144558bb_6c9dfcd7_bc4c239c_f48626f3, 0x457534e8_2f16f649_aa2d862c_91005ba7,
              0x698e6217_d7fa8627_ef6aa903_c013fa95, 0x4bf8b9d3_3b8f3819_8de17cde_e54751e7)
      else
        if i < 112 then
          if i < 104 then
            Pick(i - 96,
              0x224d20ac_ccef41ee_67fd0ac2_e3641972, 0x634efa83_6deeebf6_50dae654_442b4894,
              0x21ce3a83_c07744de_74dad50f_0d583b32, 0x4bf6a9a1_f02e1f69_8fec4b1a_74166be7,
              0x1a24eaaa_541c8b0f_9092b011_69688933, 0x6462e2cc_93c28627_d2d0526e_0d66c2d5,
              0x56f3167f_e31302df_9eb885b8_69165d55, 0x79b07bef_edd921e9_cd751ec1_8ebeebe7)
          else
            Pick(i - 104,
              0x46f80622_5397f491_bb49eab3_3e4cf467, 0x701c741c_bd9fc8b0_6b94eadf_79b8c426,
              0x77dcb1c6_0e3ad5c9_e2190477_682adba7, 0x044eaa59_bd8819a9_99287fa5_ed58ad81,
              0x2c14dbb7_1e26fc96_4f314b94_33eb3eb2, 0x602105ae_977251e6_4834e0c2_dd2d5a94,
              0x7348a7e5_645f93d0_76e747a9_d181ec26, 0x645919a4_b35879f7_d7a68d71_cb5770d5)
        else
          if i < 120 then
            Pick(i - 112,
              0x197d9b43_8cafcf2f_8e882758_24a90133, 0x00000d94_d9da1808_0030c4db_699e5dc0,
              0x2cfbb440_9945165e_45d21862_e0409b32, 0x099a6e1c_ca2f8641_a0b09108_04c90841,
              0x2561da5c_536a901f_e562896a_e4899333, 0x5f86cdbc_744e28fe_3430f49d_df071154,
              0x36e717e0_2724b8e1_d1527df7_3b8e8241, 0x51eae8be_2fe60df6_1bf9191d_e1788d94)
          else
            Pick(i - 120,
              0x646cca29_e3d6cc8f_d093e2fc_4c0f4ad5, 0x5f67891c_31b7edb0_3c86875f_90384d1c,
              0x7adc3b34_04788e15_d4cfd6f8_f5447467, 0x36dc3b34_04788e15_d4cfd6f8_f5447461,
              0x41d77801_d619af2a_38dab35b_297373a6, 0x35bd0e43_ef6cf78d_cef750ee_63bd3171,
              0x04a2ade4_2a1db558_927495c4_d4e62fc1, 0x00000000_00000000_00000000_00000000)
  }

  // That the image of x^(2i) + x^i is x^i.
  predicate InvertsLow(i: bv8)
    requires 0 < i < 64
  {
    Add(InverseOf(2 * i), InverseOf(i)) == PowX(i)
  }

  // The same for i = 64 + j and k = 2j, where x^(2i) is reduced by
  // x^128 = 1 + x + x^2 + x^7.
  predicate InvertsHigh(k: bv8, i: bv8)
    requires k <= 120 && i < 128
  {
    Add(Add(Add(InverseOf(k), InverseOf(k + 1)), Add(InverseOf(k + 2), InverseOf(k + 7))), InverseOf(i)) == PowX(i)
  }

  lemma InvertsLowFrom1()
    ensures InvertsLow(1) && InvertsLow(2) && InvertsLow(3) && InvertsLow(4) && InvertsLow(5) && InvertsLow(6)
    ensures InvertsLow(7) && InvertsLow(8)
  {
  }

  lemma InvertsLowFrom9()
    ensures InvertsLow(9) && InvertsLow(10) && InvertsLow(11) && InvertsLow(12) && InvertsLow(13)
    ensures InvertsLow(14) && InvertsLow(15) && InvertsLow(16)
  {
  }

  lemma InvertsLowFrom17()
    ensures InvertsLow(17) && InvertsLow(18) && InvertsLow(19) && InvertsLow(20) && InvertsLow(21)
    ensures InvertsLow(22) && InvertsLow(23) && InvertsLow(24)
  {
  }

  lemma InvertsLowFrom25()
    ensures InvertsLow(25) && InvertsLow(26) && InvertsLow(27) && InvertsLow(28) && InvertsLow(29)
    ensures InvertsLow(30) && InvertsLow(31) && InvertsLow(32)
  {
  }

  lemma InvertsLowFrom33()
    ensures InvertsLow(33) && InvertsLow(34) && InvertsLow(35) && InvertsLow(36) && InvertsLow(37)
    ensures InvertsLow(38) && InvertsLow(39) && InvertsLow(40)
  {
  }

  lemma InvertsLowFrom41()
    ensures InvertsLow(41) && InvertsLow(42) && InvertsLow(43) && InvertsLow(44) && InvertsLow(45)
    ensures InvertsLow(46) && InvertsLow(47) && InvertsLow(48)
  {
  }

  lemma InvertsLowFrom49()
    ensures InvertsLow(49) && InvertsLow(50) && InvertsLow(51) && InvertsLow(52) && InvertsLow(53)
    ensures InvertsLow(54) && InvertsLow(55) && InvertsLow(56)
  {
  }

  lemma InvertsLowFrom57()
    ensures InvertsLow(57) && InvertsLow(58) && InvertsLow(59) && InvertsLow(60) && InvertsLow(61)
    ensures InvertsLow(62) && InvertsLow(63)
  {
  }

  lemma InvertsHighFrom0()
    ensures InvertsHigh(0, 64) && InvertsHigh(2, 65) && InvertsHigh(4, 66) && InvertsHigh(6, 67)
    ensures InvertsHigh(8, 68) && InvertsHigh(10, 69) && InvertsHigh(12, 70) && InvertsHigh(14, 71)
  {
  }

  lemma InvertsHighFrom8()
    ensures InvertsHigh(16, 72) && InvertsHigh(18, 73) && InvertsHigh(20, 74) && InvertsHigh(22, 75)
    ensures InvertsHigh(24, 76) && InvertsHigh(26, 77) && InvertsHigh(28, 78) && InvertsHigh(30, 79)
  {
  }

  lemma InvertsHighFrom16()
    ensures InvertsHigh(32, 80) && InvertsHigh(34, 81) && InvertsHigh(36, 82) && InvertsHigh(38, 83)
    ensures InvertsHigh(40, 84) && InvertsHigh(42, 85) && InvertsHigh(44, 86) && InvertsHigh(46, 87)
  {
  }

  lemma InvertsHighFrom24()
    ensures InvertsHigh(48, 88) && InvertsHigh(50, 89) && InvertsHigh(52, 90) && InvertsHigh(54, 91)
    ensures InvertsHigh(56, 92) && InvertsHigh(58, 93) && InvertsHigh(60, 94) && InvertsHigh(62, 95)
  {
  }

  lemma InvertsHighFrom32()
    ensures InvertsHigh(64, 96) && InvertsHigh(66, 97) && InvertsHigh(68, 98) && InvertsHigh(70, 99)
    ensures InvertsHigh(72, 100) && InvertsHigh(74, 101) && InvertsHigh(76, 102) && InvertsHigh(78, 103)
  {
  }

  lemma InvertsHighFrom40()
    ensures InvertsHigh(80, 104) && InvertsHigh(82, 105) && InvertsHigh(84, 106) && InvertsHigh(86, 107)
    ensures InvertsHigh(88, 108) && InvertsHigh(90, 109) && InvertsHigh(92, 110) && InvertsHigh(94, 111)
  {
  }

  lemma InvertsHighFrom48()
    ensures InvertsHigh(96, 112) && InvertsHigh(98, 113) && InvertsHigh(100, 114) && InvertsHigh(102, 115)
    ensures InvertsHigh(104, 116) && InvertsHigh(106, 117) && InvertsHigh(108, 118) && InvertsHigh(110, 119)
  {
  }

  lemma InvertsHighFrom56()
    ensures InvertsHigh(112, 120) && InvertsHigh(114, 121) && InvertsHigh(116, 122) && InvertsHigh(118, 123)
    ensures InvertsHigh(120, 124)
  {
  }
}
