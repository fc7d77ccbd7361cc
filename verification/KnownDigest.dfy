/**
  A digest that section A.5 of RFC 1321 gives, worked out step by step: it fixes every constant of
  the definition.
 */
module KnownDigest {
  import opened Bytes
  import opened Rfc1321

  const LETTERS: seq<bv32> := [
    0x64636261, 0x68676665, 0x6c6b6a69, 0x706f6e6d, 0x74737271, 0x78777675, 0x00807a79, 0x00000000,
    0x00000000, 0x00000000, 0x00000000, 0x00000000, 0x00000000, 0x00000000, 0x000000d0, 0x00000000]

  lemma NextStep(i: nat, st: State, k: nat, s: nat, sum: bv32, b: bv32)
    requires i < 64 && Steps(INIT, LETTERS, i) == st && K(i) == k && S(i) == s
    requires Sum(st.a, Sum(Sum(Mix(i, st.b, st.c, st.d), LETTERS[k]), T(i))) == sum && Sum(Rotl(sum, s), st.b) == b
    ensures Steps(INIT, LETTERS, i + 1) == State(st.d, b, st.b, st.c)
  {
    hide Mix, T, Rotl, Sum;
  }

  lemma Letters2()
    requires Steps(INIT, LETTERS, 0) == State(0x67452301, 0xefcdab89, 0x98badcfe, 0x10325476)
    ensures Steps(INIT, LETTERS, 2) == State(0x98badcfe, 0xaab1aaaa, 0xd6d117a6, 0xefcdab89)
  {
    hide Steps;
    NextStep(0, State(0x67452301, 0xefcdab89, 0x98badcfe, 0x10325476), 0, 7, 0x3bce06d8, 0xd6d117a6);
    NextStep(1, State(0x10325476, 0xd6d117a6, 0xefcdab89, 0x98badcfe), 1, 12, 0x304d3e09, 0xaab1aaaa);
  }

  lemma Letters4()
    requires Steps(INIT, LETTERS, 2) == State(0x98badcfe, 0xaab1aaaa, 0xd6d117a6, 0xefcdab89)
    ensures Steps(INIT, LETTERS, 4) == State(0xd6d117a6, 0x4503b812, 0x227d8cf1, 0xaab1aaaa)
  {
    hide Steps;
    NextStep(2, State(0x98badcfe, 0xaab1aaaa, 0xd6d117a6, 0xefcdab89), 2, 17, 0xf123bbe5, 0x227d8cf1);
    NextStep(3, State(0xefcdab89, 0x227d8cf1, 0xaab1aaaa, 0xd6d117a6), 3, 22, 0x18ac848a, 0x4503b812);
  }

  lemma Letters6()
    requires Steps(INIT, LETTERS, 4) == State(0xd6d117a6, 0x4503b812, 0x227d8cf1, 0xaab1aaaa)
    ensures Steps(INIT, LETTERS, 6) == State(0x227d8cf1, 0xa811b278, 0xfe15f787, 0x4503b812)
  {
    hide Steps;
    NextStep(4, State(0xd6d117a6, 0x4503b812, 0x227d8cf1, 0xaab1aaaa), 4, 7, 0xeb72247e, 0xfe15f787);
    NextStep(5, State(0xaab1aaaa, 0xfe15f787, 0x4503b812, 0x227d8cf1), 5, 12, 0xaf1a9fbb, 0xa811b278);
  }

  lemma Letters8()
    requires Steps(INIT, LETTERS, 6) == State(0x227d8cf1, 0xa811b278, 0xfe15f787, 0x4503b812)
    ensures Steps(INIT, LETTERS, 8) == State(0xfe15f787, 0xda9bbb0d, 0xb71122fc, 0xa811b278)
  {
    hide Steps;
    NextStep(6, State(0x227d8cf1, 0xa811b278, 0xfe15f787, 0x4503b812), 6, 17, 0xb842077f, 0xb71122fc);
    NextStep(7, State(0x4503b812, 0xb71122fc, 0xa811b278, 0xfe15f787), 7, 22, 0x2a60448e, 0xda9bbb0d);
  }

  lemma Letters10()
    requires Steps(INIT, LETTERS, 8) == State(0xfe15f787, 0xda9bbb0d, 0xb71122fc, 0xa811b278)
    ensures Steps(INIT, LETTERS, 10) == State(0xb71122fc, 0x2bbe757f, 0xae752899, 0xda9bbb0d)
  {
    hide Steps;
    NextStep(8, State(0xfe15f787, 0xda9bbb0d, 0xb71122fc, 0xa811b278), 8, 7, 0x19a7b2db, 0xae752899);
    NextStep(9, State(0xa811b278, 0xae752899, 0xda9bbb0d, 0xb71122fc), 9, 12, 0xce67d494, 0x2bbe757f);
  }

  lemma Letters12()
    requires Steps(INIT, LETTERS, 10) == State(0xb71122fc, 0x2bbe757f, 0xae752899, 0xda9bbb0d)
    ensures Steps(INIT, LETTERS, 12) == State(0xae752899, 0x56cfa5cb, 0x7d4bd80b, 0x2bbe757f)
  {
    hide Steps;
    NextStep(10, State(0xb71122fc, 0x2bbe757f, 0xae752899, 0xda9bbb0d), 10, 17, 0xb14628c6, 0x7d4bd80b);
    NextStep(11, State(0xda9bbb0d, 0x7d4bd80b, 0x2bbe757f, 0xae752899), 11, 22, 0x0f370366, 0x56cfa5cb);
  }

  lemma Letters14()
    requires Steps(INIT, LETTERS, 12) == State(0xae752899, 0x56cfa5cb, 0x7d4bd80b, 0x2bbe757f)
    ensures Steps(INIT, LETTERS, 14) == State(0x7d4bd80b, 0x85567d90, 0x1754a316, 0x56cfa5cb)
  {
    hide Steps;
    NextStep(12, State(0xae752899, 0x56cfa5cb, 0x7d4bd80b, 0x2bbe757f), 12, 7, 0x978109fa, 0x1754a316);
    NextStep(13, State(0x2bbe757f, 0x1754a316, 0x56cfa5cb, 0x7d4bd80b), 13, 12, 0xa7a6e01d, 0x85567d90);
  }

  lemma Letters16()
    requires Steps(INIT, LETTERS, 14) == State(0x7d4bd80b, 0x85567d90, 0x1754a316, 0x56cfa5cb)
    ensures Steps(INIT, LETTERS, 16) == State(0x1754a316, 0x608d6b7e, 0x00df74d5, 0x85567d90)
  {
    hide Steps;
    NextStep(14, State(0x7d4bd80b, 0x85567d90, 0x1754a316, 0x56cfa5cb), 14, 17, 0x7ba2bdc4, 0x00df74d5);
    NextStep(15, State(0x56cfa5cb, 0x00df74d5, 0x85567d90, 0x1754a316), 15, 22, 0xb7daa57e, 0x608d6b7e);
  }

  lemma Letters18()
    requires Steps(INIT, LETTERS, 16) == State(0x1754a316, 0x608d6b7e, 0x00df74d5, 0x85567d90)
    ensures Steps(INIT, LETTERS, 18) == State(0x00df74d5, 0x5dcee119, 0x2d8071cc, 0x608d6b7e)
  {
    hide Steps;
    NextStep(16, State(0x1754a316, 0x608d6b7e, 0x00df74d5, 0x85567d90), 1, 5, 0x76679832, 0x2d8071cc);
    NextStep(17, State(0x85567d90, 0x2d8071cc, 0x608d6b7e, 0x00df74d5), 6, 9, 0xa6982737, 0x5dcee119);
  }

  lemma Letters20()
    requires Steps(INIT, LETTERS, 18) == State(0x00df74d5, 0x5dcee119, 0x2d8071cc, 0x608d6b7e)
    ensures Steps(INIT, LETTERS, 20) == State(0x2d8071cc, 0x4c2145b3, 0xedfe7e4b, 0x5dcee119)
  {
    hide Steps;
    NextStep(18, State(0x00df74d5, 0x5dcee119, 0x2d8071cc, 0x608d6b7e), 11, 14, 0x74ca40be, 0xedfe7e4b);
    NextStep(19, State(0x608d6b7e, 0xedfe7e4b, 0x5dcee119, 0x2d8071cc), 0, 20, 0x2c7685e2, 0x4c2145b3);
  }

  lemma Letters22()
    requires Steps(INIT, LETTERS, 20) == State(0x2d8071cc, 0x4c2145b3, 0xedfe7e4b, 0x5dcee119)
    ensures Steps(INIT, LETTERS, 22) == State(0xedfe7e4b, 0x977efd2a, 0x570c43e0, 0x4c2145b3)
  {
    hide Steps;
    NextStep(20, State(0x2d8071cc, 0x4c2145b3, 0xedfe7e4b, 0x5dcee119), 5, 5, 0x685757f1, 0x570c43e0);
    NextStep(21, State(0x5dcee119, 0x570c43e0, 0x4c2145b3, 0xedfe7e4b), 10, 9, 0xa520395c, 0x977efd2a);
  }

  lemma Letters24()
    requires Steps(INIT, LETTERS, 22) == State(0xedfe7e4b, 0x977efd2a, 0x570c43e0, 0x4c2145b3)
    ensures Steps(INIT, LETTERS, 24) == State(0x570c43e0, 0xc9f162d4, 0xc28ab49d, 0x977efd2a)
  {
    hide Steps;
    NextStep(22, State(0xedfe7e4b, 0x977efd2a, 0x570c43e0, 0x4c2145b3), 15, 14, 0xddccac2e, 0xc28ab49d);
    NextStep(23, State(0x4c2145b3, 0xc28ab49d, 0x977efd2a, 0x570c43e0), 4, 20, 0x6ae37076, 0xc9f162d4);
  }

  lemma Letters26()
    requires Steps(INIT, LETTERS, 24) == State(0x570c43e0, 0xc9f162d4, 0xc28ab49d, 0x977efd2a)
    ensures Steps(INIT, LETTERS, 26) == State(0xc28ab49d, 0x89980104, 0x25bfae3b, 0xc9f162d4)
  {
    hide Steps;
    NextStep(24, State(0x570c43e0, 0xc9f162d4, 0xc28ab49d, 0x977efd2a), 9, 5, 0x3ade725b, 0x25bfae3b);
    NextStep(25, State(0x977efd2a, 0x25bfae3b, 0xc9f162d4, 0xc28ab49d), 14, 9, 0x64b1ec29, 0x89980104);
  }

  lemma Letters28()
    requires Steps(INIT, LETTERS, 26) == State(0xc28ab49d, 0x89980104, 0x25bfae3b, 0xc9f162d4)
    ensures Steps(INIT, LETTERS, 28) == State(0x25bfae3b, 0xe6d3b398, 0xf8c8365f, 0x89980104)
  {
    hide Steps;
    NextStep(26, State(0xc28ab49d, 0x89980104, 0x25bfae3b, 0xc9f162d4), 3, 14, 0xd56dbcc0, 0xf8c8365f);
    NextStep(27, State(0xc9f162d4, 0xf8c8365f, 0x89980104, 0x25bfae3b), 8, 20, 0xb7d39ee0, 0xe6d3b398);
  }

  lemma Letters30()
    requires Steps(INIT, LETTERS, 28) == State(0x25bfae3b, 0xe6d3b398, 0xf8c8365f, 0x89980104)
    ensures Steps(INIT, LETTERS, 30) == State(0xf8c8365f, 0x927b72e2, 0xf54d8710, 0xe6d3b398)
  {
    hide Steps;
    NextStep(28, State(0x25bfae3b, 0xe6d3b398, 0xf8c8365f, 0x89980104), 13, 5, 0xc073ce9b, 0xf54d8710);
    NextStep(29, State(0x89980104, 0xf54d8710, 0xe6d3b398, 0xf8c8365f), 2, 9, 0xe94e96f5, 0x927b72e2);
  }

  lemma Letters32()
    requires Steps(INIT, LETTERS, 30) == State(0xf8c8365f, 0x927b72e2, 0xf54d8710, 0xe6d3b398)
    ensures Steps(INIT, LETTERS, 32) == State(0xf54d8710, 0xaeb35766, 0x2e69afc7, 0x927b72e2)
  {
    hide Steps;
    NextStep(30, State(0xf8c8365f, 0x927b72e2, 0xf54d8710, 0xe6d3b398), 7, 14, 0xf3966fb8, 0x2e69afc7);
    NextStep(31, State(0xe6d3b398, 0x2e69afc7, 0x927b72e2, 0xf54d8710), 12, 20, 0x9a79f804, 0xaeb35766);
  }

  lemma Letters34()
    requires Steps(INIT, LETTERS, 32) == State(0xf54d8710, 0xaeb35766, 0x2e69afc7, 0x927b72e2)
    ensures Steps(INIT, LETTERS, 34) == State(0x2e69afc7, 0x4c8ffa80, 0xb4bf680e, 0xaeb35766)
  {
    hide Steps;
    NextStep(32, State(0xf54d8710, 0xaeb35766, 0x2e69afc7, 0x927b72e2), 5, 4, 0x8060c10a, 0xb4bf680e);
    NextStep(33, State(0x927b72e2, 0xb4bf680e, 0xaeb35766, 0x2e69afc7), 8, 11, 0x4e52fa12, 0x4c8ffa80);
  }

  lemma Letters36()
    requires Steps(INIT, LETTERS, 34) == State(0x2e69afc7, 0x4c8ffa80, 0xb4bf680e, 0xaeb35766)
    ensures Steps(INIT, LETTERS, 36) == State(0xb4bf680e, 0x06a5e211, 0x2361ed0a, 0x4c8ffa80)
  {
    hide Steps;
    NextStep(34, State(0x2e69afc7, 0x4c8ffa80, 0xb4bf680e, 0xaeb35766), 11, 16, 0xf28ad6d1, 0x2361ed0a);
    NextStep(35, State(0xaeb35766, 0x2361ed0a, 0x4c8ffa80, 0xb4bf680e), 14, 23, 0x87ea0fc6, 0x06a5e211);
  }

  lemma Letters38()
    requires Steps(INIT, LETTERS, 36) == State(0xb4bf680e, 0x06a5e211, 0x2361ed0a, 0x4c8ffa80)
    ensures Steps(INIT, LETTERS, 38) == State(0x2361ed0a, 0xf1e6dc7a, 0xb9c0c733, 0x06a5e211)
  {
    hide Steps;
    NextStep(36, State(0xb4bf680e, 0x06a5e211, 0x2361ed0a, 0x4c8ffa80), 1, 4, 0x2b31ae52, 0xb9c0c733);
    NextStep(37, State(0x4c8ffa80, 0xb9c0c733, 0x06a5e211, 0x2361ed0a), 4, 11, 0xa8e704c2, 0xf1e6dc7a);
  }

  lemma Letters40()
    requires Steps(INIT, LETTERS, 38) == State(0x2361ed0a, 0xf1e6dc7a, 0xb9c0c733, 0x06a5e211)
    ensures Steps(INIT, LETTERS, 40) == State(0xb9c0c733, 0x8d41bf99, 0x23a9451b, 0xf1e6dc7a)
  {
    hide Steps;
    NextStep(38, State(0x2361ed0a, 0xf1e6dc7a, 0xb9c0c733, 0x06a5e211), 7, 16, 0x68a131c2, 0x23a9451b);
    NextStep(39, State(0x06a5e211, 0x23a9451b, 0xf1e6dc7a, 0xb9c0c733), 10, 23, 0x30f4fcd3, 0x8d41bf99);
  }

  lemma Letters42()
    requires Steps(INIT, LETTERS, 40) == State(0xb9c0c733, 0x8d41bf99, 0x23a9451b, 0xf1e6dc7a)
    ensures Steps(INIT, LETTERS, 42) == State(0x23a9451b, 0x02c0b11c, 0xa3e88ead, 0x8d41bf99)
  {
    hide Steps;
    NextStep(40, State(0xb9c0c733, 0x8d41bf99, 0x23a9451b, 0xf1e6dc7a), 13, 4, 0x416a6cf1, 0xa3e88ead);
    NextStep(41, State(0xf1e6dc7a, 0xa3e88ead, 0x8d41bf99, 0x23a9451b), 0, 11, 0x4debdb04, 0x02c0b11c);
  }

  lemma Letters44()
    requires Steps(INIT, LETTERS, 42) == State(0x23a9451b, 0x02c0b11c, 0xa3e88ead, 0x8d41bf99)
    ensures Steps(INIT, LETTERS, 44) == State(0xa3e88ead, 0x90a35af5, 0x66f6468d, 0x02c0b11c)
  {
    hide Steps;
    NextStep(42, State(0x23a9451b, 0x02c0b11c, 0xa3e88ead, 0x8d41bf99), 3, 16, 0x95716435, 0x66f6468d);
    NextStep(43, State(0x8d41bf99, 0x66f6468d, 0x02c0b11c, 0xa3e88ead), 6, 23, 0x5a28d053, 0x90a35af5);
  }

  lemma Letters46()
    requires Steps(INIT, LETTERS, 44) == State(0xa3e88ead, 0x90a35af5, 0x66f6468d, 0x02c0b11c)
    ensures Steps(INIT, LETTERS, 46) == State(0x66f6468d, 0xa04b4904, 0xb5d41f9c, 0x90a35af5)
  {
    hide Steps;
    NextStep(44, State(0xa3e88ead, 0x90a35af5, 0x66f6468d, 0x02c0b11c), 9, 4, 0x72530c4a, 0xb5d41f9c);
    NextStep(45, State(0x02c0b11c, 0xb5d41f9c, 0x90a35af5, 0x66f6468d), 12, 11, 0x2d1d4ee5, 0xa04b4904);
  }

  lemma Letters48()
    requires Steps(INIT, LETTERS, 46) == State(0x66f6468d, 0xa04b4904, 0xb5d41f9c, 0x90a35af5)
    ensures Steps(INIT, LETTERS, 48) == State(0xb5d41f9c, 0x71d10367, 0x703d54d8, 0xa04b4904)
  {
    hide Steps;
    NextStep(46, State(0x66f6468d, 0xa04b4904, 0xb5d41f9c, 0x90a35af5), 15, 16, 0x0bd4cff2, 0x703d54d8);
    NextStep(47, State(0x90a35af5, 0x703d54d8, 0xa04b4904, 0xb5d41f9c), 2, 23, 0x275d1e03, 0x71d10367);
  }

  lemma Letters50()
    requires Steps(INIT, LETTERS, 48) == State(0xb5d41f9c, 0x71d10367, 0x703d54d8, 0xa04b4904)
    ensures Steps(INIT, LETTERS, 50) == State(0x703d54d8, 0x65456b34, 0xfc32dd6e, 0x71d10367)
  {
    hide Steps;
    NextStep(48, State(0xb5d41f9c, 0x71d10367, 0x703d54d8, 0xa04b4904), 0, 6, 0x1e298768, 0xfc32dd6e);
    NextStep(49, State(0xa04b4904, 0xfc32dd6e, 0x71d10367, 0x703d54d8), 7, 10, 0x719a44a3, 0x65456b34);
  }

  lemma Letters52()
    requires Steps(INIT, LETTERS, 50) == State(0x703d54d8, 0x65456b34, 0xfc32dd6e, 0x71d10367)
    ensures Steps(INIT, LETTERS, 52) == State(0xfc32dd6e, 0x33edb197, 0xb35602cb, 0x65456b34)
  {
    hide Steps;
    NextStep(50, State(0x703d54d8, 0x65456b34, 0xfc32dd6e, 0x71d10367), 14, 15, 0x2f2e9c21, 0xb35602cb);
    NextStep(51, State(0x71d10367, 0xb35602cb, 0x65456b34, 0xfc32dd6e), 5, 21, 0xbd766404, 0x33edb197);
  }

  lemma Letters54()
    requires Steps(INIT, LETTERS, 52) == State(0xfc32dd6e, 0x33edb197, 0xb35602cb, 0x65456b34)
    ensures Steps(INIT, LETTERS, 54) == State(0xb35602cb, 0xd9bb987c, 0xc1e942f1, 0x33edb197)
  {
    hide Steps;
    NextStep(52, State(0xfc32dd6e, 0x33edb197, 0xb35602cb, 0x65456b34), 12, 6, 0x6a37ee45, 0xc1e942f1);
    NextStep(53, State(0x65456b34, 0xc1e942f1, 0x33edb197, 0xb35602cb), 3, 10, 0x62c5f495, 0xd9bb987c);
  }

  lemma Letters56()
    requires Steps(INIT, LETTERS, 54) == State(0xb35602cb, 0xd9bb987c, 0xc1e942f1, 0x33edb197)
    ensures Steps(INIT, LETTERS, 56) == State(0xc1e942f1, 0x83877d1b, 0x23a68048, 0xd9bb987c)
  {
    hide Steps;
    NextStep(54, State(0xb35602cb, 0xd9bb987c, 0xc1e942f1, 0x33edb197), 10, 15, 0xcf9893d5, 0x23a68048);
    NextStep(55, State(0x33edb197, 0x23a68048, 0xd9bb987c, 0xc1e942f1), 1, 21, 0x07e69aff, 0x83877d1b);
  }

  lemma Letters58()
    requires Steps(INIT, LETTERS, 56) == State(0xc1e942f1, 0x83877d1b, 0x23a68048, 0xd9bb987c)
    ensures Steps(INIT, LETTERS, 58) == State(0x23a68048, 0x847fc2e7, 0x0077c208, 0x83877d1b)
  {
    hide Steps;
    NextStep(56, State(0xc1e942f1, 0x83877d1b, 0x23a68048, 0xd9bb987c), 8, 6, 0xb5f3c113, 0x0077c208);
    NextStep(57, State(0xd9bb987c, 0x0077c208, 0x83877d1b, 0x23a68048), 15, 10, 0x37e10200, 0x847fc2e7);
  }

  lemma Letters60()
    requires Steps(INIT, LETTERS, 58) == State(0x23a68048, 0x847fc2e7, 0x0077c208, 0x83877d1b)
    ensures Steps(INIT, LETTERS, 60) == State(0x0077c208, 0x5e6bc930, 0xa3e2247f, 0x847fc2e7)
  {
    hide Steps;
    NextStep(58, State(0x23a68048, 0x847fc2e7, 0x0077c208, 0x83877d1b), 6, 15, 0xc3303ec4, 0xa3e2247f);
    NextStep(59, State(0x83877d1b, 0xa3e2247f, 0x847fc2e7, 0x0077c208), 13, 21, 0x4d258dd4, 0x5e6bc930);
  }

  lemma Letters62()
    requires Steps(INIT, LETTERS, 60) == State(0x0077c208, 0x5e6bc930, 0xa3e2247f, 0x847fc2e7)
    ensures Steps(INIT, LETTERS, 62) == State(0xa3e2247f, 0x2baf1354, 0x708ed9c2, 0x5e6bc930)
  {
    hide Steps;
    NextStep(60, State(0x0077c208, 0x5e6bc930, 0xa3e2247f, 0x847fc2e7), 4, 6, 0x48488c42, 0x708ed9c2);
    NextStep(61, State(0x847fc2e7, 0x708ed9c2, 0x5e6bc930, 0xa3e2247f), 11, 10, 0x64aec80e, 0x2baf1354);
  }

  lemma Letters64()
    requires Steps(INIT, LETTERS, 62) == State(0xa3e2247f, 0x2baf1354, 0x708ed9c2, 0x5e6bc930)
    ensures Steps(INIT, LETTERS, 64) == State(0x708ed9c2, 0x1116e6d8, 0xd38f1e7f, 0x2baf1354)
  {
    hide Steps;
    NextStep(62, State(0xa3e2247f, 0x2baf1354, 0x708ed9c2, 0x5e6bc930), 2, 15, 0x16574fc0, 0xd38f1e7f);
    NextStep(63, State(0x5e6bc930, 0xd38f1e7f, 0x2baf1354, 0x708ed9c2), 9, 21, 0x3e42c9ec, 0x1116e6d8);
  }

  /** The letters from a to z. */
  function Alphabet(): (m: seq<byte>)
    ensures |m| == 26 && forall i :: 0 <= i < 26 ==> m[i] == 97 + i
  {
    seq(26, i requires 0 <= i < 26 => 97 + i)
  }

  lemma AlphabetPadded() returns (block: seq<byte>)
    ensures block == Alphabet() + Padding(26) && |block| == 64
    ensures forall i :: 0 <= i < 64 ==> block[i] == if i < 26 then 97 + i else if i == 26 then 0x80 else if i == 56 then 208 else 0
  {
    block := Alphabet() + Padding(26);
    assert LengthBytes(26) == [208, 0, 0, 0, 0, 0, 0, 0];
  }

  lemma WordIs(b: seq<byte>, w: bv32)
    requires |b| == 4 && b[0] as int + 0x100 * b[1] as int + 0x10000 * b[2] as int + 0x100_0000 * b[3] as int == w as int
    ensures WordOf(b) == w
  {
  }

  lemma LettersAre(block: seq<byte>)
    requires |block| == 64
    requires forall i :: 0 <= i < 64 ==> block[i] == if i < 26 then 97 + i else if i == 26 then 0x80 else if i == 56 then 208 else 0
    ensures Words(block) == LETTERS
  {
    hide WordOf;
    WordIs(block[0..4], 0x64636261);
    WordIs(block[4..8], 0x68676665);
    WordIs(block[8..12], 0x6c6b6a69);
    WordIs(block[12..16], 0x706f6e6d);
    WordIs(block[16..20], 0x74737271);
    WordIs(block[20..24], 0x78777675);
    WordIs(block[24..28], 0x00807a79);
    WordIs(block[28..32], 0x00000000);
    WordIs(block[32..36], 0x00000000);
    WordIs(block[36..40], 0x00000000);
    WordIs(block[40..44], 0x00000000);
    WordIs(block[44..48], 0x00000000);
    WordIs(block[48..52], 0x00000000);
    WordIs(block[52..56], 0x00000000);
    WordIs(block[56..60], 0x000000d0);
    WordIs(block[60..64], 0x00000000);
  }

  lemma OneBlock(st: State, s: seq<byte>)
    requires |s| == 64
    ensures Blocks(st, s) == Block(st, s)
  {
    hide Block;
    assert s[..0] == [] && s[0..] == s;
  }

  lemma LettersDone()
    ensures Added(Steps(INIT, LETTERS, 64), INIT) == State(0xd7d3fcc3, 0x00e49261, 0x6c49fb7d, 0x3be167ca)
  {
    hide Steps;
    StepsStart();
    Letters2(); Letters4(); Letters6(); Letters8(); Letters10(); Letters12(); Letters14(); Letters16();
    Letters18(); Letters20(); Letters22(); Letters24(); Letters26(); Letters28(); Letters30(); Letters32();
    Letters34(); Letters36(); Letters38(); Letters40(); Letters42(); Letters44(); Letters46(); Letters48();
    Letters50(); Letters52(); Letters54(); Letters56(); Letters58(); Letters60(); Letters62(); Letters64();
  }

  lemma StepsStart()
    ensures Steps(INIT, LETTERS, 0) == INIT
  {
  }

  /** The digest of the letters that section A.5 of RFC 1321 gives: c3fcd3d76192e4007dfb496cca67e13b. */
  lemma AlphabetDigest()
    ensures Digest(Alphabet()) == [0xc3, 0xfc, 0xd3, 0xd7, 0x61, 0x92, 0xe4, 0x00, 0x7d, 0xfb, 0x49, 0x6c, 0xca, 0x67, 0xe1, 0x3b]
  {
    hide Steps, Words, Padding, Sum, Added, Blocks;
    var block := AlphabetPadded();
    LettersAre(block);
    OneBlock(INIT, block);
    LettersDone();
    assert Blocks(INIT, block) == State(0xd7d3fcc3, 0x00e49261, 0x6c49fb7d, 0x3be167ca);
  }
}
