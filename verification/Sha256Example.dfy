// The SHA-256 digest of "abc", worked out round by round: the example of appendix
// B.1 of FIPS 180-2.
module Sha256Example {
  import opened Bytes
  import opened Compression
  import opened Sha256

  const MESSAGE: seq<Byte> := [0x61, 0x62, 0x63]

  // The one block of the padded message.
  const BLOCK_ABC: seq<Byte> := [0x61, 0x62, 0x63, 0x80] + Zeros(59) + [0x18]

  lemma PaddedExample()
    ensures |BLOCK_ABC| == BLOCK && Padded(MESSAGE) == BLOCK_ABC
  {
    assert PadZeros(3) == 52;
    assert BigEndian64(24) == [0, 0, 0, 0, 0, 0, 0, 0x18];
  }

  lemma FirstWord()
    ensures |BLOCK_ABC| == BLOCK && Schedule(BLOCK_ABC, 0) == 0x61626380
  {
  }

  lemma ZeroWord(t: nat)
    requires 0 < t < 15
    ensures |BLOCK_ABC| == BLOCK && Schedule(BLOCK_ABC, t) == 0
  {
  }

  lemma LastWord()
    ensures |BLOCK_ABC| == BLOCK && Schedule(BLOCK_ABC, 15) == 0x18
  {
  }

  // ----- the message schedule -----

  lemma Word(t: nat, w2: bv32, w7: bv32, w15: bv32, w16: bv32)
    requires |BLOCK_ABC| == BLOCK && 16 <= t < 64
    requires Schedule(BLOCK_ABC, t - 2) == w2 && Schedule(BLOCK_ABC, t - 7) == w7
    requires Schedule(BLOCK_ABC, t - 15) == w15 && Schedule(BLOCK_ABC, t - 16) == w16
    ensures Schedule(BLOCK_ABC, t) == Mix(w2, w7, w15, w16)
  {
  }

  lemma Words0()
    ensures |BLOCK_ABC| == BLOCK
    ensures Schedule(BLOCK_ABC, 0) == 0x61626380
    ensures Schedule(BLOCK_ABC, 1) == 0x00000000
    ensures Schedule(BLOCK_ABC, 2) == 0x00000000
    ensures Schedule(BLOCK_ABC, 3) == 0x00000000
    ensures Schedule(BLOCK_ABC, 4) == 0x00000000
    ensures Schedule(BLOCK_ABC, 5) == 0x00000000
    ensures Schedule(BLOCK_ABC, 6) == 0x00000000
    ensures Schedule(BLOCK_ABC, 7) == 0x00000000
  {
    hide Schedule, BLOCK_ABC;
    FirstWord();
    ZeroWord(1);
    ZeroWord(2);
    ZeroWord(3);
    ZeroWord(4);
    ZeroWord(5);
    ZeroWord(6);
    ZeroWord(7);
  }

  lemma Words1()
    ensures |BLOCK_ABC| == BLOCK
    ensures Schedule(BLOCK_ABC, 8) == 0x00000000
    ensures Schedule(BLOCK_ABC, 9) == 0x00000000
    ensures Schedule(BLOCK_ABC, 10) == 0x00000000
    ensures Schedule(BLOCK_ABC, 11) == 0x00000000
    ensures Schedule(BLOCK_ABC, 12) == 0x00000000
    ensures Schedule(BLOCK_ABC, 13) == 0x00000000
    ensures Schedule(BLOCK_ABC, 14) == 0x00000000
    ensures Schedule(BLOCK_ABC, 15) == 0x00000018
  {
    hide Schedule, BLOCK_ABC;
    ZeroWord(8);
    ZeroWord(9);
    ZeroWord(10);
    ZeroWord(11);
    ZeroWord(12);
    ZeroWord(13);
    ZeroWord(14);
    LastWord();
  }

  lemma Words2()
    ensures |BLOCK_ABC| == BLOCK
    ensures Schedule(BLOCK_ABC, 16) == 0x61626380
    ensures Schedule(BLOCK_ABC, 17) == 0x000f0000
    ensures Schedule(BLOCK_ABC, 18) == 0x7da86405
    ensures Schedule(BLOCK_ABC, 19) == 0x600003c6
    ensures Schedule(BLOCK_ABC, 20) == 0x3e9d7b78
    ensures Schedule(BLOCK_ABC, 21) == 0x0183fc00
    ensures Schedule(BLOCK_ABC, 22) == 0x12dcbfdb
    ensures Schedule(BLOCK_ABC, 23) == 0xe2e2c38e
  {
    hide Schedule, BLOCK_ABC;
    Words0();
    Words1();
    Word(16, 0x00000000, 0x00000000, 0x00000000, 0x61626380);
    Word(17, 0x00000018, 0x00000000, 0x00000000, 0x00000000);
    Word(18, 0x61626380, 0x00000000, 0x00000000, 0x00000000);
    Word(19, 0x000f0000, 0x00000000, 0x00000000, 0x00000000);
    Word(20, 0x7da86405, 0x00000000, 0x00000000, 0x00000000);
    Word(21, 0x600003c6, 0x00000000, 0x00000000, 0x00000000);
    Word(22, 0x3e9d7b78, 0x00000018, 0x00000000, 0x00000000);
    Word(23, 0x0183fc00, 0x61626380, 0x00000000, 0x00000000);
  }

  lemma Words3()
    ensures |BLOCK_ABC| == BLOCK
    ensures Schedule(BLOCK_ABC, 24) == 0xc8215c1a
    ensures Schedule(BLOCK_ABC, 25) == 0xb73679a2
    ensures Schedule(BLOCK_ABC, 26) == 0xe5bc3909
    ensures Schedule(BLOCK_ABC, 27) == 0x32663c5b
    ensures Schedule(BLOCK_ABC, 28) == 0x9d209d67
    ensures Schedule(BLOCK_ABC, 29) == 0xec8726cb
    ensures Schedule(BLOCK_ABC, 30) == 0x702138a4
    ensures Schedule(BLOCK_ABC, 31) == 0xd3b7973b
  {
    hide Schedule, BLOCK_ABC;
    Words1();
    Words2();
    Word(24, 0x12dcbfdb, 0x000f0000, 0x00000000, 0x00000000);
    Word(25, 0xe2e2c38e, 0x7da86405, 0x00000000, 0x00000000);
    Word(26, 0xc8215c1a, 0x600003c6, 0x00000000, 0x00000000);
    Word(27, 0xb73679a2, 0x3e9d7b78, 0x00000000, 0x00000000);
    Word(28, 0xe5bc3909, 0x0183fc00, 0x00000000, 0x00000000);
    Word(29, 0x32663c5b, 0x12dcbfdb, 0x00000000, 0x00000000);
    Word(30, 0x9d209d67, 0xe2e2c38e, 0x00000018, 0x00000000);
    Word(31, 0xec8726cb, 0xc8215c1a, 0x61626380, 0x00000018);
  }

  lemma Words4()
    ensures |BLOCK_ABC| == BLOCK
    ensures Schedule(BLOCK_ABC, 32) == 0x93f5997f
    ensures Schedule(BLOCK_ABC, 33) == 0x3b68ba73
    ensures Schedule(BLOCK_ABC, 34) == 0xaff4ffc1
    ensures Schedule(BLOCK_ABC, 35) == 0xf10a5c62
    ensures Schedule(BLOCK_ABC, 36) == 0x0a8b3996
    ensures Schedule(BLOCK_ABC, 37) == 0x72af830a
    ensures Schedule(BLOCK_ABC, 38) == 0x9409e33e
    ensures Schedule(BLOCK_ABC, 39) == 0x24641522
  {
    hide Schedule, BLOCK_ABC;
    Words2();
    Words3();
    Word(32, 0x702138a4, 0xb73679a2, 0x000f0000, 0x61626380);
    Word(33, 0xd3b7973b, 0xe5bc3909, 0x7da86405, 0x000f0000);
    Word(34, 0x93f5997f, 0x32663c5b, 0x600003c6, 0x7da86405);
    Word(35, 0x3b68ba73, 0x9d209d67, 0x3e9d7b78, 0x600003c6);
    Word(36, 0xaff4ffc1, 0xec8726cb, 0x0183fc00, 0x3e9d7b78);
    Word(37, 0xf10a5c62, 0x702138a4, 0x12dcbfdb, 0x0183fc00);
    Word(38, 0x0a8b3996, 0xd3b7973b, 0xe2e2c38e, 0x12dcbfdb);
    Word(39, 0x72af830a, 0x93f5997f, 0xc8215c1a, 0xe2e2c38e);
  }

  lemma Words5()
    ensures |BLOCK_ABC| == BLOCK
    ensures Schedule(BLOCK_ABC, 40) == 0x9f47bf94
    ensures Schedule(BLOCK_ABC, 41) == 0xf0a64f5a
    ensures Schedule(BLOCK_ABC, 42) == 0x3e246a79
    ensures Schedule(BLOCK_ABC, 43) == 0x27333ba3
    ensures Schedule(BLOCK_ABC, 44) == 0x0c4763f2
    ensures Schedule(BLOCK_ABC, 45) == 0x840abf27
    ensures Schedule(BLOCK_ABC, 46) == 0x7a290d5d
    ensures Schedule(BLOCK_ABC, 47) == 0x065c43da
  {
    hide Schedule, BLOCK_ABC;
    Words3();
    Words4();
    Word(40, 0x9409e33e, 0x3b68ba73, 0xb73679a2, 0xc8215c1a);
    Word(41, 0x24641522, 0xaff4ffc1, 0xe5bc3909, 0xb73679a2);
    Word(42, 0x9f47bf94, 0xf10a5c62, 0x32663c5b, 0xe5bc3909);
    Word(43, 0xf0a64f5a, 0x0a8b3996, 0x9d209d67, 0x32663c5b);
    Word(44, 0x3e246a79, 0x72af830a, 0xec8726cb, 0x9d209d67);
    Word(45, 0x27333ba3, 0x9409e33e, 0x702138a4, 0xec8726cb);
    Word(46, 0x0c4763f2, 0x24641522, 0xd3b7973b, 0x702138a4);
    Word(47, 0x840abf27, 0x9f47bf94, 0x93f5997f, 0xd3b7973b);
  }

  lemma Words6()
    ensures |BLOCK_ABC| == BLOCK
    ensures Schedule(BLOCK_ABC, 48) == 0xfb3e89cb
    ensures Schedule(BLOCK_ABC, 49) == 0xcc7617db
    ensures Schedule(BLOCK_ABC, 50) == 0xb9e66c34
    ensures Schedule(BLOCK_ABC, 51) == 0xa9993667
    ensures Schedule(BLOCK_ABC, 52) == 0x84badedd
    ensures Schedule(BLOCK_ABC, 53) == 0xc21462bc
    ensures Schedule(BLOCK_ABC, 54) == 0x1487472c
    ensures Schedule(BLOCK_ABC, 55) == 0xb20f7a99
  {
    hide Schedule, BLOCK_ABC;
    Words4();
    Words5();
    Word(48, 0x7a290d5d, 0xf0a64f5a, 0x3b68ba73, 0x93f5997f);
    Word(49, 0x065c43da, 0x3e246a79, 0xaff4ffc1, 0x3b68ba73);
    Word(50, 0xfb3e89cb, 0x27333ba3, 0xf10a5c62, 0xaff4ffc1);
    Word(51, 0xcc7617db, 0x0c4763f2, 0x0a8b3996, 0xf10a5c62);
    Word(52, 0xb9e66c34, 0x840abf27, 0x72af830a, 0x0a8b3996);
    Word(53, 0xa9993667, 0x7a290d5d, 0x9409e33e, 0x72af830a);
    Word(54, 0x84badedd, 0x065c43da, 0x24641522, 0x9409e33e);
    Word(55, 0xc21462bc, 0xfb3e89cb, 0x9f47bf94, 0x24641522);
  }

  lemma Words7()
    ensures |BLOCK_ABC| == BLOCK
    ensures Schedule(BLOCK_ABC, 56) == 0xef57b9cd
    ensures Schedule(BLOCK_ABC, 57) == 0xebe6b238
    ensures Schedule(BLOCK_ABC, 58) == 0x9fe3095e
    ensures Schedule(BLOCK_ABC, 59) == 0x78bc8d4b
    ensures Schedule(BLOCK_ABC, 60) == 0xa43fcf15
    ensures Schedule(BLOCK_ABC, 61) == 0x668b2ff8
    ensures Schedule(BLOCK_ABC, 62) == 0xeeaba2cc
    ensures Schedule(BLOCK_ABC, 63) == 0x12b1edeb
  {
    hide Schedule, BLOCK_ABC;
    Words5();
    Words6();
    Word(56, 0x1487472c, 0xcc7617db, 0xf0a64f5a, 0x9f47bf94);
    Word(57, 0xb20f7a99, 0xb9e66c34, 0x3e246a79, 0xf0a64f5a);
    Word(58, 0xef57b9cd, 0xa9993667, 0x27333ba3, 0x3e246a79);
    Word(59, 0xebe6b238, 0x84badedd, 0x0c4763f2, 0x27333ba3);
    Word(60, 0x9fe3095e, 0xc21462bc, 0x840abf27, 0x0c4763f2);
    Word(61, 0x78bc8d4b, 0x1487472c, 0x7a290d5d, 0x840abf27);
    Word(62, 0xa43fcf15, 0xb20f7a99, 0x065c43da, 0x7a290d5d);
    Word(63, 0x668b2ff8, 0xef57b9cd, 0xfb3e89cb, 0x065c43da);
  }

  // ----- the rounds -----

  lemma Constants0()
    ensures RoundConstant(0) == 0x428a2f98
    ensures RoundConstant(1) == 0x71374491
    ensures RoundConstant(2) == 0xb5c0fbcf
    ensures RoundConstant(3) == 0xe9b5dba5
    ensures RoundConstant(4) == 0x3956c25b
    ensures RoundConstant(5) == 0x59f111f1
    ensures RoundConstant(6) == 0x923f82a4
    ensures RoundConstant(7) == 0xab1c5ed5
  {
  }

  lemma Constants1()
    ensures RoundConstant(8) == 0xd807aa98
    ensures RoundConstant(9) == 0x12835b01
    ensures RoundConstant(10) == 0x243185be
    ensures RoundConstant(11) == 0x550c7dc3
    ensures RoundConstant(12) == 0x72be5d74
    ensures RoundConstant(13) == 0x80deb1fe
    ensures RoundConstant(14) == 0x9bdc06a7
    ensures RoundConstant(15) == 0xc19bf174
  {
  }

  lemma Constants2()
    ensures RoundConstant(16) == 0xe49b69c1
    ensures RoundConstant(17) == 0xefbe4786
    ensures RoundConstant(18) == 0x0fc19dc6
    ensures RoundConstant(19) == 0x240ca1cc
    ensures RoundConstant(20) == 0x2de92c6f
    ensures RoundConstant(21) == 0x4a7484aa
    ensures RoundConstant(22) == 0x5cb0a9dc
    ensures RoundConstant(23) == 0x76f988da
  {
  }

  lemma Constants3()
    ensures RoundConstant(24) == 0x983e5152
    ensures RoundConstant(25) == 0xa831c66d
    ensures RoundConstant(26) == 0xb00327c8
    ensures RoundConstant(27) == 0xbf597fc7
    ensures RoundConstant(28) == 0xc6e00bf3
    ensures RoundConstant(29) == 0xd5a79147
    ensures RoundConstant(30) == 0x06ca6351
    ensures RoundConstant(31) == 0x14292967
  {
  }

  lemma Constants4()
    ensures RoundConstant(32) == 0x27b70a85
    ensures RoundConstant(33) == 0x2e1b2138
    ensures RoundConstant(34) == 0x4d2c6dfc
    ensures RoundConstant(35) == 0x53380d13
    ensures RoundConstant(36) == 0x650a7354
    ensures RoundConstant(37) == 0x766a0abb
    ensures RoundConstant(38) == 0x81c2c92e
    ensures RoundConstant(39) == 0x92722c85
  {
  }

  lemma Constants5()
    ensures RoundConstant(40) == 0xa2bfe8a1
    ensures RoundConstant(41) == 0xa81a664b
    ensures RoundConstant(42) == 0xc24b8b70
    ensures RoundConstant(43) == 0xc76c51a3
    ensures RoundConstant(44) == 0xd192e819
    ensures RoundConstant(45) == 0xd6990624
    ensures RoundConstant(46) == 0xf40e3585
    ensures RoundConstant(47) == 0x106aa070
  {
  }

  lemma Constants6()
    ensures RoundConstant(48) == 0x19a4c116
    ensures RoundConstant(49) == 0x1e376c08
    ensures RoundConstant(50) == 0x2748774c
    ensures RoundConstant(51) == 0x34b0bcb5
    ensures RoundConstant(52) == 0x391c0cb3
    ensures RoundConstant(53) == 0x4ed8aa4a
    ensures RoundConstant(54) == 0x5b9cca4f
    ensures RoundConstant(55) == 0x682e6ff3
  {
  }

  lemma Constants7()
    ensures RoundConstant(56) == 0x748f82ee
    ensures RoundConstant(57) == 0x78a5636f
    ensures RoundConstant(58) == 0x84c87814
    ensures RoundConstant(59) == 0x8cc70208
    ensures RoundConstant(60) == 0x90befffa
    ensures RoundConstant(61) == 0xa4506ceb
    ensures RoundConstant(62) == 0xbef9a3f7
    ensures RoundConstant(63) == 0xc67178f2
  {
  }

  lemma Steps0()
    ensures Round(State(0x6a09e667, 0xbb67ae85, 0x3c6ef372, 0xa54ff53a, 0x510e527f, 0x9b05688c, 0x1f83d9ab, 0x5be0cd19), 0x428a2f98, 0x61626380)
         == State(0x5d6aebcd, 0x6a09e667, 0xbb67ae85, 0x3c6ef372, 0xfa2a4622, 0x510e527f, 0x9b05688c, 0x1f83d9ab)
    ensures Round(State(0x5d6aebcd, 0x6a09e667, 0xbb67ae85, 0x3c6ef372, 0xfa2a4622, 0x510e527f, 0x9b05688c, 0x1f83d9ab), 0x71374491, 0x00000000)
         == State(0x5a6ad9ad, 0x5d6aebcd, 0x6a09e667, 0xbb67ae85, 0x78ce7989, 0xfa2a4622, 0x510e527f, 0x9b05688c)
    ensures Round(State(0x5a6ad9ad, 0x5d6aebcd, 0x6a09e667, 0xbb67ae85, 0x78ce7989, 0xfa2a4622, 0x510e527f, 0x9b05688c), 0xb5c0fbcf, 0x00000000)
         == State(0xc8c347a7, 0x5a6ad9ad, 0x5d6aebcd, 0x6a09e667, 0xf92939eb, 0x78ce7989, 0xfa2a4622, 0x510e527f)
    ensures Round(State(0xc8c347a7, 0x5a6ad9ad, 0x5d6aebcd, 0x6a09e667, 0xf92939eb, 0x78ce7989, 0xfa2a4622, 0x510e527f), 0xe9b5dba5, 0x00000000)
         == State(0xd550f666, 0xc8c347a7, 0x5a6ad9ad, 0x5d6aebcd, 0x24e00850, 0xf92939eb, 0x78ce7989, 0xfa2a4622)
    ensures Round(State(0xd550f666, 0xc8c347a7, 0x5a6ad9ad, 0x5d6aebcd, 0x24e00850, 0xf92939eb, 0x78ce7989, 0xfa2a4622), 0x3956c25b, 0x00000000)
         == State(0x04409a6a, 0xd550f666, 0xc8c347a7, 0x5a6ad9ad, 0x43ada245, 0x24e00850, 0xf92939eb, 0x78ce7989)
    ensures Round(State(0x04409a6a, 0xd550f666, 0xc8c347a7, 0x5a6ad9ad, 0x43ada245, 0x24e00850, 0xf92939eb, 0x78ce7989), 0x59f111f1, 0x00000000)
         == State(0x2b4209f5, 0x04409a6a, 0xd550f666, 0xc8c347a7, 0x714260ad, 0x43ada245, 0x24e00850, 0xf92939eb)
    ensures Round(State(0x2b4209f5, 0x04409a6a, 0xd550f666, 0xc8c347a7, 0x714260ad, 0x43ada245, 0x24e00850, 0xf92939eb), 0x923f82a4, 0x00000000)
         == State(0xe5030380, 0x2b4209f5, 0x04409a6a, 0xd550f666, 0x9b27a401, 0x714260ad, 0x43ada245, 0x24e00850)
    ensures Round(State(0xe5030380, 0x2b4209f5, 0x04409a6a, 0xd550f666, 0x9b27a401, 0x714260ad, 0x43ada245, 0x24e00850), 0xab1c5ed5, 0x00000000)
         == State(0x85a07b5f, 0xe5030380, 0x2b4209f5, 0x04409a6a, 0x0c657a79, 0x9b27a401, 0x714260ad, 0x43ada245)
  {
  }

  lemma Steps1()
    ensures Round(State(0x85a07b5f, 0xe5030380, 0x2b4209f5, 0x04409a6a, 0x0c657a79, 0x9b27a401, 0x714260ad, 0x43ada245), 0xd807aa98, 0x00000000)
         == State(0x8e04ecb9, 0x85a07b5f, 0xe5030380, 0x2b4209f5, 0x32ca2d8c, 0x0c657a79, 0x9b27a401, 0x714260ad)
    ensures Round(State(0x8e04ecb9, 0x85a07b5f, 0xe5030380, 0x2b4209f5, 0x32ca2d8c, 0x0c657a79, 0x9b27a401, 0x714260ad), 0x12835b01, 0x00000000)
         == State(0x8c87346b, 0x8e04ecb9, 0x85a07b5f, 0xe5030380, 0x1cc92596, 0x32ca2d8c, 0x0c657a79, 0x9b27a401)
    ensures Round(State(0x8c87346b, 0x8e04ecb9, 0x85a07b5f, 0xe5030380, 0x1cc92596, 0x32ca2d8c, 0x0c657a79, 0x9b27a401), 0x243185be, 0x00000000)
         == State(0x4798a3f4, 0x8c87346b, 0x8e04ecb9, 0x85a07b5f, 0x436b23e8, 0x1cc92596, 0x32ca2d8c, 0x0c657a79)
    ensures Round(State(0x4798a3f4, 0x8c87346b, 0x8e04ecb9, 0x85a07b5f, 0x436b23e8, 0x1cc92596, 0x32ca2d8c, 0x0c657a79), 0x550c7dc3, 0x00000000)
         == State(0xf71fc5a9, 0x4798a3f4, 0x8c87346b, 0x8e04ecb9, 0x816fd6e9, 0x436b23e8, 0x1cc92596, 0x32ca2d8c)
    ensures Round(State(0xf71fc5a9, 0x4798a3f4, 0x8c87346b, 0x8e04ecb9, 0x816fd6e9, 0x436b23e8, 0x1cc92596, 0x32ca2d8c), 0x72be5d74, 0x00000000)
         == State(0x87912990, 0xf71fc5a9, 0x4798a3f4, 0x8c87346b, 0x1e578218, 0x816fd6e9, 0x436b23e8, 0x1cc92596)
    ensures Round(State(0x87912990, 0xf71fc5a9, 0x4798a3f4, 0x8c87346b, 0x1e578218, 0x816fd6e9, 0x436b23e8, 0x1cc92596), 0x80deb1fe, 0x00000000)
         == State(0xd932eb16, 0x87912990, 0xf71fc5a9, 0x4798a3f4, 0x745a48de, 0x1e578218, 0x816fd6e9, 0x436b23e8)
    ensures Round(State(0xd932eb16, 0x87912990, 0xf71fc5a9, 0x4798a3f4, 0x745a48de, 0x1e578218, 0x816fd6e9, 0x436b23e8), 0x9bdc06a7, 0x00000000)
         == State(0xc0645fde, 0xd932eb16, 0x87912990, 0xf71fc5a9, 0x0b92f20c, 0x745a48de, 0x1e578218, 0x816fd6e9)
    ensures Round(State(0xc0645fde, 0xd932eb16, 0x87912990, 0xf71fc5a9, 0x0b92f20c, 0x745a48de, 0x1e578218, 0x816fd6e9), 0xc19bf174, 0x00000018)
         == State(0xb0fa238e, 0xc0645fde, 0xd932eb16, 0x87912990, 0x07590dcd, 0x0b92f20c, 0x745a48de, 0x1e578218)
  {
  }

  lemma Steps2()
    ensures Round(State(0xb0fa238e, 0xc0645fde, 0xd932eb16, 0x87912990, 0x07590dcd, 0x0b92f20c, 0x745a48de, 0x1e578218), 0xe49b69c1, 0x61626380)
         == State(0x21da9a9b, 0xb0fa238e, 0xc0645fde, 0xd932eb16, 0x8034229c, 0x07590dcd, 0x0b92f20c, 0x745a48de)
    ensures Round(State(0x21da9a9b, 0xb0fa238e, 0xc0645fde, 0xd932eb16, 0x8034229c, 0x07590dcd, 0x0b92f20c, 0x745a48de), 0xefbe4786, 0x000f0000)
         == State(0xc2fbd9d1, 0x21da9a9b, 0xb0fa238e, 0xc0645fde, 0x846ee454, 0x8034229c, 0x07590dcd, 0x0b92f20c)
    ensures Round(State(0xc2fbd9d1, 0x21da9a9b, 0xb0fa238e, 0xc0645fde, 0x846ee454, 0x8034229c, 0x07590dcd, 0x0b92f20c), 0x0fc19dc6, 0x7da86405)
         == State(0xfe777bbf, 0xc2fbd9d1, 0x21da9a9b, 0xb0fa238e, 0xcc899961, 0x846ee454, 0x8034229c, 0x07590dcd)
    ensures Round(State(0xfe777bbf, 0xc2fbd9d1, 0x21da9a9b, 0xb0fa238e, 0xcc899961, 0x846ee454, 0x8034229c, 0x07590dcd), 0x240ca1cc, 0x600003c6)
         == State(0xe1f20c33, 0xfe777bbf, 0xc2fbd9d1, 0x21da9a9b, 0xb0638179, 0xcc899961, 0x846ee454, 0x8034229c)
    ensures Round(State(0xe1f20c33, 0xfe777bbf, 0xc2fbd9d1, 0x21da9a9b, 0xb0638179, 0xcc899961, 0x846ee454, 0x8034229c), 0x2de92c6f, 0x3e9d7b78)
         == State(0x9dc68b63, 0xe1f20c33, 0xfe777bbf, 0xc2fbd9d1, 0x8ada8930, 0xb0638179, 0xcc899961, 0x846ee454)
    ensures Round(State(0x9dc68b63, 0xe1f20c33, 0xfe777bbf, 0xc2fbd9d1, 0x8ada8930, 0xb0638179, 0xcc899961, 0x846ee454), 0x4a7484aa, 0x0183fc00)
         == State(0xc2606d6d, 0x9dc68b63, 0xe1f20c33, 0xfe777bbf, 0xe1257970, 0x8ada8930, 0xb0638179, 0xcc899961)
    ensures Round(State(0xc2606d6d, 0x9dc68b63, 0xe1f20c33, 0xfe777bbf, 0xe1257970, 0x8ada8930, 0xb0638179, 0xcc899961), 0x5cb0a9dc, 0x12dcbfdb)
         == State(0xa7a3623f, 0xc2606d6d, 0x9dc68b63, 0xe1f20c33, 0x49f5114a, 0xe1257970, 0x8ada8930, 0xb0638179)
    ensures Round(State(0xa7a3623f, 0xc2606d6d, 0x9dc68b63, 0xe1f20c33, 0x49f5114a, 0xe1257970, 0x8ada8930, 0xb0638179), 0x76f988da, 0xe2e2c38e)
         == State(0xc5d53d8d, 0xa7a3623f, 0xc2606d6d, 0x9dc68b63, 0xaa47c347, 0x49f5114a, 0xe1257970, 0x8ada8930)
  {
  }

  lemma Steps3()
    ensures Round(State(0xc5d53d8d, 0xa7a3623f, 0xc2606d6d, 0x9dc68b63, 0xaa47c347, 0x49f5114a, 0xe1257970, 0x8ada8930), 0x983e5152, 0xc8215c1a)
         == State(0x1c2c2838, 0xc5d53d8d, 0xa7a3623f, 0xc2606d6d, 0x2823ef91, 0xaa47c347, 0x49f5114a, 0xe1257970)
    ensures Round(State(0x1c2c2838, 0xc5d53d8d, 0xa7a3623f, 0xc2606d6d, 0x2823ef91, 0xaa47c347, 0x49f5114a, 0xe1257970), 0xa831c66d, 0xb73679a2)
         == State(0xcde8037d, 0x1c2c2838, 0xc5d53d8d, 0xa7a3623f, 0x14383d8e, 0x2823ef91, 0xaa47c347, 0x49f5114a)
    ensures Round(State(0xcde8037d, 0x1c2c2838, 0xc5d53d8d, 0xa7a3623f, 0x14383d8e, 0x2823ef91, 0xaa47c347, 0x49f5114a), 0xb00327c8, 0xe5bc3909)
         == State(0xb62ec4bc, 0xcde8037d, 0x1c2c2838, 0xc5d53d8d, 0xc74c6516, 0x14383d8e, 0x2823ef91, 0xaa47c347)
    ensures Round(State(0xb62ec4bc, 0xcde8037d, 0x1c2c2838, 0xc5d53d8d, 0xc74c6516, 0x14383d8e, 0x2823ef91, 0xaa47c347), 0xbf597fc7, 0x32663c5b)
         == State(0x77d37528, 0xb62ec4bc, 0xcde8037d, 0x1c2c2838, 0xedffbff8, 0xc74c6516, 0x14383d8e, 0x2823ef91)
    ensures Round(State(0x77d37528, 0xb62ec4bc, 0xcde8037d, 0x1c2c2838, 0xedffbff8, 0xc74c6516, 0x14383d8e, 0x2823ef91), 0xc6e00bf3, 0x9d209d67)
         == State(0x363482c9, 0x77d37528, 0xb62ec4bc, 0xcde8037d, 0x6112a3b7, 0xedffbff8, 0xc74c6516, 0x14383d8e)
    ensures Round(State(0x363482c9, 0x77d37528, 0xb62ec4bc, 0xcde8037d, 0x6112a3b7, 0xedffbff8, 0xc74c6516, 0x14383d8e), 0xd5a79147, 0xec8726cb)
         == State(0xa0060b30, 0x363482c9, 0x77d37528, 0xb62ec4bc, 0xade79437, 0x6112a3b7, 0xedffbff8, 0xc74c6516)
    ensures Round(State(0xa0060b30, 0x363482c9, 0x77d37528, 0xb62ec4bc, 0xade79437, 0x6112a3b7, 0xedffbff8, 0xc74c6516), 0x06ca6351, 0x702138a4)
         == State(0xea992a22, 0xa0060b30, 0x363482c9, 0x77d37528, 0x0109ab3a, 0xade79437, 0x6112a3b7, 0xedffbff8)
    ensures Round(State(0xea992a22, 0xa0060b30, 0x363482c9, 0x77d37528, 0x0109ab3a, 0xade79437, 0x6112a3b7, 0xedffbff8), 0x14292967, 0xd3b7973b)
         == State(0x73b33bf5, 0xea992a22, 0xa0060b30, 0x363482c9, 0xba591112, 0x0109ab3a, 0xade79437, 0x6112a3b7)
  {
  }

  lemma Steps4()
    ensures Round(State(0x73b33bf5, 0xea992a22, 0xa0060b30, 0x363482c9, 0xba591112, 0x0109ab3a, 0xade79437, 0x6112a3b7), 0x27b70a85, 0x93f5997f)
         == State(0x98e12507, 0x73b33bf5, 0xea992a22, 0xa0060b30, 0x9cd9f5f6, 0xba591112, 0x0109ab3a, 0xade79437)
    ensures Round(State(0x98e12507, 0x73b33bf5, 0xea992a22, 0xa0060b30, 0x9cd9f5f6, 0xba591112, 0x0109ab3a, 0xade79437), 0x2e1b2138, 0x3b68ba73)
         == State(0xfe604df5, 0x98e12507, 0x73b33bf5, 0xea992a22, 0x59249dd3, 0x9cd9f5f6, 0xba591112, 0x0109ab3a)
    ensures Round(State(0xfe604df5, 0x98e12507, 0x73b33bf5, 0xea992a22, 0x59249dd3, 0x9cd9f5f6, 0xba591112, 0x0109ab3a), 0x4d2c6dfc, 0xaff4ffc1)
         == State(0xa9a7738c, 0xfe604df5, 0x98e12507, 0x73b33bf5, 0x085f3833, 0x59249dd3, 0x9cd9f5f6, 0xba591112)
    ensures Round(State(0xa9a7738c, 0xfe604df5, 0x98e12507, 0x73b33bf5, 0x085f3833, 0x59249dd3, 0x9cd9f5f6, 0xba591112), 0x53380d13, 0xf10a5c62)
         == State(0x65a0cfe4, 0xa9a7738c, 0xfe604df5, 0x98e12507, 0xf4b002d6, 0x085f3833, 0x59249dd3, 0x9cd9f5f6)
    ensures Round(State(0x65a0cfe4, 0xa9a7738c, 0xfe604df5, 0x98e12507, 0xf4b002d6, 0x085f3833, 0x59249dd3, 0x9cd9f5f6), 0x650a7354, 0x0a8b3996)
         == State(0x41a65cb1, 0x65a0cfe4, 0xa9a7738c, 0xfe604df5, 0x0772a26b, 0xf4b002d6, 0x085f3833, 0x59249dd3)
    ensures Round(State(0x41a65cb1, 0x65a0cfe4, 0xa9a7738c, 0xfe604df5, 0x0772a26b, 0xf4b002d6, 0x085f3833, 0x59249dd3), 0x766a0abb, 0x72af830a)
         == State(0x34df1604, 0x41a65cb1, 0x65a0cfe4, 0xa9a7738c, 0xa507a53d, 0x0772a26b, 0xf4b002d6, 0x085f3833)
    ensures Round(State(0x34df1604, 0x41a65cb1, 0x65a0cfe4, 0xa9a7738c, 0xa507a53d, 0x0772a26b, 0xf4b002d6, 0x085f3833), 0x81c2c92e, 0x9409e33e)
         == State(0x6dc57a8a, 0x34df1604, 0x41a65cb1, 0x65a0cfe4, 0xf0781bc8, 0xa507a53d, 0x0772a26b, 0xf4b002d6)
    ensures Round(State(0x6dc57a8a, 0x34df1604, 0x41a65cb1, 0x65a0cfe4, 0xf0781bc8, 0xa507a53d, 0x0772a26b, 0xf4b002d6), 0x92722c85, 0x24641522)
         == State(0x79ea687a, 0x6dc57a8a, 0x34df1604, 0x41a65cb1, 0x1efbc0a0, 0xf0781bc8, 0xa507a53d, 0x0772a26b)
  {
  }

  lemma Steps5()
    ensures Round(State(0x79ea687a, 0x6dc57a8a, 0x34df1604, 0x41a65cb1, 0x1efbc0a0, 0xf0781bc8, 0xa507a53d, 0x0772a26b), 0xa2bfe8a1, 0x9f47bf94)
         == State(0xd6670766, 0x79ea687a, 0x6dc57a8a, 0x34df1604, 0x26352d63, 0x1efbc0a0, 0xf0781bc8, 0xa507a53d)
    ensures Round(State(0xd6670766, 0x79ea687a, 0x6dc57a8a, 0x34df1604, 0x26352d63, 0x1efbc0a0, 0xf0781bc8, 0xa507a53d), 0xa81a664b, 0xf0a64f5a)
         == State(0xdf46652f, 0xd6670766, 0x79ea687a, 0x6dc57a8a, 0x838b2711, 0x26352d63, 0x1efbc0a0, 0xf0781bc8)
    ensures Round(State(0xdf46652f, 0xd6670766, 0x79ea687a, 0x6dc57a8a, 0x838b2711, 0x26352d63, 0x1efbc0a0, 0xf0781bc8), 0xc24b8b70, 0x3e246a79)
         == State(0x17aa0dfe, 0xdf46652f, 0xd6670766, 0x79ea687a, 0xdecd4715, 0x838b2711, 0x26352d63, 0x1efbc0a0)
    ensures Round(State(0x17aa0dfe, 0xdf46652f, 0xd6670766, 0x79ea687a, 0xdecd4715, 0x838b2711, 0x26352d63, 0x1efbc0a0), 0xc76c51a3, 0x27333ba3)
         == State(0x9d4baf93, 0x17aa0dfe, 0xdf46652f, 0xd6670766, 0xfda24c2e, 0xdecd4715, 0x838b2711, 0x26352d63)
    ensures Round(State(0x9d4baf93, 0x17aa0dfe, 0xdf46652f, 0xd6670766, 0xfda24c2e, 0xdecd4715, 0x838b2711, 0x26352d63), 0xd192e819, 0x0c4763f2)
         == State(0x26628815, 0x9d4baf93, 0x17aa0dfe, 0xdf46652f, 0xa80f11f0, 0xfda24c2e, 0xdecd4715, 0x838b2711)
    ensures Round(State(0x26628815, 0x9d4baf93, 0x17aa0dfe, 0xdf46652f, 0xa80f11f0, 0xfda24c2e, 0xdecd4715, 0x838b2711), 0xd6990624, 0x840abf27)
         == State(0x72ab4b91, 0x26628815, 0x9d4baf93, 0x17aa0dfe, 0xb7755da1, 0xa80f11f0, 0xfda24c2e, 0xdecd4715)
    ensures Round(State(0x72ab4b91, 0x26628815, 0x9d4baf93, 0x17aa0dfe, 0xb7755da1, 0xa80f11f0, 0xfda24c2e, 0xdecd4715), 0xf40e3585, 0x7a290d5d)
         == State(0xa14c14b0, 0x72ab4b91, 0x26628815, 0x9d4baf93, 0xd57b94a9, 0xb7755da1, 0xa80f11f0, 0xfda24c2e)
    ensures Round(State(0xa14c14b0, 0x72ab4b91, 0x26628815, 0x9d4baf93, 0xd57b94a9, 0xb7755da1, 0xa80f11f0, 0xfda24c2e), 0x106aa070, 0x065c43da)
         == State(0x4172328d, 0xa14c14b0, 0x72ab4b91, 0x26628815, 0xfecf0bc6, 0xd57b94a9, 0xb7755da1, 0xa80f11f0)
  {
  }

  lemma Steps6()
    ensures Round(State(0x4172328d, 0xa14c14b0, 0x72ab4b91, 0x26628815, 0xfecf0bc6, 0xd57b94a9, 0xb7755da1, 0xa80f11f0), 0x19a4c116, 0xfb3e89cb)
         == State(0x05757ceb, 0x4172328d, 0xa14c14b0, 0x72ab4b91, 0xbd714038, 0xfecf0bc6, 0xd57b94a9, 0xb7755da1)
    ensures Round(State(0x05757ceb, 0x4172328d, 0xa14c14b0, 0x72ab4b91, 0xbd714038, 0xfecf0bc6, 0xd57b94a9, 0xb7755da1), 0x1e376c08, 0xcc7617db)
         == State(0xf11bfaa8, 0x05757ceb, 0x4172328d, 0xa14c14b0, 0x6e5c390c, 0xbd714038, 0xfecf0bc6, 0xd57b94a9)
    ensures Round(State(0xf11bfaa8, 0x05757ceb, 0x4172328d, 0xa14c14b0, 0x6e5c390c, 0xbd714038, 0xfecf0bc6, 0xd57b94a9), 0x2748774c, 0xb9e66c34)
         == State(0x7a0508a1, 0xf11bfaa8, 0x05757ceb, 0x4172328d, 0x52f1ccf7, 0x6e5c390c, 0xbd714038, 0xfecf0bc6)
    ensures Round(State(0x7a0508a1, 0xf11bfaa8, 0x05757ceb, 0x4172328d, 0x52f1ccf7, 0x6e5c390c, 0xbd714038, 0xfecf0bc6), 0x34b0bcb5, 0xa9993667)
         == State(0x886e7a22, 0x7a0508a1, 0xf11bfaa8, 0x05757ceb, 0x49231c1e, 0x52f1ccf7, 0x6e5c390c, 0xbd714038)
    ensures Round(State(0x886e7a22, 0x7a0508a1, 0xf11bfaa8, 0x05757ceb, 0x49231c1e, 0x52f1ccf7, 0x6e5c390c, 0xbd714038), 0x391c0cb3, 0x84badedd)
         == State(0x101fd28f, 0x886e7a22, 0x7a0508a1, 0xf11bfaa8, 0x529e7d00, 0x49231c1e, 0x52f1ccf7, 0x6e5c390c)
    ensures Round(State(0x101fd28f, 0x886e7a22, 0x7a0508a1, 0xf11bfaa8, 0x529e7d00, 0x49231c1e, 0x52f1ccf7, 0x6e5c390c), 0x4ed8aa4a, 0xc21462bc)
         == State(0xf5702fdb, 0x101fd28f, 0x886e7a22, 0x7a0508a1, 0x9f4787c3, 0x529e7d00, 0x49231c1e, 0x52f1ccf7)
    ensures Round(State(0xf5702fdb, 0x101fd28f, 0x886e7a22, 0x7a0508a1, 0x9f4787c3, 0x529e7d00, 0x49231c1e, 0x52f1ccf7), 0x5b9cca4f, 0x1487472c)
         == State(0x3ec45cdb, 0xf5702fdb, 0x101fd28f, 0x886e7a22, 0xe50e1b4f, 0x9f4787c3, 0x529e7d00, 0x49231c1e)
    ensures Round(State(0x3ec45cdb, 0xf5702fdb, 0x101fd28f, 0x886e7a22, 0xe50e1b4f, 0x9f4787c3, 0x529e7d00, 0x49231c1e), 0x682e6ff3, 0xb20f7a99)
         == State(0x38cc9913, 0x3ec45cdb, 0xf5702fdb, 0x101fd28f, 0x54cb266b, 0xe50e1b4f, 0x9f4787c3, 0x529e7d00)
  {
  }

  lemma Steps7()
    ensures Round(State(0x38cc9913, 0x3ec45cdb, 0xf5702fdb, 0x101fd28f, 0x54cb266b, 0xe50e1b4f, 0x9f4787c3, 0x529e7d00), 0x748f82ee, 0xef57b9cd)
         == State(0xfcd1887b, 0x38cc9913, 0x3ec45cdb, 0xf5702fdb, 0x9b5e906c, 0x54cb266b, 0xe50e1b4f, 0x9f4787c3)
    ensures Round(State(0xfcd1887b, 0x38cc9913, 0x3ec45cdb, 0xf5702fdb, 0x9b5e906c, 0x54cb266b, 0xe50e1b4f, 0x9f4787c3), 0x78a5636f, 0xebe6b238)
         == State(0xc062d46f, 0xfcd1887b, 0x38cc9913, 0x3ec45cdb, 0x7e44008e, 0x9b5e906c, 0x54cb266b, 0xe50e1b4f)
    ensures Round(State(0xc062d46f, 0xfcd1887b, 0x38cc9913, 0x3ec45cdb, 0x7e44008e, 0x9b5e906c, 0x54cb266b, 0xe50e1b4f), 0x84c87814, 0x9fe3095e)
         == State(0xffb70472, 0xc062d46f, 0xfcd1887b, 0x38cc9913, 0x6d83bfc6, 0x7e44008e, 0x9b5e906c, 0x54cb266b)
    ensures Round(State(0xffb70472, 0xc062d46f, 0xfcd1887b, 0x38cc9913, 0x6d83bfc6, 0x7e44008e, 0x9b5e906c, 0x54cb266b), 0x8cc70208, 0x78bc8d4b)
         == State(0xb6ae8fff, 0xffb70472, 0xc062d46f, 0xfcd1887b, 0xb21bad3d, 0x6d83bfc6, 0x7e44008e, 0x9b5e906c)
    ensures Round(State(0xb6ae8fff, 0xffb70472, 0xc062d46f, 0xfcd1887b, 0xb21bad3d, 0x6d83bfc6, 0x7e44008e, 0x9b5e906c), 0x90befffa, 0xa43fcf15)
         == State(0xb85e2ce9, 0xb6ae8fff, 0xffb70472, 0xc062d46f, 0x961f4894, 0xb21bad3d, 0x6d83bfc6, 0x7e44008e)
    ensures Round(State(0xb85e2ce9, 0xb6ae8fff, 0xffb70472, 0xc062d46f, 0x961f4894, 0xb21bad3d, 0x6d83bfc6, 0x7e44008e), 0xa4506ceb, 0x668b2ff8)
         == State(0x04d24d6c, 0xb85e2ce9, 0xb6ae8fff, 0xffb70472, 0x948d25b6, 0x961f4894, 0xb21bad3d, 0x6d83bfc6)
    ensures Round(State(0x04d24d6c, 0xb85e2ce9, 0xb6ae8fff, 0xffb70472, 0x948d25b6, 0x961f4894, 0xb21bad3d, 0x6d83bfc6), 0xbef9a3f7, 0xeeaba2cc)
         == State(0xd39a2165, 0x04d24d6c, 0xb85e2ce9, 0xb6ae8fff, 0xfb121210, 0x948d25b6, 0x961f4894, 0xb21bad3d)
    ensures Round(State(0xd39a2165, 0x04d24d6c, 0xb85e2ce9, 0xb6ae8fff, 0xfb121210, 0x948d25b6, 0x961f4894, 0xb21bad3d), 0xc67178f2, 0x12b1edeb)
         == State(0x506e3058, 0xd39a2165, 0x04d24d6c, 0xb85e2ce9, 0x5ef50f24, 0xfb121210, 0x948d25b6, 0x961f4894)
  {
  }

  lemma Turns0()
    ensures |BLOCK_ABC| == BLOCK
    ensures Rounds(INIT, BLOCK_ABC, 8) == State(0x85a07b5f, 0xe5030380, 0x2b4209f5, 0x04409a6a, 0x0c657a79, 0x9b27a401, 0x714260ad, 0x43ada245)
  {
    hide Schedule, BLOCK_ABC, RoundConstant, Rounds, Round;
    PaddedExample();
    RoundsNone(INIT, BLOCK_ABC);
    Words0();
    Constants0();
    Steps0();
    RoundsNext(INIT, BLOCK_ABC, 0);
    RoundsNext(INIT, BLOCK_ABC, 1);
    RoundsNext(INIT, BLOCK_ABC, 2);
    RoundsNext(INIT, BLOCK_ABC, 3);
    RoundsNext(INIT, BLOCK_ABC, 4);
    RoundsNext(INIT, BLOCK_ABC, 5);
    RoundsNext(INIT, BLOCK_ABC, 6);
    RoundsNext(INIT, BLOCK_ABC, 7);
  }

  lemma Turns1()
    ensures |BLOCK_ABC| == BLOCK
    ensures Rounds(INIT, BLOCK_ABC, 16) == State(0xb0fa238e, 0xc0645fde, 0xd932eb16, 0x87912990, 0x07590dcd, 0x0b92f20c, 0x745a48de, 0x1e578218)
  {
    hide Schedule, BLOCK_ABC, RoundConstant, Rounds, Round;
    Turns0();
    Words1();
    Constants1();
    Steps1();
    RoundsNext(INIT, BLOCK_ABC, 8);
    RoundsNext(INIT, BLOCK_ABC, 9);
    RoundsNext(INIT, BLOCK_ABC, 10);
    RoundsNext(INIT, BLOCK_ABC, 11);
    RoundsNext(INIT, BLOCK_ABC, 12);
    RoundsNext(INIT, BLOCK_ABC, 13);
    RoundsNext(INIT, BLOCK_ABC, 14);
    RoundsNext(INIT, BLOCK_ABC, 15);
  }

  lemma Turns2()
    ensures |BLOCK_ABC| == BLOCK
    ensures Rounds(INIT, BLOCK_ABC, 24) == State(0xc5d53d8d, 0xa7a3623f, 0xc2606d6d, 0x9dc68b63, 0xaa47c347, 0x49f5114a, 0xe1257970, 0x8ada8930)
  {
    hide Schedule, BLOCK_ABC, RoundConstant, Rounds, Round;
    Turns1();
    Words2();
    Constants2();
    Steps2();
    RoundsNext(INIT, BLOCK_ABC, 16);
    RoundsNext(INIT, BLOCK_ABC, 17);
    RoundsNext(INIT, BLOCK_ABC, 18);
    RoundsNext(INIT, BLOCK_ABC, 19);
    RoundsNext(INIT, BLOCK_ABC, 20);
    RoundsNext(INIT, BLOCK_ABC, 21);
    RoundsNext(INIT, BLOCK_ABC, 22);
    RoundsNext(INIT, BLOCK_ABC, 23);
  }

  lemma Turns3()
    ensures |BLOCK_ABC| == BLOCK
    ensures Rounds(INIT, BLOCK_ABC, 32) == State(0x73b33bf5, 0xea992a22, 0xa0060b30, 0x363482c9, 0xba591112, 0x0109ab3a, 0xade79437, 0x6112a3b7)
  {
    hide Schedule, BLOCK_ABC, RoundConstant, Rounds, Round;
    Turns2();
    Words3();
    Constants3();
    Steps3();
    RoundsNext(INIT, BLOCK_ABC, 24);
    RoundsNext(INIT, BLOCK_ABC, 25);
    RoundsNext(INIT, BLOCK_ABC, 26);
    RoundsNext(INIT, BLOCK_ABC, 27);
    RoundsNext(INIT, BLOCK_ABC, 28);
    RoundsNext(INIT, BLOCK_ABC, 29);
    RoundsNext(INIT, BLOCK_ABC, 30);
    RoundsNext(INIT, BLOCK_ABC, 31);
  }

  lemma Turns4()
    ensures |BLOCK_ABC| == BLOCK
    ensures Rounds(INIT, BLOCK_ABC, 40) == State(0x79ea687a, 0x6dc57a8a, 0x34df1604, 0x41a65cb1, 0x1efbc0a0, 0xf0781bc8, 0xa507a53d, 0x0772a26b)
  {
    hide Schedule, BLOCK_ABC, RoundConstant, Rounds, Round;
    Turns3();
    Words4();
    Constants4();
    Steps4();
    RoundsNext(INIT, BLOCK_ABC, 32);
    RoundsNext(INIT, BLOCK_ABC, 33);
    RoundsNext(INIT, BLOCK_ABC, 34);
    RoundsNext(INIT, BLOCK_ABC, 35);
    RoundsNext(INIT, BLOCK_ABC, 36);
    RoundsNext(INIT, BLOCK_ABC, 37);
    RoundsNext(INIT, BLOCK_ABC, 38);
    RoundsNext(INIT, BLOCK_ABC, 39);
  }

  lemma Turns5()
    ensures |BLOCK_ABC| == BLOCK
    ensures Rounds(INIT, BLOCK_ABC, 48) == State(0x4172328d, 0xa14c14b0, 0x72ab4b91, 0x26628815, 0xfecf0bc6, 0xd57b94a9, 0xb7755da1, 0xa80f11f0)
  {
    hide Schedule, BLOCK_ABC, RoundConstant, Rounds, Round;
    Turns4();
    Words5();
    Constants5();
    Steps5();
    RoundsNext(INIT, BLOCK_ABC, 40);
    RoundsNext(INIT, BLOCK_ABC, 41);
    RoundsNext(INIT, BLOCK_ABC, 42);
    RoundsNext(INIT, BLOCK_ABC, 43);
    RoundsNext(INIT, BLOCK_ABC, 44);
    RoundsNext(INIT, BLOCK_ABC, 45);
    RoundsNext(INIT, BLOCK_ABC, 46);
    RoundsNext(INIT, BLOCK_ABC, 47);
  }

  lemma Turns6()
    ensures |BLOCK_ABC| == BLOCK
    ensures Rounds(INIT, BLOCK_ABC, 56) == State(0x38cc9913, 0x3ec45cdb, 0xf5702fdb, 0x101fd28f, 0x54cb266b, 0xe50e1b4f, 0x9f4787c3, 0x529e7d00)
  {
    hide Schedule, BLOCK_ABC, RoundConstant, Rounds, Round;
    Turns5();
    Words6();
    Constants6();
    Steps6();
    RoundsNext(INIT, BLOCK_ABC, 48);
    RoundsNext(INIT, BLOCK_ABC, 49);
    RoundsNext(INIT, BLOCK_ABC, 50);
    RoundsNext(INIT, BLOCK_ABC, 51);
    RoundsNext(INIT, BLOCK_ABC, 52);
    RoundsNext(INIT, BLOCK_ABC, 53);
    RoundsNext(INIT, BLOCK_ABC, 54);
    RoundsNext(INIT, BLOCK_ABC, 55);
  }

  lemma Turns7()
    ensures |BLOCK_ABC| == BLOCK
    ensures Rounds(INIT, BLOCK_ABC, 64) == State(0x506e3058, 0xd39a2165, 0x04d24d6c, 0xb85e2ce9, 0x5ef50f24, 0xfb121210, 0x948d25b6, 0x961f4894)
  {
    hide Schedule, BLOCK_ABC, RoundConstant, Rounds, Round;
    Turns6();
    Words7();
    Constants7();
    Steps7();
    RoundsNext(INIT, BLOCK_ABC, 56);
    RoundsNext(INIT, BLOCK_ABC, 57);
    RoundsNext(INIT, BLOCK_ABC, 58);
    RoundsNext(INIT, BLOCK_ABC, 59);
    RoundsNext(INIT, BLOCK_ABC, 60);
    RoundsNext(INIT, BLOCK_ABC, 61);
    RoundsNext(INIT, BLOCK_ABC, 62);
    RoundsNext(INIT, BLOCK_ABC, 63);
  }

  const DIGEST_ABC: seq<Byte> := [
    0xba, 0x78, 0x16, 0xbf, 0x8f, 0x01, 0xcf, 0xea, 0x41, 0x41, 0x40, 0xde, 0x5d, 0xae, 0x22, 0x23,
    0xb0, 0x03, 0x61, 0xa3, 0x96, 0x17, 0x7a, 0x9c, 0xb4, 0x10, 0xff, 0x61, 0xf2, 0x00, 0x15, 0xad]

  lemma OneBlock(s: State, data: seq<Byte>)
    requires |data| == BLOCK
    ensures Fold(s, data) == Compress(s, data)
  {
    FoldLast(s, data);
    FoldNothing(s);
    assert data[..0] == [] && data[0..] == data;
  }

  lemma FinalState()
    ensures |BLOCK_ABC| == BLOCK && Compress(INIT, BLOCK_ABC) == State(0xba7816bf, 0x8f01cfea, 0x414140de, 0x5dae2223, 0xb00361a3, 0x96177a9c, 0xb410ff61, 0xf20015ad)
  {
    Turns7();
    hide Rounds, BLOCK_ABC;
  }

  lemma Stored0() ensures StoreBE32(0xba7816bf) == [0xba, 0x78, 0x16, 0xbf] {
  }

  lemma Stored1() ensures StoreBE32(0x8f01cfea) == [0x8f, 0x01, 0xcf, 0xea] {
  }

  lemma Stored2() ensures StoreBE32(0x414140de) == [0x41, 0x41, 0x40, 0xde] {
  }

  lemma Stored3() ensures StoreBE32(0x5dae2223) == [0x5d, 0xae, 0x22, 0x23] {
  }

  lemma Stored4() ensures StoreBE32(0xb00361a3) == [0xb0, 0x03, 0x61, 0xa3] {
  }

  lemma Stored5() ensures StoreBE32(0x96177a9c) == [0x96, 0x17, 0x7a, 0x9c] {
  }

  lemma Stored6() ensures StoreBE32(0xb410ff61) == [0xb4, 0x10, 0xff, 0x61] {
  }

  lemma Stored7() ensures StoreBE32(0xf20015ad) == [0xf2, 0x00, 0x15, 0xad] {
  }

  lemma DigestExample()
    ensures Digest(MESSAGE) == DIGEST_ABC
  {
    PaddedExample();
    hide Fold, Compress, Padded, BLOCK_ABC, MESSAGE, StoreBE32;
    OneBlock(INIT, BLOCK_ABC);
    FinalState();
    Stored0();
    Stored1();
    Stored2();
    Stored3();
    Stored4();
    Stored5();
    Stored6();
    Stored7();
  }
}
