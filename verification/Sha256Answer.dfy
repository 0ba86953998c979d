/** A known answer: the SHA-256 digest of the message of two blocks in appendix B.2 of FIPS 180-2, word by word. */
module Sha256Answer {
  import opened Arith
  import opened Digits
  import opened Words
  import opened Sha256Spec
  import opened WordVectors
  import opened Sha256Vectors

  lemma Writes0()
    ensures Written(0x428a2f98) == 0x428a2f98 && Written(0x71374491) == 0x71374491
    ensures Written(0xb5c0fbcf) == 0xb5c0fbcf && Written(0xe9b5dba5) == 0xe9b5dba5
  {}

  lemma Keys0()
    ensures InKey(0, 0x428a2f98) && InKey(1, 0x71374491) && InKey(2, 0xb5c0fbcf) && InKey(3, 0xe9b5dba5)
  {
    hide InKey, Written, K_B, K_C, K_D;
    Writes0();
    KeyIs(K_A, 0, 0, 0x428a2f98);
    KeyIs(K_A, 0, 1, 0x71374491);
    KeyIs(K_A, 0, 2, 0xb5c0fbcf);
    KeyIs(K_A, 0, 3, 0xe9b5dba5);
  }

  lemma Writes1()
    ensures Written(0x3956c25b) == 0x3956c25b && Written(0x59f111f1) == 0x59f111f1
    ensures Written(0x923f82a4) == 0x923f82a4 && Written(0xab1c5ed5) == 0xab1c5ed5
  {}

  lemma Keys1()
    ensures InKey(4, 0x3956c25b) && InKey(5, 0x59f111f1) && InKey(6, 0x923f82a4) && InKey(7, 0xab1c5ed5)
  {
    hide InKey, Written, K_B, K_C, K_D;
    Writes1();
    KeyIs(K_A, 0, 4, 0x3956c25b);
    KeyIs(K_A, 0, 5, 0x59f111f1);
    KeyIs(K_A, 0, 6, 0x923f82a4);
    KeyIs(K_A, 0, 7, 0xab1c5ed5);
  }

  lemma Writes2()
    ensures Written(0xd807aa98) == 0xd807aa98 && Written(0x12835b01) == 0x12835b01
    ensures Written(0x243185be) == 0x243185be && Written(0x550c7dc3) == 0x550c7dc3
  {}

  lemma Keys2()
    ensures InKey(8, 0xd807aa98) && InKey(9, 0x12835b01) && InKey(10, 0x243185be) && InKey(11, 0x550c7dc3)
  {
    hide InKey, Written, K_B, K_C, K_D;
    Writes2();
    KeyIs(K_A, 0, 8, 0xd807aa98);
    KeyIs(K_A, 0, 9, 0x12835b01);
    KeyIs(K_A, 0, 10, 0x243185be);
    KeyIs(K_A, 0, 11, 0x550c7dc3);
  }

  lemma Writes3()
    ensures Written(0x72be5d74) == 0x72be5d74 && Written(0x80deb1fe) == 0x80deb1fe
    ensures Written(0x9bdc06a7) == 0x9bdc06a7 && Written(0xc19bf174) == 0xc19bf174
  {}

  lemma Keys3()
    ensures InKey(12, 0x72be5d74) && InKey(13, 0x80deb1fe) && InKey(14, 0x9bdc06a7) && InKey(15, 0xc19bf174)
  {
    hide InKey, Written, K_B, K_C, K_D;
    Writes3();
    KeyIs(K_A, 0, 12, 0x72be5d74);
    KeyIs(K_A, 0, 13, 0x80deb1fe);
    KeyIs(K_A, 0, 14, 0x9bdc06a7);
    KeyIs(K_A, 0, 15, 0xc19bf174);
  }

  lemma Writes4()
    ensures Written(0xe49b69c1) == 0xe49b69c1 && Written(0xefbe4786) == 0xefbe4786
    ensures Written(0x0fc19dc6) == 0x0fc19dc6 && Written(0x240ca1cc) == 0x240ca1cc
  {}

  lemma Keys4()
    ensures InKey(16, 0xe49b69c1) && InKey(17, 0xefbe4786) && InKey(18, 0x0fc19dc6) && InKey(19, 0x240ca1cc)
  {
    hide InKey, Written, K_A, K_C, K_D;
    Writes4();
    KeyIs(K_B, 1, 0, 0xe49b69c1);
    KeyIs(K_B, 1, 1, 0xefbe4786);
    KeyIs(K_B, 1, 2, 0x0fc19dc6);
    KeyIs(K_B, 1, 3, 0x240ca1cc);
  }

  lemma Writes5()
    ensures Written(0x2de92c6f) == 0x2de92c6f && Written(0x4a7484aa) == 0x4a7484aa
    ensures Written(0x5cb0a9dc) == 0x5cb0a9dc && Written(0x76f988da) == 0x76f988da
  {}

  lemma Keys5()
    ensures InKey(20, 0x2de92c6f) && InKey(21, 0x4a7484aa) && InKey(22, 0x5cb0a9dc) && InKey(23, 0x76f988da)
  {
    hide InKey, Written, K_A, K_C, K_D;
    Writes5();
    KeyIs(K_B, 1, 4, 0x2de92c6f);
    KeyIs(K_B, 1, 5, 0x4a7484aa);
    KeyIs(K_B, 1, 6, 0x5cb0a9dc);
    KeyIs(K_B, 1, 7, 0x76f988da);
  }

  lemma Writes6()
    ensures Written(0x983e5152) == 0x983e5152 && Written(0xa831c66d) == 0xa831c66d
    ensures Written(0xb00327c8) == 0xb00327c8 && Written(0xbf597fc7) == 0xbf597fc7
  {}

  lemma Keys6()
    ensures InKey(24, 0x983e5152) && InKey(25, 0xa831c66d) && InKey(26, 0xb00327c8) && InKey(27, 0xbf597fc7)
  {
    hide InKey, Written, K_A, K_C, K_D;
    Writes6();
    KeyIs(K_B, 1, 8, 0x983e5152);
    KeyIs(K_B, 1, 9, 0xa831c66d);
    KeyIs(K_B, 1, 10, 0xb00327c8);
    KeyIs(K_B, 1, 11, 0xbf597fc7);
  }

  lemma Writes7()
    ensures Written(0xc6e00bf3) == 0xc6e00bf3 && Written(0xd5a79147) == 0xd5a79147
    ensures Written(0x06ca6351) == 0x06ca6351 && Written(0x14292967) == 0x14292967
  {}

  lemma Keys7()
    ensures InKey(28, 0xc6e00bf3) && InKey(29, 0xd5a79147) && InKey(30, 0x06ca6351) && InKey(31, 0x14292967)
  {
    hide InKey, Written, K_A, K_C, K_D;
    Writes7();
    KeyIs(K_B, 1, 12, 0xc6e00bf3);
    KeyIs(K_B, 1, 13, 0xd5a79147);
    KeyIs(K_B, 1, 14, 0x06ca6351);
    KeyIs(K_B, 1, 15, 0x14292967);
  }

  lemma Writes8()
    ensures Written(0x27b70a85) == 0x27b70a85 && Written(0x2e1b2138) == 0x2e1b2138
    ensures Written(0x4d2c6dfc) == 0x4d2c6dfc && Written(0x53380d13) == 0x53380d13
  {}

  lemma Keys8()
    ensures InKey(32, 0x27b70a85) && InKey(33, 0x2e1b2138) && InKey(34, 0x4d2c6dfc) && InKey(35, 0x53380d13)
  {
    hide InKey, Written, K_A, K_B, K_D;
    Writes8();
    KeyIs(K_C, 2, 0, 0x27b70a85);
    KeyIs(K_C, 2, 1, 0x2e1b2138);
    KeyIs(K_C, 2, 2, 0x4d2c6dfc);
    KeyIs(K_C, 2, 3, 0x53380d13);
  }

  lemma Writes9()
    ensures Written(0x650a7354) == 0x650a7354 && Written(0x766a0abb) == 0x766a0abb
    ensures Written(0x81c2c92e) == 0x81c2c92e && Written(0x92722c85) == 0x92722c85
  {}

  lemma Keys9()
    ensures InKey(36, 0x650a7354) && InKey(37, 0x766a0abb) && InKey(38, 0x81c2c92e) && InKey(39, 0x92722c85)
  {
    hide InKey, Written, K_A, K_B, K_D;
    Writes9();
    KeyIs(K_C, 2, 4, 0x650a7354);
    KeyIs(K_C, 2, 5, 0x766a0abb);
    KeyIs(K_C, 2, 6, 0x81c2c92e);
    KeyIs(K_C, 2, 7, 0x92722c85);
  }

  lemma Writes10()
    ensures Written(0xa2bfe8a1) == 0xa2bfe8a1 && Written(0xa81a664b) == 0xa81a664b
    ensures Written(0xc24b8b70) == 0xc24b8b70 && Written(0xc76c51a3) == 0xc76c51a3
  {}

  lemma Keys10()
    ensures InKey(40, 0xa2bfe8a1) && InKey(41, 0xa81a664b) && InKey(42, 0xc24b8b70) && InKey(43, 0xc76c51a3)
  {
    hide InKey, Written, K_A, K_B, K_D;
    Writes10();
    KeyIs(K_C, 2, 8, 0xa2bfe8a1);
    KeyIs(K_C, 2, 9, 0xa81a664b);
    KeyIs(K_C, 2, 10, 0xc24b8b70);
    KeyIs(K_C, 2, 11, 0xc76c51a3);
  }

  lemma Writes11()
    ensures Written(0xd192e819) == 0xd192e819 && Written(0xd6990624) == 0xd6990624
    ensures Written(0xf40e3585) == 0xf40e3585 && Written(0x106aa070) == 0x106aa070
  {}

  lemma Keys11()
    ensures InKey(44, 0xd192e819) && InKey(45, 0xd6990624) && InKey(46, 0xf40e3585) && InKey(47, 0x106aa070)
  {
    hide InKey, Written, K_A, K_B, K_D;
    Writes11();
    KeyIs(K_C, 2, 12, 0xd192e819);
    KeyIs(K_C, 2, 13, 0xd6990624);
    KeyIs(K_C, 2, 14, 0xf40e3585);
    KeyIs(K_C, 2, 15, 0x106aa070);
  }

  lemma Writes12()
    ensures Written(0x19a4c116) == 0x19a4c116 && Written(0x1e376c08) == 0x1e376c08
    ensures Written(0x2748774c) == 0x2748774c && Written(0x34b0bcb5) == 0x34b0bcb5
  {}

  lemma Keys12()
    ensures InKey(48, 0x19a4c116) && InKey(49, 0x1e376c08) && InKey(50, 0x2748774c) && InKey(51, 0x34b0bcb5)
  {
    hide InKey, Written, K_A, K_B, K_C;
    Writes12();
    KeyIs(K_D, 3, 0, 0x19a4c116);
    KeyIs(K_D, 3, 1, 0x1e376c08);
    KeyIs(K_D, 3, 2, 0x2748774c);
    KeyIs(K_D, 3, 3, 0x34b0bcb5);
  }

  lemma Writes13()
    ensures Written(0x391c0cb3) == 0x391c0cb3 && Written(0x4ed8aa4a) == 0x4ed8aa4a
    ensures Written(0x5b9cca4f) == 0x5b9cca4f && Written(0x682e6ff3) == 0x682e6ff3
  {}

  lemma Keys13()
    ensures InKey(52, 0x391c0cb3) && InKey(53, 0x4ed8aa4a) && InKey(54, 0x5b9cca4f) && InKey(55, 0x682e6ff3)
  {
    hide InKey, Written, K_A, K_B, K_C;
    Writes13();
    KeyIs(K_D, 3, 4, 0x391c0cb3);
    KeyIs(K_D, 3, 5, 0x4ed8aa4a);
    KeyIs(K_D, 3, 6, 0x5b9cca4f);
    KeyIs(K_D, 3, 7, 0x682e6ff3);
  }

  lemma Writes14()
    ensures Written(0x748f82ee) == 0x748f82ee && Written(0x78a5636f) == 0x78a5636f
    ensures Written(0x84c87814) == 0x84c87814 && Written(0x8cc70208) == 0x8cc70208
  {}

  lemma Keys14()
    ensures InKey(56, 0x748f82ee) && InKey(57, 0x78a5636f) && InKey(58, 0x84c87814) && InKey(59, 0x8cc70208)
  {
    hide InKey, Written, K_A, K_B, K_C;
    Writes14();
    KeyIs(K_D, 3, 8, 0x748f82ee);
    KeyIs(K_D, 3, 9, 0x78a5636f);
    KeyIs(K_D, 3, 10, 0x84c87814);
    KeyIs(K_D, 3, 11, 0x8cc70208);
  }

  lemma Writes15()
    ensures Written(0x90befffa) == 0x90befffa && Written(0xa4506ceb) == 0xa4506ceb
    ensures Written(0xbef9a3f7) == 0xbef9a3f7 && Written(0xc67178f2) == 0xc67178f2
  {}

  lemma Keys15()
    ensures InKey(60, 0x90befffa) && InKey(61, 0xa4506ceb) && InKey(62, 0xbef9a3f7) && InKey(63, 0xc67178f2)
  {
    hide InKey, Written, K_A, K_B, K_C;
    Writes15();
    KeyIs(K_D, 3, 12, 0x90befffa);
    KeyIs(K_D, 3, 13, 0xa4506ceb);
    KeyIs(K_D, 3, 14, 0xbef9a3f7);
    KeyIs(K_D, 3, 15, 0xc67178f2);
  }

  const ROW_A: seq<Byte> := [0x61, 0x62, 0x63, 0x64, 0x62, 0x63, 0x64, 0x65, 0x63, 0x64, 0x65, 0x66, 0x64, 0x65, 0x66, 0x67]

  const ROW_B: seq<Byte> := [0x65, 0x66, 0x67, 0x68, 0x66, 0x67, 0x68, 0x69, 0x67, 0x68, 0x69, 0x6a, 0x68, 0x69, 0x6a, 0x6b]

  const ROW_C: seq<Byte> := [0x69, 0x6a, 0x6b, 0x6c, 0x6a, 0x6b, 0x6c, 0x6d, 0x6b, 0x6c, 0x6d, 0x6e, 0x6c, 0x6d, 0x6e, 0x6f]

  const ROW_D: seq<Byte> := [0x6d, 0x6e, 0x6f, 0x70, 0x6e, 0x6f, 0x70, 0x71]

  /** The message, and its padded blocks. */
  const MESSAGE: seq<Byte> := ROW_A + ROW_B + ROW_C + ROW_D

  const FIRST: Block := MESSAGE + [0x80] + ZeroBytes(7)

  lemma First0(h: Chain, s: Stage) returns (n: Stage)
    requires Reached(h, FIRST, 0, s)
    requires s == Stage(Vector(0x6a09e667, 0xbb67ae85, 0x3c6ef372, 0xa54ff53a, 0x510e527f, 0x9b05688c, 0x1f83d9ab, 0x5be0cd19),
        Vector(0x61626364, 0x62636465, 0x63646566, 0x64656667, 0x65666768, 0x66676869, 0x6768696a, 0x68696a6b),
        Vector(0x696a6b6c, 0x6a6b6c6d, 0x6b6c6d6e, 0x6c6d6e6f, 0x6d6e6f70, 0x6e6f7071, 0x80000000, 0x00000000))
    ensures n == Stage(Vector(0xd237e6db, 0x485835b7, 0x55c8ef48, 0xf921c212, 0xa401d211, 0x39a5b2ca, 0x7ff91c94, 0x05c4f88a),
        Vector(0x696a6b6c, 0x6a6b6c6d, 0x6b6c6d6e, 0x6c6d6e6f, 0x6d6e6f70, 0x6e6f7071, 0x80000000, 0x00000000),
        Vector(0xeb8012ad, 0xa7c3ae92, 0x76e93ba2, 0xba42e743, 0x92a92204, 0xd847e75e, 0x9e160036, 0xb280a7cb))
    ensures Reached(h, FIRST, 8, n)
  {
    hide Reached, InKey, K, FIRST;
    
    Keys0();
    Keys1();
    n := s;
    n := Advance(h, FIRST, 0, n, 0x428a2f98, 0xeb8012ad, 0x5d6aebb1, 0xfa2a4606);
    n := Advance(h, FIRST, 1, n, 0x71374491, 0xa7c3ae92, 0x2f2d5fcf, 0x4eb1cfce);
    n := Advance(h, FIRST, 2, n, 0xb5c0fbcf, 0x76e93ba2, 0x97651825, 0x62d5c49e);
    n := Advance(h, FIRST, 3, n, 0xe9b5dba5, 0xba42e743, 0x4a8d64d5, 0x6494841b);
    n := Advance(h, FIRST, 4, n, 0x3956c25b, 0x92a92204, 0xf921c212, 0x05c4f88a);
    n := Advance(h, FIRST, 5, n, 0x59f111f1, 0xd847e75e, 0x55c8ef48, 0x7ff91c94);
    n := Advance(h, FIRST, 6, n, 0x923f82a4, 0x9e160036, 0x485835b7, 0x39a5b2ca);
    n := Advance(h, FIRST, 7, n, 0xab1c5ed5, 0xb280a7cb, 0xd237e6db, 0xa401d211);
  }

  lemma First1(h: Chain, s: Stage) returns (n: Stage)
    requires Reached(h, FIRST, 8, s)
    requires s == Stage(Vector(0xd237e6db, 0x485835b7, 0x55c8ef48, 0xf921c212, 0xa401d211, 0x39a5b2ca, 0x7ff91c94, 0x05c4f88a),
        Vector(0x696a6b6c, 0x6a6b6c6d, 0x6b6c6d6e, 0x6c6d6e6f, 0x6d6e6f70, 0x6e6f7071, 0x80000000, 0x00000000),
        Vector(0xeb8012ad, 0xa7c3ae92, 0x76e93ba2, 0xba42e743, 0x92a92204, 0xd847e75e, 0x9e160036, 0xb280a7cb))
    ensures n == Stage(Vector(0xc3486194, 0xdd16cbb3, 0xd68e6457, 0x101a4861, 0x1496a54f, 0x9162aded, 0x9243f8af, 0x839a0fc9),
        Vector(0xeb8012ad, 0xa7c3ae92, 0x76e93ba2, 0xba42e743, 0x92a92204, 0xd847e75e, 0x9e160036, 0xb280a7cb),
        Vector(0xddeb1516, 0xf36586f4, 0x969cd048, 0xe959d99d, 0x6accc0ec, 0xf54cb098, 0x2af1b2da, 0xee59c4c9))
    ensures Reached(h, FIRST, 16, n)
  {
    hide Reached, InKey, K, FIRST;
    
    Keys2();
    Keys3();
    n := s;
    n := Advance(h, FIRST, 8, n, 0xd807aa98, 0xddeb1516, 0x359f2bce, 0xc09ffec4);
    n := Advance(h, FIRST, 9, n, 0x12835b01, 0xf36586f4, 0x3a474b2b, 0x9037b3b8);
    n := Advance(h, FIRST, 10, n, 0x243185be, 0x969cd048, 0xb8e2b4cb, 0x443ed29e);
    n := Advance(h, FIRST, 11, n, 0x550c7dc3, 0xe959d99d, 0x1762215c, 0xee1c97a8);
    n := Advance(h, FIRST, 12, n, 0x72be5d74, 0x6accc0ec, 0x101a4861, 0x839a0fc9);
    n := Advance(h, FIRST, 13, n, 0x80deb1fe, 0xf54cb098, 0xd68e6457, 0x9243f8af);
    n := Advance(h, FIRST, 14, n, 0x9bdc06a7, 0x2af1b2da, 0xdd16cbb3, 0x9162aded);
    n := Advance(h, FIRST, 15, n, 0xc19bf174, 0xee59c4c9, 0xc3486194, 0x1496a54f);
  }

  lemma First2(h: Chain, s: Stage) returns (n: Stage)
    requires Reached(h, FIRST, 16, s)
    requires s == Stage(Vector(0xc3486194, 0xdd16cbb3, 0xd68e6457, 0x101a4861, 0x1496a54f, 0x9162aded, 0x9243f8af, 0x839a0fc9),
        Vector(0xeb8012ad, 0xa7c3ae92, 0x76e93ba2, 0xba42e743, 0x92a92204, 0xd847e75e, 0x9e160036, 0xb280a7cb),
        Vector(0xddeb1516, 0xf36586f4, 0x969cd048, 0xe959d99d, 0x6accc0ec, 0xf54cb098, 0x2af1b2da, 0xee59c4c9))
    ensures n == Stage(Vector(0x59fce6b9, 0xae2e2d4f, 0x1b2b66b8, 0xd70ac17d, 0xa2c7d51d, 0xf074fc95, 0xd560b028, 0x7cc6b262),
        Vector(0xddeb1516, 0xf36586f4, 0x969cd048, 0xe959d99d, 0x6accc0ec, 0xf54cb098, 0x2af1b2da, 0xee59c4c9),
        Vector(0xa835e16a, 0x1dff4429, 0xd6e15959, 0xc397cd6e, 0x6f1801ca, 0x21574205, 0x35ff7a84, 0x9743ee78))
    ensures Reached(h, FIRST, 24, n)
  {
    hide Reached, InKey, K, FIRST;
    
    Keys4();
    Keys5();
    n := s;
    n := Advance(h, FIRST, 16, n, 0xe49b69c1, 0xa835e16a, 0xb9dcacb1, 0xd4f64250);
    n := Advance(h, FIRST, 17, n, 0xefbe4786, 0x1dff4429, 0x046a193e, 0x885370b6);
    n := Advance(h, FIRST, 18, n, 0x0fc19dc6, 0xd6e15959, 0xf402f058, 0x6f433549);
    n := Advance(h, FIRST, 19, n, 0x240ca1cc, 0xc397cd6e, 0x2139187b, 0x7c304206);
    n := Advance(h, FIRST, 20, n, 0x2de92c6f, 0x6f1801ca, 0xd70ac17d, 0x7cc6b262);
    n := Advance(h, FIRST, 21, n, 0x4a7484aa, 0x21574205, 0x1b2b66b8, 0xd560b028);
    n := Advance(h, FIRST, 22, n, 0x5cb0a9dc, 0x35ff7a84, 0xae2e2d4f, 0xf074fc95);
    n := Advance(h, FIRST, 23, n, 0x76f988da, 0x9743ee78, 0x59fce6b9, 0xa2c7d51d);
  }

  lemma First3(h: Chain, s: Stage) returns (n: Stage)
    requires Reached(h, FIRST, 24, s)
    requires s == Stage(Vector(0x59fce6b9, 0xae2e2d4f, 0x1b2b66b8, 0xd70ac17d, 0xa2c7d51d, 0xf074fc95, 0xd560b028, 0x7cc6b262),
        Vector(0xddeb1516, 0xf36586f4, 0x969cd048, 0xe959d99d, 0x6accc0ec, 0xf54cb098, 0x2af1b2da, 0xee59c4c9),
        Vector(0xa835e16a, 0x1dff4429, 0xd6e15959, 0xc397cd6e, 0x6f1801ca, 0x21574205, 0x35ff7a84, 0x9743ee78))
    ensures n == Stage(Vector(0x5581ab07, 0xeb43f3ed, 0xdf7151a0, 0x74bcf468, 0xdf980085, 0x0635d880, 0x7629c961, 0x72abaecd),
        Vector(0xa835e16a, 0x1dff4429, 0xd6e15959, 0xc397cd6e, 0x6f1801ca, 0x21574205, 0x35ff7a84, 0x9743ee78),
        Vector(0xe44183e7, 0x0d09f00d, 0x9c89af54, 0x042d5bef, 0x71f134d0, 0x0f94f463, 0x7e49dc63, 0x6f65c997))
    ensures Reached(h, FIRST, 32, n)
  {
    hide Reached, InKey, K, FIRST;
    
    Keys6();
    Keys7();
    n := s;
    n := Advance(h, FIRST, 24, n, 0x983e5152, 0xe44183e7, 0x4a885065, 0x763597fb);
    n := Advance(h, FIRST, 25, n, 0xa831c66d, 0x0d09f00d, 0x573221da, 0x36e74eb4);
    n := Advance(h, FIRST, 26, n, 0xb00327c8, 0x9c89af54, 0x128661da, 0x1162d575);
    n := Advance(h, FIRST, 27, n, 0xbf597fc7, 0x042d5bef, 0x73f858af, 0xe77c797f);
    n := Advance(h, FIRST, 28, n, 0xc6e00bf3, 0x71f134d0, 0x74bcf468, 0x72abaecd);
    n := Advance(h, FIRST, 29, n, 0xd5a79147, 0x0f94f463, 0xdf7151a0, 0x7629c961);
    n := Advance(h, FIRST, 30, n, 0x06ca6351, 0x7e49dc63, 0xeb43f3ed, 0x0635d880);
    n := Advance(h, FIRST, 31, n, 0x14292967, 0x6f65c997, 0x5581ab07, 0xdf980085);
  }

  lemma First4(h: Chain, s: Stage) returns (n: Stage)
    requires Reached(h, FIRST, 32, s)
    requires s == Stage(Vector(0x5581ab07, 0xeb43f3ed, 0xdf7151a0, 0x74bcf468, 0xdf980085, 0x0635d880, 0x7629c961, 0x72abaecd),
        Vector(0xa835e16a, 0x1dff4429, 0xd6e15959, 0xc397cd6e, 0x6f1801ca, 0x21574205, 0x35ff7a84, 0x9743ee78),
        Vector(0xe44183e7, 0x0d09f00d, 0x9c89af54, 0x042d5bef, 0x71f134d0, 0x0f94f463, 0x7e49dc63, 0x6f65c997))
    ensures n == Stage(Vector(0x7e4d30b8, 0x91ac9d5d, 0xa985b4be, 0x2c55d3a6, 0x9f5b9b6d, 0x68d8d590, 0xf72bf353, 0xb067c1af),
        Vector(0xe44183e7, 0x0d09f00d, 0x9c89af54, 0x042d5bef, 0x71f134d0, 0x0f94f463, 0x7e49dc63, 0x6f65c997),
        Vector(0x0b706583, 0x179312ca, 0x503054e9, 0xba125c39, 0x7e9392c9, 0xd5cbaa1e, 0x78e0585d, 0xf6e7611c))
    ensures Reached(h, FIRST, 40, n)
  {
    hide Reached, InKey, K, FIRST;
    
    Keys8();
    Keys9();
    n := s;
    n := Advance(h, FIRST, 32, n, 0x27b70a85, 0x0b706583, 0x9fc905c8, 0xa94d2af1);
    n := Advance(h, FIRST, 33, n, 0x2e1b2138, 0x179312ca, 0x9ce5a62f, 0x6ef3b6bd);
    n := Advance(h, FIRST, 34, n, 0x4d2c6dfc, 0x503054e9, 0x1df8e885, 0x2a9e048e);
    n := Advance(h, FIRST, 35, n, 0x53380d13, 0xba125c39, 0x0786dce8, 0xde2a21d1);
    n := Advance(h, FIRST, 36, n, 0x650a7354, 0x7e9392c9, 0x2c55d3a6, 0xb067c1af);
    n := Advance(h, FIRST, 37, n, 0x766a0abb, 0xd5cbaa1e, 0xa985b4be, 0xf72bf353);
    n := Advance(h, FIRST, 38, n, 0x81c2c92e, 0x78e0585d, 0x91ac9d5d, 0x68d8d590);
    n := Advance(h, FIRST, 39, n, 0x92722c85, 0xf6e7611c, 0x7e4d30b8, 0x9f5b9b6d);
  }

  lemma First5(h: Chain, s: Stage) returns (n: Stage)
    requires Reached(h, FIRST, 40, s)
    requires s == Stage(Vector(0x7e4d30b8, 0x91ac9d5d, 0xa985b4be, 0x2c55d3a6, 0x9f5b9b6d, 0x68d8d590, 0xf72bf353, 0xb067c1af),
        Vector(0xe44183e7, 0x0d09f00d, 0x9c89af54, 0x042d5bef, 0x71f134d0, 0x0f94f463, 0x7e49dc63, 0x6f65c997),
        Vector(0x0b706583, 0x179312ca, 0x503054e9, 0xba125c39, 0x7e9392c9, 0xd5cbaa1e, 0x78e0585d, 0xf6e7611c))
    ensures n == Stage(Vector(0x13d82741, 0x165be9cd, 0x18f0d19d, 0xde71e2f2, 0xa7802a4d, 0xa483f080, 0x6b88472c, 0xff61c636),
        Vector(0x0b706583, 0x179312ca, 0x503054e9, 0xba125c39, 0x7e9392c9, 0xd5cbaa1e, 0x78e0585d, 0xf6e7611c),
        Vector(0x8ac830ce, 0x8b47a303, 0xfd6e627f, 0x8c6e2c6a, 0x4001adf1, 0x1a3dd097, 0xa9df6f62, 0x6aa60a39))
    ensures Reached(h, FIRST, 48, n)
  {
    hide Reached, InKey, K, FIRST;
    
    Keys10();
    Keys11();
    n := s;
    n := Advance(h, FIRST, 40, n, 0xa2bfe8a1, 0x8ac830ce, 0x7e056794, 0x423b26c0);
    n := Advance(h, FIRST, 41, n, 0xa81a664b, 0x8b47a303, 0x508a16ab, 0x45459d97);
    n := Advance(h, FIRST, 42, n, 0xc24b8b70, 0xfd6e627f, 0xb62c7013, 0x80a92a00);
    n := Advance(h, FIRST, 43, n, 0xc76c51a3, 0x8c6e2c6a, 0x167361de, 0x41dd3844);
    n := Advance(h, FIRST, 44, n, 0xd192e819, 0x4001adf1, 0xde71e2f2, 0xff61c636);
    n := Advance(h, FIRST, 45, n, 0xd6990624, 0x1a3dd097, 0x18f0d19d, 0x6b88472c);
    n := Advance(h, FIRST, 46, n, 0xf40e3585, 0xa9df6f62, 0x165be9cd, 0xa483f080);
    n := Advance(h, FIRST, 47, n, 0x106aa070, 0x6aa60a39, 0x13d82741, 0xa7802a4d);
  }

  lemma First6(h: Chain, s: Stage) returns (n: Stage)
    requires Reached(h, FIRST, 48, s)
    requires s == Stage(Vector(0x13d82741, 0x165be9cd, 0x18f0d19d, 0xde71e2f2, 0xa7802a4d, 0xa483f080, 0x6b88472c, 0xff61c636),
        Vector(0x0b706583, 0x179312ca, 0x503054e9, 0xba125c39, 0x7e9392c9, 0xd5cbaa1e, 0x78e0585d, 0xf6e7611c),
        Vector(0x8ac830ce, 0x8b47a303, 0xfd6e627f, 0x8c6e2c6a, 0x4001adf1, 0x1a3dd097, 0xa9df6f62, 0x6aa60a39))
    ensures n == Stage(Vector(0x9e57c4a0, 0xf907b313, 0x1d6de87a, 0xb8d55619, 0xeec13548, 0x61a41711, 0x3443bed4, 0x1c806a61),
        Vector(0x8ac830ce, 0x8b47a303, 0xfd6e627f, 0x8c6e2c6a, 0x4001adf1, 0x1a3dd097, 0xa9df6f62, 0x6aa60a39),
        Vector(0x439f402d, 0xa6dee506, 0x17da717a, 0x21bb450f, 0xdcfe7a4f, 0xedd3c93e, 0xd555ac6c, 0x5889b5b4))
    ensures Reached(h, FIRST, 56, n)
  {
    hide Reached, InKey, K, FIRST;
    
    Keys12();
    Keys13();
    n := s;
    n := Advance(h, FIRST, 48, n, 0x19a4c116, 0x439f402d, 0x017b9d99, 0xaeb10b60);
    n := Advance(h, FIRST, 49, n, 0x1e376c08, 0xa6dee506, 0x543c99a1, 0x16f134b6);
    n := Advance(h, FIRST, 50, n, 0x2748774c, 0x17da717a, 0x758ca97a, 0x100cf2ea);
    n := Advance(h, FIRST, 51, n, 0x34b0bcb5, 0x21bb450f, 0x81c1cde0, 0x5c47eb7b);
    n := Advance(h, FIRST, 52, n, 0x391c0cb3, 0xdcfe7a4f, 0xb8d55619, 0x1c806a61);
    n := Advance(h, FIRST, 53, n, 0x4ed8aa4a, 0xedd3c93e, 0x1d6de87a, 0x3443bed4);
    n := Advance(h, FIRST, 54, n, 0x5b9cca4f, 0xd555ac6c, 0xf907b313, 0x61a41711);
    n := Advance(h, FIRST, 55, n, 0x682e6ff3, 0x5889b5b4, 0x9e57c4a0, 0xeec13548);
  }

  lemma First7(h: Chain, s: Stage) returns (n: Stage)
    requires Reached(h, FIRST, 56, s)
    requires s == Stage(Vector(0x9e57c4a0, 0xf907b313, 0x1d6de87a, 0xb8d55619, 0xeec13548, 0x61a41711, 0x3443bed4, 0x1c806a61),
        Vector(0x8ac830ce, 0x8b47a303, 0xfd6e627f, 0x8c6e2c6a, 0x4001adf1, 0x1a3dd097, 0xa9df6f62, 0x6aa60a39),
        Vector(0x439f402d, 0xa6dee506, 0x17da717a, 0x21bb450f, 0xdcfe7a4f, 0xedd3c93e, 0xd555ac6c, 0x5889b5b4))
    ensures n == Stage(Vector(0x1bdc6f6f, 0x86126910, 0xf6f443f8, 0xbcfce922, 0x25d2430a, 0x2fc08f85, 0xacc75916, 0x962d8621),
        Vector(0x439f402d, 0xa6dee506, 0x17da717a, 0x21bb450f, 0xdcfe7a4f, 0xedd3c93e, 0xd555ac6c, 0x5889b5b4),
        Vector(0x93f45536, 0x08658985, 0x0ed2c8ed, 0x615949fa, 0xc494106c, 0x891ea11d, 0x8983dcec, 0x062917d5))
    ensures Reached(h, FIRST, 64, n)
  {
    hide Reached, InKey, K, FIRST;
    
    Keys14();
    Keys15();
    n := s;
    n := Advance(h, FIRST, 56, n, 0x748f82ee, 0x93f45536, 0x71629856, 0x2f6c8c4e);
    n := Advance(h, FIRST, 57, n, 0x78a5636f, 0x08658985, 0x7c015a2c, 0xcb9d3dd0);
    n := Advance(h, FIRST, 58, n, 0x84c87814, 0x0ed2c8ed, 0x921fccb6, 0x43d8a034);
    n := Advance(h, FIRST, 59, n, 0x8cc70208, 0x615949fa, 0xe18f259a, 0x51e15869);
    n := Advance(h, FIRST, 60, n, 0x90befffa, 0xc494106c, 0xbcfce922, 0x962d8621);
    n := Advance(h, FIRST, 61, n, 0xa4506ceb, 0x891ea11d, 0xf6f443f8, 0xacc75916);
    n := Advance(h, FIRST, 62, n, 0xbef9a3f7, 0x8983dcec, 0x86126910, 0x2fc08f85);
    n := Advance(h, FIRST, 63, n, 0xc67178f2, 0x062917d5, 0x1bdc6f6f, 0x25d2430a);
  }

  const LAST: Block := ZeroBytes(62) + [0x01, 0xc0]

  /** The words 16 to 23 of the last block. */
  lemma LastWords()
    ensures Mixed(0x00000000, 0x00000000, 0x00000000, 0x00000000) == 0x00000000
    ensures Mixed(0x00000000, 0x00000000, 0x00000000, 0x000001c0) == 0x00d80000
    ensures Mixed(0x00000000, 0x00000000, 0x00000000, 0x00000000) == 0x00000000
    ensures Mixed(0x00000000, 0x00000000, 0x00000000, 0x00d80000) == 0x00003677
    ensures Mixed(0x00000000, 0x00000000, 0x00000000, 0x00000000) == 0x00000000
    ensures Mixed(0x00000000, 0x00000000, 0x00000000, 0x00003677) == 0x1df5600d
    ensures Mixed(0x00000000, 0x00000000, 0x000001c0, 0x00000000) == 0x000001c0
    ensures Mixed(0x00000000, 0x00000000, 0x00000000, 0x1df5600d) == 0x1c00501c
  {}

  lemma Last0(h: Chain, s: Stage) returns (n: Stage)
    requires Reached(h, LAST, 0, s)
    requires s == Stage(Vector(0x85e655d6, 0x417a1795, 0x3363376a, 0x624cde5c, 0x76e09589, 0xcac5f811, 0xcc4b32c1, 0xf20e533a),
        Vector(0x00000000, 0x00000000, 0x00000000, 0x00000000, 0x00000000, 0x00000000, 0x00000000, 0x00000000),
        Vector(0x00000000, 0x00000000, 0x00000000, 0x00000000, 0x00000000, 0x00000000, 0x00000000, 0x000001c0))
    ensures n == Stage(Vector(0xbf9a93a0, 0x89bba3f1, 0x3eeb6c06, 0x185a5d79, 0x059abdd1, 0x0a34df03, 0xfe20cda6, 0x8dff3001),
        Vector(0x00000000, 0x00000000, 0x00000000, 0x00000000, 0x00000000, 0x00000000, 0x00000000, 0x000001c0),
        Vector(0x00000000, 0x00d80000, 0x00000000, 0x00003677, 0x00000000, 0x1df5600d, 0x000001c0, 0x1c00501c))
    ensures Reached(h, LAST, 8, n)
  {
    hide Reached, InKey, K, LAST;
    hide Mixed; LastWords();
    Keys0();
    Keys1();
    n := s;
    n := Advance(h, LAST, 0, n, 0x428a2f98, 0x00000000, 0x7c20c838, 0x4670ae6e);
    n := Advance(h, LAST, 1, n, 0x71374491, 0x00d80000, 0x7c3c0f86, 0x8c51be64);
    n := Advance(h, LAST, 2, n, 0xb5c0fbcf, 0x00000000, 0xfd1eebdc, 0xaf71b9ea);
    n := Advance(h, LAST, 3, n, 0xe9b5dba5, 0x00003677, 0xf268faa9, 0xe20362ef);
    n := Advance(h, LAST, 4, n, 0x3956c25b, 0x00000000, 0x185a5d79, 0x8dff3001);
    n := Advance(h, LAST, 5, n, 0x59f111f1, 0x1df5600d, 0x3eeb6c06, 0xfe20cda6);
    n := Advance(h, LAST, 6, n, 0x923f82a4, 0x000001c0, 0x89bba3f1, 0x0a34df03);
    n := Advance(h, LAST, 7, n, 0xab1c5ed5, 0x1c00501c, 0xbf9a93a0, 0x059abdd1);
  }

  lemma Last1(h: Chain, s: Stage) returns (n: Stage)
    requires Reached(h, LAST, 8, s)
    requires s == Stage(Vector(0xbf9a93a0, 0x89bba3f1, 0x3eeb6c06, 0x185a5d79, 0x059abdd1, 0x0a34df03, 0xfe20cda6, 0x8dff3001),
        Vector(0x00000000, 0x00000000, 0x00000000, 0x00000000, 0x00000000, 0x00000000, 0x00000000, 0x000001c0),
        Vector(0x00000000, 0x00d80000, 0x00000000, 0x00003677, 0x00000000, 0x1df5600d, 0x000001c0, 0x1c00501c))
    ensures n == Stage(Vector(0x16a8cc79, 0x0cea5cbc, 0xd74080fa, 0x35ee996d, 0x0fcb1f6f, 0x60356548, 0x68aa893f, 0x5c24e2a2),
        Vector(0x00000000, 0x00d80000, 0x00000000, 0x00003677, 0x00000000, 0x1df5600d, 0x000001c0, 0x1c00501c),
        Vector(0x01b00000, 0x220a8d94, 0x0000a365, 0x177017e7, 0x63d38035, 0x090ab713, 0x4c7539ca, 0x0f19a8c9))
    ensures Reached(h, LAST, 16, n)
  {
    hide Reached, InKey, K, LAST;
    
    Keys2();
    Keys3();
    n := s;
    n := Advance(h, LAST, 8, n, 0xd807aa98, 0x01b00000, 0x2c096744, 0xabfa465b);
    n := Advance(h, LAST, 9, n, 0x12835b01, 0x220a8d94, 0x2d964e86, 0xaa27ed82);
    n := Advance(h, LAST, 10, n, 0x243185be, 0x0000a365, 0x5b35025b, 0x10e77723);
    n := Advance(h, LAST, 11, n, 0x550c7dc3, 0x177017e7, 0x5eb4ec40, 0xe11b4548);
    n := Advance(h, LAST, 12, n, 0x72be5d74, 0x63d38035, 0x35ee996d, 0x5c24e2a2);
    n := Advance(h, LAST, 13, n, 0x80deb1fe, 0x090ab713, 0xd74080fa, 0x68aa893f);
    n := Advance(h, LAST, 14, n, 0x9bdc06a7, 0x4c7539ca, 0x0cea5cbc, 0x60356548);
    n := Advance(h, LAST, 15, n, 0xc19bf174, 0x0f19a8c9, 0x16a8cc79, 0x0fcb1f6f);
  }

  lemma Last2(h: Chain, s: Stage) returns (n: Stage)
    requires Reached(h, LAST, 16, s)
    requires s == Stage(Vector(0x16a8cc79, 0x0cea5cbc, 0xd74080fa, 0x35ee996d, 0x0fcb1f6f, 0x60356548, 0x68aa893f, 0x5c24e2a2),
        Vector(0x00000000, 0x00d80000, 0x00000000, 0x00003677, 0x00000000, 0x1df5600d, 0x000001c0, 0x1c00501c),
        Vector(0x01b00000, 0x220a8d94, 0x0000a365, 0x177017e7, 0x63d38035, 0x090ab713, 0x4c7539ca, 0x0f19a8c9))
    ensures n == Stage(Vector(0xa4195b91, 0xf13ae55b, 0xd44dc81a, 0x20aad899, 0xeddbd6ed, 0x966aa287, 0x5bace62d, 0xcc4769f2),
        Vector(0x01b00000, 0x220a8d94, 0x0000a365, 0x177017e7, 0x63d38035, 0x090ab713, 0x4c7539ca, 0x0f19a8c9),
        Vector(0x5df4b0c4, 0xe257036a, 0xc97bb6f1, 0xc5b46f4d, 0xf8253c4e, 0xa558d189, 0x78696285, 0xed07117f))
    ensures Reached(h, LAST, 24, n)
  {
    hide Reached, InKey, K, LAST;
    
    Keys4();
    Keys5();
    n := s;
    n := Advance(h, LAST, 16, n, 0xe49b69c1, 0x5df4b0c4, 0xf16f634e, 0x8b21cdc1);
    n := Advance(h, LAST, 17, n, 0xefbe4786, 0xe257036a, 0x23dcb6c2, 0xca9182d3);
    n := Advance(h, LAST, 18, n, 0x0fc19dc6, 0xc97bb6f1, 0xdcff40fd, 0x69bf7b95);
    n := Advance(h, LAST, 19, n, 0x240ca1cc, 0xc5b46f4d, 0x76f1a2bc, 0x0dc84bb1);
    n := Advance(h, LAST, 20, n, 0x2de92c6f, 0xf8253c4e, 0x20aad899, 0xcc4769f2);
    n := Advance(h, LAST, 21, n, 0x4a7484aa, 0xa558d189, 0xd44dc81a, 0x5bace62d);
    n := Advance(h, LAST, 22, n, 0x5cb0a9dc, 0x78696285, 0xf13ae55b, 0x966aa287);
    n := Advance(h, LAST, 23, n, 0x76f988da, 0xed07117f, 0xa4195b91, 0xeddbd6ed);
  }

  lemma Last3(h: Chain, s: Stage) returns (n: Stage)
    requires Reached(h, LAST, 24, s)
    requires s == Stage(Vector(0xa4195b91, 0xf13ae55b, 0xd44dc81a, 0x20aad899, 0xeddbd6ed, 0x966aa287, 0x5bace62d, 0xcc4769f2),
        Vector(0x01b00000, 0x220a8d94, 0x0000a365, 0x177017e7, 0x63d38035, 0x090ab713, 0x4c7539ca, 0x0f19a8c9),
        Vector(0x5df4b0c4, 0xe257036a, 0xc97bb6f1, 0xc5b46f4d, 0xf8253c4e, 0xa558d189, 0x78696285, 0xed07117f))
    ensures n == Stage(Vector(0xb0eab1c5, 0x02ef3a5f, 0x1cfa5eb0, 0xd958b529, 0xf6d93952, 0x5da10665, 0x6c49db9f, 0xc2fa99b1),
        Vector(0x5df4b0c4, 0xe257036a, 0xc97bb6f1, 0xc5b46f4d, 0xf8253c4e, 0xa558d189, 0x78696285, 0xed07117f),
        Vector(0x107358f6, 0x390ae496, 0x565010a2, 0xc51d7d44, 0x9e74c972, 0x6614b561, 0x30fc129d, 0x9ac684a8))
    ensures Reached(h, LAST, 32, n)
  {
    hide Reached, InKey, K, LAST;
    
    Keys6();
    Keys7();
    n := s;
    n := Advance(h, LAST, 24, n, 0x983e5152, 0x107358f6, 0x4984fa79, 0xa530d939);
    n := Advance(h, LAST, 25, n, 0xa831c66d, 0x390ae496, 0xaa6cb982, 0x0b5eeea4);
    n := Advance(h, LAST, 26, n, 0xb00327c8, 0x565010a2, 0x9450fbbc, 0x09166dda);
    n := Advance(h, LAST, 27, n, 0xbf597fc7, 0xc51d7d44, 0x0d936bab, 0x6e495d4b);
    n := Advance(h, LAST, 28, n, 0xc6e00bf3, 0x9e74c972, 0xd958b529, 0xc2fa99b1);
    n := Advance(h, LAST, 29, n, 0xd5a79147, 0x6614b561, 0x1cfa5eb0, 0x6c49db9f);
    n := Advance(h, LAST, 30, n, 0x06ca6351, 0x30fc129d, 0x02ef3a5f, 0x5da10665);
    n := Advance(h, LAST, 31, n, 0x14292967, 0x9ac684a8, 0xb0eab1c5, 0xf6d93952);
  }

  lemma Last4(h: Chain, s: Stage) returns (n: Stage)
    requires Reached(h, LAST, 32, s)
    requires s == Stage(Vector(0xb0eab1c5, 0x02ef3a5f, 0x1cfa5eb0, 0xd958b529, 0xf6d93952, 0x5da10665, 0x6c49db9f, 0xc2fa99b1),
        Vector(0x5df4b0c4, 0xe257036a, 0xc97bb6f1, 0xc5b46f4d, 0xf8253c4e, 0xa558d189, 0x78696285, 0xed07117f),
        Vector(0x107358f6, 0x390ae496, 0x565010a2, 0xc51d7d44, 0x9e74c972, 0x6614b561, 0x30fc129d, 0x9ac684a8))
    ensures n == Stage(Vector(0x221b8a5a, 0xadca7a96, 0xd949682b, 0x2f11c939, 0x0b82c5eb, 0xc6cce4ff, 0x32d99008, 0xfed4ce1d),
        Vector(0x107358f6, 0x390ae496, 0x565010a2, 0xc51d7d44, 0x9e74c972, 0x6614b561, 0x30fc129d, 0x9ac684a8),
        Vector(0x2b658dbd, 0xe290f793, 0x9eebb24c, 0x9713b5de, 0x41061ab7, 0xe022e23b, 0x0772079e, 0x7de22d9c))
    ensures Reached(h, LAST, 40, n)
  {
    hide Reached, InKey, K, LAST;
    
    Keys8();
    Keys9();
    n := s;
    n := Advance(h, LAST, 32, n, 0x27b70a85, 0x2b658dbd, 0x0bfba73c, 0x8b99e3a9);
    n := Advance(h, LAST, 33, n, 0x2e1b2138, 0xe290f793, 0x4bd1df96, 0x905e44ac);
    n := Advance(h, LAST, 34, n, 0x4d2c6dfc, 0x9eebb24c, 0x9907f1b6, 0x66c3043d);
    n := Advance(h, LAST, 35, n, 0x53380d13, 0x9713b5de, 0xecde4e0d, 0x5dc119e6);
    n := Advance(h, LAST, 36, n, 0x650a7354, 0x41061ab7, 0x2f11c939, 0xfed4ce1d);
    n := Advance(h, LAST, 37, n, 0x766a0abb, 0xe022e23b, 0xd949682b, 0x32d99008);
    n := Advance(h, LAST, 38, n, 0x81c2c92e, 0x0772079e, 0xadca7a96, 0xc6cce4ff);
    n := Advance(h, LAST, 39, n, 0x92722c85, 0x7de22d9c, 0x221b8a5a, 0x0b82c5eb);
  }

  lemma Last5(h: Chain, s: Stage) returns (n: Stage)
    requires Reached(h, LAST, 40, s)
    requires s == Stage(Vector(0x221b8a5a, 0xadca7a96, 0xd949682b, 0x2f11c939, 0x0b82c5eb, 0xc6cce4ff, 0x32d99008, 0xfed4ce1d),
        Vector(0x107358f6, 0x390ae496, 0x565010a2, 0xc51d7d44, 0x9e74c972, 0x6614b561, 0x30fc129d, 0x9ac684a8),
        Vector(0x2b658dbd, 0xe290f793, 0x9eebb24c, 0x9713b5de, 0x41061ab7, 0xe022e23b, 0x0772079e, 0x7de22d9c))
    ensures n == Stage(Vector(0xd7354d5b, 0x0b3303a7, 0x104a7db4, 0x0f154e11, 0xaad55b6b, 0xbbe1c39a, 0x5348e8f6, 0x6f9517cb),
        Vector(0x2b658dbd, 0xe290f793, 0x9eebb24c, 0x9713b5de, 0x41061ab7, 0xe022e23b, 0x0772079e, 0x7de22d9c),
        Vector(0xc8b83778, 0x75a79849, 0xd93dbddb, 0x0a036c9d, 0xcb4f6ac6, 0x823f97e2, 0xea2f2a7a, 0xb9018b52))
    ensures Reached(h, LAST, 48, n)
  {
    hide Reached, InKey, K, LAST;
    
    Keys10();
    Keys11();
    n := s;
    n := Advance(h, LAST, 40, n, 0xa2bfe8a1, 0xc8b83778, 0x12d97845, 0xe4213ca2);
    n := Advance(h, LAST, 41, n, 0xa81a664b, 0x75a79849, 0x2c794876, 0xff6759ba);
    n := Advance(h, LAST, 42, n, 0xc24b8b70, 0xd93dbddb, 0x8300fca2, 0xe0e3457c);
    n := Advance(h, LAST, 43, n, 0xc76c51a3, 0x0a036c9d, 0xf2ad6322, 0xcc48c7f3);
    n := Advance(h, LAST, 44, n, 0xd192e819, 0xcb4f6ac6, 0x0f154e11, 0x6f9517cb);
    n := Advance(h, LAST, 45, n, 0xd6990624, 0x823f97e2, 0x104a7db4, 0x5348e8f6);
    n := Advance(h, LAST, 46, n, 0xf40e3585, 0xea2f2a7a, 0x0b3303a7, 0xbbe1c39a);
    n := Advance(h, LAST, 47, n, 0x106aa070, 0xb9018b52, 0xd7354d5b, 0xaad55b6b);
  }

  lemma Last6(h: Chain, s: Stage) returns (n: Stage)
    requires Reached(h, LAST, 48, s)
    requires s == Stage(Vector(0xd7354d5b, 0x0b3303a7, 0x104a7db4, 0x0f154e11, 0xaad55b6b, 0xbbe1c39a, 0x5348e8f6, 0x6f9517cb),
        Vector(0x2b658dbd, 0xe290f793, 0x9eebb24c, 0x9713b5de, 0x41061ab7, 0xe022e23b, 0x0772079e, 0x7de22d9c),
        Vector(0xc8b83778, 0x75a79849, 0xd93dbddb, 0x0a036c9d, 0xcb4f6ac6, 0x823f97e2, 0xea2f2a7a, 0xb9018b52))
    ensures n == Stage(Vector(0x92952710, 0xd9f0c115, 0xec02560a, 0x4eca6fa0, 0x226806d6, 0x624150c4, 0x7151df8e, 0x989ed071),
        Vector(0xc8b83778, 0x75a79849, 0xd93dbddb, 0x0a036c9d, 0xcb4f6ac6, 0x823f97e2, 0xea2f2a7a, 0xb9018b52),
        Vector(0x17c99157, 0x172f87c7, 0xe62fae76, 0x7590e259, 0xb95cb85d, 0xf4d42217, 0x479f6e2b, 0x1078359a))
    ensures Reached(h, LAST, 56, n)
  {
    hide Reached, InKey, K, LAST;
    
    Keys12();
    Keys13();
    n := s;
    n := Advance(h, LAST, 48, n, 0x19a4c116, 0x17c99157, 0xb736d7a6, 0x68f25260);
    n := Advance(h, LAST, 49, n, 0x1e376c08, 0x172f87c7, 0x2748e5ec, 0xd4b58576);
    n := Advance(h, LAST, 50, n, 0x2748774c, 0xe62fae76, 0xd8aabcf9, 0x27844711);
    n := Advance(h, LAST, 51, n, 0x34b0bcb5, 0x7590e259, 0x1a6bcf6a, 0xff5e99d0);
    n := Advance(h, LAST, 52, n, 0x391c0cb3, 0xb95cb85d, 0x4eca6fa0, 0x989ed071);
    n := Advance(h, LAST, 53, n, 0x4ed8aa4a, 0xf4d42217, 0xec02560a, 0x7151df8e);
    n := Advance(h, LAST, 54, n, 0x5b9cca4f, 0x479f6e2b, 0xd9f0c115, 0x624150c4);
    n := Advance(h, LAST, 55, n, 0x682e6ff3, 0x1078359a, 0x92952710, 0x226806d6);
  }

  lemma Last7(h: Chain, s: Stage) returns (n: Stage)
    requires Reached(h, LAST, 56, s)
    requires s == Stage(Vector(0x92952710, 0xd9f0c115, 0xec02560a, 0x4eca6fa0, 0x226806d6, 0x624150c4, 0x7151df8e, 0x989ed071),
        Vector(0xc8b83778, 0x75a79849, 0xd93dbddb, 0x0a036c9d, 0xcb4f6ac6, 0x823f97e2, 0xea2f2a7a, 0xb9018b52),
        Vector(0x17c99157, 0x172f87c7, 0xe62fae76, 0x7590e259, 0xb95cb85d, 0xf4d42217, 0x479f6e2b, 0x1078359a))
    ensures n == Stage(Vector(0x9ea7148b, 0x908c2123, 0xb25cef29, 0xa9f181dd, 0x2c5c4ed0, 0x9a392956, 0x2aa1bb13, 0x27ccb387),
        Vector(0x17c99157, 0x172f87c7, 0xe62fae76, 0x7590e259, 0xb95cb85d, 0xf4d42217, 0x479f6e2b, 0x1078359a),
        Vector(0xb4f6cd76, 0x3c34d58c, 0xee7a7b54, 0x02277b01, 0x63da2ea5, 0x3ece3026, 0x1dcce76d, 0x149428f4))
    ensures Reached(h, LAST, 64, n)
  {
    hide Reached, InKey, K, LAST;
    
    Keys14();
    Keys15();
    n := s;
    n := Advance(h, LAST, 56, n, 0x748f82ee, 0xb4f6cd76, 0x20d4d0e4, 0x4e515a4d);
    n := Advance(h, LAST, 57, n, 0x78a5636f, 0x3c34d58c, 0x4348eb1f, 0xc21eddf9);
    n := Advance(h, LAST, 58, n, 0x84c87814, 0xee7a7b54, 0x286fe5f0, 0x54076664);
    n := Advance(h, LAST, 59, n, 0x8cc70208, 0x02277b01, 0x1c4cddd9, 0xf487a853);
    n := Advance(h, LAST, 60, n, 0x90befffa, 0x63da2ea5, 0xa9f181dd, 0x27ccb387);
    n := Advance(h, LAST, 61, n, 0xa4506ceb, 0x3ece3026, 0xb25cef29, 0x2aa1bb13);
    n := Advance(h, LAST, 62, n, 0xbef9a3f7, 0x1dcce76d, 0x908c2123, 0x9a392956);
    n := Advance(h, LAST, 63, n, 0xc67178f2, 0x149428f4, 0x9ea7148b, 0x2c5c4ed0);
  }

  lemma RowsOf(t: nat)
    requires t < 16
    ensures FIRST[t] == ROW_A[t] && FIRST[16 + t] == ROW_B[t] && FIRST[32 + t] == ROW_C[t]
    ensures t < 8 ==> FIRST[48 + t] == ROW_D[t]
    ensures FIRST[56] == 0x80 && (t < 7 ==> FIRST[57 + t] == 0)
  {
    assert |ROW_A| == 16 && |ROW_B| == 16 && |ROW_C| == 16 && |ROW_D| == 8;
    hide ROW_A, ROW_B, ROW_C, ROW_D;
  }

  lemma FirstWord(row: seq<Byte>, q: nat, j: nat, w: bv32)
    requires q < 4 && row == [ROW_A, ROW_B, ROW_C, ROW_D][q] && 4 * j + 4 <= |row| == (if q < 3 then 16 else 8)
    requires BigWord(row[4 * j], row[4 * j + 1], row[4 * j + 2], row[4 * j + 3]) == Written(w)
    ensures InSchedule(FIRST, 4 * q + j, w)
  {
    hide InSchedule, BigWord, Written, ROW_A, ROW_B, ROW_C, ROW_D, FIRST;
    RowsOf(4 * j);
    RowsOf(4 * j + 1);
    RowsOf(4 * j + 2);
    RowsOf(4 * j + 3);
    WordIs(FIRST, 4 * q + j, row[4 * j], row[4 * j + 1], row[4 * j + 2], row[4 * j + 3], w);
  }

  lemma Letters0()
    ensures Written(0x61626364) == 0x61626364 && Written(0x62636465) == 0x62636465
  {}

  lemma FirstWords0()
    ensures InSchedule(FIRST, 0, 0x61626364) && InSchedule(FIRST, 1, 0x62636465)
  {
    hide InSchedule, Written, FIRST, ROW_B, ROW_C, ROW_D;
    Letters0();
    FirstWord(ROW_A, 0, 0, 0x61626364);
    FirstWord(ROW_A, 0, 1, 0x62636465);
  }

  lemma Letters1()
    ensures Written(0x63646566) == 0x63646566 && Written(0x64656667) == 0x64656667
  {}

  lemma FirstWords1()
    ensures InSchedule(FIRST, 2, 0x63646566) && InSchedule(FIRST, 3, 0x64656667)
  {
    hide InSchedule, Written, FIRST, ROW_B, ROW_C, ROW_D;
    Letters1();
    FirstWord(ROW_A, 0, 2, 0x63646566);
    FirstWord(ROW_A, 0, 3, 0x64656667);
  }

  lemma Letters2()
    ensures Written(0x65666768) == 0x65666768 && Written(0x66676869) == 0x66676869
  {}

  lemma FirstWords2()
    ensures InSchedule(FIRST, 4, 0x65666768) && InSchedule(FIRST, 5, 0x66676869)
  {
    hide InSchedule, Written, FIRST, ROW_A, ROW_C, ROW_D;
    Letters2();
    FirstWord(ROW_B, 1, 0, 0x65666768);
    FirstWord(ROW_B, 1, 1, 0x66676869);
  }

  lemma Letters3()
    ensures Written(0x6768696a) == 0x6768696a && Written(0x68696a6b) == 0x68696a6b
  {}

  lemma FirstWords3()
    ensures InSchedule(FIRST, 6, 0x6768696a) && InSchedule(FIRST, 7, 0x68696a6b)
  {
    hide InSchedule, Written, FIRST, ROW_A, ROW_C, ROW_D;
    Letters3();
    FirstWord(ROW_B, 1, 2, 0x6768696a);
    FirstWord(ROW_B, 1, 3, 0x68696a6b);
  }

  lemma Letters4()
    ensures Written(0x696a6b6c) == 0x696a6b6c && Written(0x6a6b6c6d) == 0x6a6b6c6d
  {}

  lemma FirstWords4()
    ensures InSchedule(FIRST, 8, 0x696a6b6c) && InSchedule(FIRST, 9, 0x6a6b6c6d)
  {
    hide InSchedule, Written, FIRST, ROW_A, ROW_B, ROW_D;
    Letters4();
    FirstWord(ROW_C, 2, 0, 0x696a6b6c);
    FirstWord(ROW_C, 2, 1, 0x6a6b6c6d);
  }

  lemma Letters5()
    ensures Written(0x6b6c6d6e) == 0x6b6c6d6e && Written(0x6c6d6e6f) == 0x6c6d6e6f
  {}

  lemma FirstWords5()
    ensures InSchedule(FIRST, 10, 0x6b6c6d6e) && InSchedule(FIRST, 11, 0x6c6d6e6f)
  {
    hide InSchedule, Written, FIRST, ROW_A, ROW_B, ROW_D;
    Letters5();
    FirstWord(ROW_C, 2, 2, 0x6b6c6d6e);
    FirstWord(ROW_C, 2, 3, 0x6c6d6e6f);
  }

  lemma Letters6()
    ensures Written(0x6d6e6f70) == 0x6d6e6f70 && Written(0x6e6f7071) == 0x6e6f7071
  {}

  lemma FirstWords6()
    ensures InSchedule(FIRST, 12, 0x6d6e6f70) && InSchedule(FIRST, 13, 0x6e6f7071)
  {
    hide InSchedule, Written, FIRST, ROW_A, ROW_B, ROW_C;
    Letters6();
    FirstWord(ROW_D, 3, 0, 0x6d6e6f70);
    FirstWord(ROW_D, 3, 1, 0x6e6f7071);
  }

  lemma FirstWords7()
    ensures InSchedule(FIRST, 14, 0x80000000) && InSchedule(FIRST, 15, 0)
  {
    hide InSchedule, FIRST;
    RowsOf(0);
    RowsOf(1);
    RowsOf(2);
    RowsOf(3);
    RowsOf(4);
    RowsOf(5);
    RowsOf(6);
    WordIs(FIRST, 14, 0x80, 0, 0, 0, 0x80000000);
    ZeroIs(FIRST, 15);
  }

  lemma LastWord(t: nat)
    requires t < 15
    ensures InSchedule(LAST, t, 0)
  {
    hide InSchedule;
    ZeroIs(LAST, t);
  }

  lemma LastLength()
    ensures InSchedule(LAST, 15, 0x000001c0)
  {
    hide InSchedule;
    WordIs(LAST, 15, 0, 0, 1, 0xc0, 0x000001c0);
  }

  lemma FirstBlock(h: Chain)
    requires IsChain(h, Vector(0x6a09e667, 0xbb67ae85, 0x3c6ef372, 0xa54ff53a, 0x510e527f, 0x9b05688c, 0x1f83d9ab, 0x5be0cd19))
    ensures IsChain(Compress(h, FIRST),
              Vector(0x85e655d6, 0x417a1795, 0x3363376a, 0x624cde5c, 0x76e09589, 0xcac5f811, 0xcc4b32c1, 0xf20e533a))
  {
    hide InSchedule, Reached, IsChain, FIRST, K, Compress;
    FirstWords0();
    FirstWords1();
    FirstWords2();
    FirstWords3();
    FirstWords4();
    FirstWords5();
    FirstWords6();
    FirstWords7();
    var s := Begin(h, FIRST,
        Vector(0x6a09e667, 0xbb67ae85, 0x3c6ef372, 0xa54ff53a, 0x510e527f, 0x9b05688c, 0x1f83d9ab, 0x5be0cd19),
        Vector(0x61626364, 0x62636465, 0x63646566, 0x64656667, 0x65666768, 0x66676869, 0x6768696a, 0x68696a6b),
        Vector(0x696a6b6c, 0x6a6b6c6d, 0x6b6c6d6e, 0x6c6d6e6f, 0x6d6e6f70, 0x6e6f7071, 0x80000000, 0x00000000));
    s := First0(h, s);
    s := First1(h, s);
    s := First2(h, s);
    s := First3(h, s);
    s := First4(h, s);
    s := First5(h, s);
    s := First6(h, s);
    s := First7(h, s);
    End(h, FIRST, Vector(0x6a09e667, 0xbb67ae85, 0x3c6ef372, 0xa54ff53a, 0x510e527f, 0x9b05688c, 0x1f83d9ab, 0x5be0cd19), s);
  }

  lemma LastBlock(h: Chain)
    requires IsChain(h, Vector(0x85e655d6, 0x417a1795, 0x3363376a, 0x624cde5c, 0x76e09589, 0xcac5f811, 0xcc4b32c1, 0xf20e533a))
    ensures IsChain(Compress(h, LAST),
              Vector(0x248d6a61, 0xd20638b8, 0xe5c02693, 0x0c3e6039, 0xa33ce459, 0x64ff2167, 0xf6ecedd4, 0x19db06c1))
  {
    hide InSchedule, Reached, IsChain, LAST, K, Compress;
    LastWord(0);
    LastWord(1);
    LastWord(2);
    LastWord(3);
    LastWord(4);
    LastWord(5);
    LastWord(6);
    LastWord(7);
    LastWord(8);
    LastWord(9);
    LastWord(10);
    LastWord(11);
    LastWord(12);
    LastWord(13);
    LastWord(14);
    LastLength();
    var s := Begin(h, LAST,
        Vector(0x85e655d6, 0x417a1795, 0x3363376a, 0x624cde5c, 0x76e09589, 0xcac5f811, 0xcc4b32c1, 0xf20e533a),
        Vector(0x00000000, 0x00000000, 0x00000000, 0x00000000, 0x00000000, 0x00000000, 0x00000000, 0x00000000),
        Vector(0x00000000, 0x00000000, 0x00000000, 0x00000000, 0x00000000, 0x00000000, 0x00000000, 0x000001c0));
    s := Last0(h, s);
    s := Last1(h, s);
    s := Last2(h, s);
    s := Last3(h, s);
    s := Last4(h, s);
    s := Last5(h, s);
    s := Last6(h, s);
    s := Last7(h, s);
    End(h, LAST, Vector(0x85e655d6, 0x417a1795, 0x3363376a, 0x624cde5c, 0x76e09589, 0xcac5f811, 0xcc4b32c1, 0xf20e533a), s);
  }

  lemma BlocksOf()
    ensures |MESSAGE| == 56 && MESSAGE + Pad(56) == FIRST + LAST
  {
    assert |ROW_A| == 16 && |ROW_B| == 16 && |ROW_C| == 16 && |ROW_D| == 8;
    hide ROW_A, ROW_B, ROW_C, ROW_D;
    assert BigBytes(0) == [0, 0, 0, 0] && BigBytes(448) == [0, 0, 0x01, 0xc0];
    assert Pad(56) == [0x80] + ZeroBytes(63) + BigBytes(0) + BigBytes(448);
    assert [0x80] + ZeroBytes(63) + BigBytes(0) + BigBytes(448) == [0x80] + ZeroBytes(7) + LAST;
  }

  lemma Chained()
    ensures IsChain(Blocks(H0, FIRST + LAST),
              Vector(0x248d6a61, 0xd20638b8, 0xe5c02693, 0x0c3e6039, 0xa33ce459, 0x64ff2167, 0xf6ecedd4, 0x19db06c1))
  {
    StartIs();
    hide IsChain, FIRST, LAST, H0, Compress;
    FirstBlock(H0);
    LastBlock(Compress(H0, FIRST));
    BlocksOne(H0, [], FIRST);
    assert [] + FIRST == FIRST;
    BlocksOne(H0, FIRST, LAST);
  }

  lemma StartLow()
    ensures Value(0x6a09e667) == 0x6a09e667 && Value(0xbb67ae85) == 0xbb67ae85
    ensures Value(0x3c6ef372) == 0x3c6ef372 && Value(0xa54ff53a) == 0xa54ff53a
  {
    hide Value;
    NumberIs(0x6a09e667, 0x6a09e667);
    NumberIs(0xbb67ae85, 0xbb67ae85);
    NumberIs(0x3c6ef372, 0x3c6ef372);
    NumberIs(0xa54ff53a, 0xa54ff53a);
  }

  lemma StartHigh()
    ensures Value(0x510e527f) == 0x510e527f && Value(0x9b05688c) == 0x9b05688c
    ensures Value(0x1f83d9ab) == 0x1f83d9ab && Value(0x5be0cd19) == 0x5be0cd19
  {
    hide Value;
    NumberIs(0x510e527f, 0x510e527f);
    NumberIs(0x9b05688c, 0x9b05688c);
    NumberIs(0x1f83d9ab, 0x1f83d9ab);
    NumberIs(0x5be0cd19, 0x5be0cd19);
  }

  lemma EndLow()
    ensures BigBytes(Value(0x248d6a61)) == [0x24, 0x8d, 0x6a, 0x61]
    ensures BigBytes(Value(0xd20638b8)) == [0xd2, 0x06, 0x38, 0xb8]
    ensures BigBytes(Value(0xe5c02693)) == [0xe5, 0xc0, 0x26, 0x93]
    ensures BigBytes(Value(0x0c3e6039)) == [0x0c, 0x3e, 0x60, 0x39]
  {
    hide Value;
    BytesAre(0x248d6a61, 0x24, 0x8d, 0x6a, 0x61);
    BytesAre(0xd20638b8, 0xd2, 0x06, 0x38, 0xb8);
    BytesAre(0xe5c02693, 0xe5, 0xc0, 0x26, 0x93);
    BytesAre(0x0c3e6039, 0x0c, 0x3e, 0x60, 0x39);
  }

  lemma EndHigh()
    ensures BigBytes(Value(0xa33ce459)) == [0xa3, 0x3c, 0xe4, 0x59]
    ensures BigBytes(Value(0x64ff2167)) == [0x64, 0xff, 0x21, 0x67]
    ensures BigBytes(Value(0xf6ecedd4)) == [0xf6, 0xec, 0xed, 0xd4]
    ensures BigBytes(Value(0x19db06c1)) == [0x19, 0xdb, 0x06, 0xc1]
  {
    hide Value;
    BytesAre(0xa33ce459, 0xa3, 0x3c, 0xe4, 0x59);
    BytesAre(0x64ff2167, 0x64, 0xff, 0x21, 0x67);
    BytesAre(0xf6ecedd4, 0xf6, 0xec, 0xed, 0xd4);
    BytesAre(0x19db06c1, 0x19, 0xdb, 0x06, 0xc1);
  }

  lemma StartIs()
    ensures |H0| == 8
    ensures IsChain(H0, Vector(0x6a09e667, 0xbb67ae85, 0x3c6ef372, 0xa54ff53a, 0x510e527f, 0x9b05688c, 0x1f83d9ab, 0x5be0cd19))
  {
    hide Value;
    StartLow();
    StartHigh();
  }

  /** The digest of appendix B.2 of FIPS 180-2. */
  lemma KnownAnswer()
    ensures |MESSAGE| == 56
    ensures Hash(MESSAGE)
            == [0x24, 0x8d, 0x6a, 0x61] + [0xd2, 0x06, 0x38, 0xb8] + [0xe5, 0xc0, 0x26, 0x93] + [0x0c, 0x3e, 0x60, 0x39]
               + [0xa3, 0x3c, 0xe4, 0x59] + [0x64, 0xff, 0x21, 0x67] + [0xf6, 0xec, 0xed, 0xd4] + [0x19, 0xdb, 0x06, 0xc1]
  {
    Chained();
    BlocksOf();
    hide Value, FIRST, LAST, H0, Blocks, Pad, MESSAGE, BigBytes;
    EndLow();
    EndHigh();
  }
}
