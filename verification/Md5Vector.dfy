/** The first test vector of RFC 1321 (appendix A.5), computed step by step: the digest of the
    empty message. */
module Md5Vector {
  import opened Md5Spec

  /** The words of the padded empty message. */
  const BLOCK: seq<Word> := [0x80, 0, 0, 0, 0, 0, 0, 0, 0, 0, 0, 0, 0, 0, 0, 0]

  function Message(k: nat): Word { if k == 0 then 0x80 else 0 }

  lemma Messages()
    ensures |BLOCK| == 16 && forall k | 0 <= k < 16 :: BLOCK[k] == Message(k)
  {
  }

  /** The registers before operation n. */
  ghost predicate Ran(n: nat, r: Regs) { n <= 64 && |BLOCK| == 16 && Operations(IV, BLOCK, n) == r }

  lemma Start()
    ensures Ran(0, Regs(0x67452301, 0xefcdab89, 0x98badcfe, 0x10325476))
  {
    Messages();
  }

  lemma Op(r: Regs, i: nat, f: Word, s: Word, w: Word) returns (r': Regs)
    requires i < 64 && Ran(i, r)
    requires f == Aux(i, r.b, r.c, r.d) && s == Sum(r.a, f, Message(Pick(i)), Sine(i))
    requires w == Add(r.b, Rotate(s, Shift(i)))
    ensures r' == Regs(r.d, w, r.b, r.c) && Ran(i + 1, r')
  {
    hide Aux, Sum, Sine, Rotate, Shift, Pick, Add;
    Messages();
    assert Operations(IV, BLOCK, i + 1) == Operation(r, BLOCK, i);
    r' := Regs(r.d, w, r.b, r.c);
  }

  lemma Ops1() returns (r: Regs)
    requires Ran(0, Regs(0x67452301, 0xefcdab89, 0x98badcfe, 0x10325476))
    ensures r == Regs(0xa5202774, 0x1b163203, 0xe7f06b23, 0xf59592dd) && Ran(4, r)
  {
    hide Ran;
    r := Regs(0x67452301, 0xefcdab89, 0x98badcfe, 0x10325476);
    r := Op(r, 0, 0x98badcfe, 0xd76aa4f7, 0xa5202774);
    r := Op(r, 1, 0xbd9afb8a, 0xb6950756, 0xf59592dd);
    r := Op(r, 2, 0xaf482b54, 0x6c23792d, 0xe7f06b23);
    r := Op(r, 3, 0xe5900655, 0x971b80cc, 0x1b163203);
  }

  lemma Ops2() returns (r: Regs)
    requires Ran(4, Regs(0xa5202774, 0x1b163203, 0xe7f06b23, 0xf59592dd))
    ensures r == Regs(0x32033344, 0x9bc13ce9, 0xf5b158db, 0x2f35d494) && Ran(8, r)
  {
    hide Ran;
    r := Regs(0xa5202774, 0x1b163203, 0xe7f06b23, 0xf59592dd);
    r := Op(r, 4, 0xe791a2df, 0x822dda02, 0x32033344);
    r := Op(r, 5, 0xd7f27a23, 0x150fd32a, 0x2f35d494);
    r := Op(r, 6, 0x32033207, 0xc223e33d, 0xf5b158db);
    r := Op(r, 7, 0x27337394, 0x3f903a98, 0x9bc13ce9);
  }

  lemma Ops3() returns (r: Regs)
    requires Ran(8, Regs(0x32033344, 0x9bc13ce9, 0xf5b158db, 0x2f35d494))
    ensures r == Regs(0x3893b991, 0x70768a29, 0xe1ef0576, 0xfce4a312) && Ran(12, r)
  {
    hide Ran;
    r := Regs(0x32033344, 0x9bc13ce9, 0xf5b158db, 0x2f35d494);
    r := Op(r, 8, 0xb5b5d8dd, 0x5139a4f9, 0x3893b991);
    r := Op(r, 9, 0xdda178cb, 0x981c450e, 0xfce4a312);
    r := Op(r, 10, 0x3b81bdf9, 0x31327285, 0xe1ef0576);
    r := Op(r, 11, 0xf8f4b993, 0x1e12ce3a, 0x70768a29);
  }

  lemma Ops4() returns (r: Regs)
    requires Ran(12, Regs(0x3893b991, 0x70768a29, 0xe1ef0576, 0xfce4a312))
    ensures r == Regs(0xf56c7cf1, 0xd6819c6a, 0x5aa53f75, 0x374943a7) && Ran(16, r)
  {
    hide Ran;
    r := Regs(0x3893b991, 0x70768a29, 0xe1ef0576, 0xfce4a312);
    r := Op(r, 12, 0xece62132, 0x9109ebe5, 0xf56c7cf1);
    r := Op(r, 13, 0x70e70927, 0x6b641dcc, 0x374943a7);
    r := Op(r, 14, 0x757ec8a9, 0xfde711ad, 0x5aa53f75);
    r := Op(r, 15, 0xb74943a5, 0x7173d5ef, 0xd6819c6a);
  }

  lemma Ops5() returns (r: Regs)
    requires Ran(16, Regs(0xf56c7cf1, 0xd6819c6a, 0x5aa53f75, 0x374943a7))
    ensures r == Regs(0x374943a7, 0x1c7d7513, 0xd6819c6a, 0x5aa53f75) && Ran(17, r)
  {
    hide Ran;
    r := Regs(0xf56c7cf1, 0xd6819c6a, 0x5aa53f75, 0x374943a7);
    r := Op(r, 16, 0x5ea53c72, 0x4a2fdec5, 0x1c7d7513);
  }

  lemma Ops6() returns (r: Regs)
    requires Ran(17, Regs(0x374943a7, 0x1c7d7513, 0xd6819c6a, 0x5aa53f75))
    ensures r == Regs(0x5aa53f75, 0x7bd57a3a, 0x1c7d7513, 0xd6819c6a) && Ran(18, r)
  {
    hide Ran;
    r := Regs(0x374943a7, 0x1c7d7513, 0xd6819c6a, 0x5aa53f75);
    r := Op(r, 17, 0x9c25b51b, 0x93afac02, 0x7bd57a3a);
  }

  lemma Ops7() returns (r: Regs)
    requires Ran(18, Regs(0x5aa53f75, 0x7bd57a3a, 0x1c7d7513, 0xd6819c6a))
    ensures r == Regs(0xd6819c6a, 0xc095f13a, 0x7bd57a3a, 0x1c7d7513) && Ran(19, r)
  {
    hide Ran;
    r := Regs(0x5aa53f75, 0x7bd57a3a, 0x1c7d7513, 0xd6819c6a);
    r := Op(r, 18, 0x5afd793b, 0xdc011301, 0xc095f13a);
  }

  lemma Ops8() returns (r: Regs)
    requires Ran(19, Regs(0xd6819c6a, 0xc095f13a, 0x7bd57a3a, 0x1c7d7513))
    ensures r == Regs(0x1c7d7513, 0xbd782e17, 0xc095f13a, 0x7bd57a3a) && Ran(20, r)
  {
    hide Ran;
    r := Regs(0xd6819c6a, 0xc095f13a, 0x7bd57a3a, 0x1c7d7513);
    r := Op(r, 19, 0x63957b3a, 0x23cddfce, 0xbd782e17);
  }

  lemma Ops9() returns (r: Regs)
    requires Ran(20, Regs(0x1c7d7513, 0xbd782e17, 0xc095f13a, 0x7bd57a3a))
    ensures r == Regs(0x3d1e3e6c, 0xe422531a, 0xeb41643e, 0x68b7b3e3) && Ran(24, r)
  {
    hide Ran;
    r := Regs(0x1c7d7513, 0xbd782e17, 0xc095f13a, 0x7bd57a3a);
    r := Op(r, 20, 0xb950ab12, 0xabfd3082, 0x3d1e3e6c);
    r := Op(r, 21, 0x3d7c3e2d, 0xbb95ccba, 0x68b7b3e3);
    r := Op(r, 22, 0x2836326b, 0xc16e0a26, 0xeb41643e);
    r := Op(r, 23, 0x69a1a5af, 0x0eedcf8e, 0xe422531a);
  }

  lemma Ops10() returns (r: Regs)
    requires Ran(24, Regs(0x3d1e3e6c, 0xe422531a, 0xeb41643e, 0x68b7b3e3))
    ensures r == Regs(0x306ec122, 0xa0572807, 0xa3c663da, 0xd28c77c2) && Ran(28, r)
  {
    hide Ran;
    r := Regs(0x3d1e3e6c, 0xe422531a, 0xeb41643e, 0x68b7b3e3);
    r := Op(r, 24, 0xe362571e, 0x42626370, 0x306ec122);
    r := Op(r, 25, 0x24625322, 0x50510edb, 0xd28c77c2);
    r := Op(r, 26, 0xd04cd322, 0xb06344e7, 0xa3c663da);
    r := Op(r, 27, 0xe2c677c2, 0x0c42dfc9, 0xa0572807);
  }

  lemma Ops11() returns (r: Regs)
    requires Ran(28, Regs(0x306ec122, 0xa0572807, 0xa3c663da, 0xd28c77c2))
    ensures r == Regs(0x13707036, 0xa2205f1f, 0x1c31c384, 0xae7813db) && Ran(32, r)
  {
    hide Ran;
    r := Regs(0x306ec122, 0xa0572807, 0xa3c663da, 0xd28c77c2);
    r := Op(r, 28, 0xa146201a, 0x7b98ca41, 0x13707036);
    r := Op(r, 29, 0x03516817, 0xd2cd83d1, 0xae7813db);
    r := Op(r, 30, 0xb3705033, 0xbea5b6e6, 0x1c31c384);
    r := Op(r, 31, 0xbc3843cd, 0xe9b9b85e, 0xa2205f1f);
  }

  lemma Ops12() returns (r: Regs)
    requires Ran(32, Regs(0x13707036, 0xa2205f1f, 0x1c31c384, 0xae7813db))
    ensures r == Regs(0xdf63eaa1, 0x004b6669, 0x12f3e755, 0xc3689f5b) && Ran(36, r)
  {
    hide Ran;
    r := Regs(0x13707036, 0xa2205f1f, 0x1c31c384, 0xae7813db);
    r := Op(r, 32, 0x10698f40, 0x23d438b8, 0xdf63eaa1);
    r := Op(r, 33, 0x6172763a, 0x975c8096, 0xc3689f5b);
    r := Op(r, 34, 0xbe2b2ae5, 0x47fa4f8b, 0x12f3e755);
    r := Op(r, 35, 0x0ef892af, 0xaefe29da, 0x004b6669);
  }

  lemma Ops13() returns (r: Regs)
    requires Ran(36, Regs(0xdf63eaa1, 0x004b6669, 0x12f3e755, 0xc3689f5b))
    ensures r == Regs(0x5f7a9b2e, 0xc5dc8c15, 0x91ca4cb7, 0xabc34e16) && Ran(40, r)
  {
    hide Ran;
    r := Regs(0xdf63eaa1, 0x004b6669, 0x12f3e755, 0xc3689f5b);
    r := Op(r, 36, 0xd1d01e67, 0x55f2f34c, 0x5f7a9b2e);
    r := Op(r, 37, 0x4dc21a12, 0x5d098916, 0xabc34e16);
    r := Op(r, 38, 0xf4f2b351, 0xfea1e606, 0x91ca4cb7);
    r := Op(r, 39, 0x6573998f, 0x247ebc68, 0xc5dc8c15);
  }

  lemma Ops14() returns (r: Regs)
    requires Ran(40, Regs(0x5f7a9b2e, 0xc5dc8c15, 0x91ca4cb7, 0xabc34e16))
    ensures r == Regs(0x4497169d, 0x0fe32453, 0xfd95f243, 0x76fd93d4) && Ran(44, r)
  {
    hide Ran;
    r := Regs(0x5f7a9b2e, 0xc5dc8c15, 0x91ca4cb7, 0xabc34e16);
    r := Op(r, 40, 0xffd58eb4, 0x87eba8a8, 0x4497169d);
    r := Op(r, 41, 0x1081d63f, 0xa6e64ccf, 0x76fd93d4);
    r := Op(r, 42, 0xf7b6095c, 0x5e6f8698, 0xfd95f243);
    r := Op(r, 43, 0xcfff770a, 0x9a642024, 0x0fe32453);
  }

  lemma Ops15() returns (r: Regs)
    requires Ran(44, Regs(0x4497169d, 0x0fe32453, 0xfd95f243, 0x76fd93d4))
    ensures r == Regs(0x3f55edfd, 0xca7d2dbd, 0x68d84ea2, 0x22a31f54) && Ran(48, r)
  {
    hide Ran;
    r := Regs(0x4497169d, 0x0fe32453, 0xfd95f243, 0x76fd93d4);
    r := Op(r, 44, 0x848b45c4, 0xa2f72c9a, 0x3f55edfd);
    r := Op(r, 45, 0xcd233bed, 0x2afc69a6, 0x22a31f54);
    r := Op(r, 46, 0x1215d6fa, 0x2f4e4635, 0x68d84ea2);
    r := Op(r, 47, 0x752ebc0b, 0x49be36c3, 0xca7d2dbd);
  }

  lemma Ops16() returns (r: Regs)
    requires Ran(48, Regs(0x3f55edfd, 0xca7d2dbd, 0x68d84ea2, 0x22a31f54))
    ensures r == Regs(0x22a31f54, 0x93aa2577, 0xca7d2dbd, 0x68d84ea2) && Ran(49, r)
  {
    hide Ran;
    r := Regs(0x3f55edfd, 0xca7d2dbd, 0x68d84ea2, 0x22a31f54);
    r := Op(r, 48, 0xb7a5a31d, 0xeb24b3de, 0x93aa2577);
  }

  lemma Ops17() returns (r: Regs)
    requires Ran(49, Regs(0x22a31f54, 0x93aa2577, 0xca7d2dbd, 0x68d84ea2))
    ensures r == Regs(0x68d84ea2, 0x1688dc85, 0x93aa2577, 0xca7d2dbd) && Ran(50, r)
  {
    hide Ran;
    r := Regs(0x22a31f54, 0x93aa2577, 0xca7d2dbd, 0x68d84ea2);
    r := Op(r, 49, 0x5dd298c2, 0xc3a0b7ad, 0x1688dc85);
  }

  lemma Ops18() returns (r: Regs)
    requires Ran(50, Regs(0x68d84ea2, 0x1688dc85, 0x93aa2577, 0xca7d2dbd))
    ensures r == Regs(0xca7d2dbd, 0xcd85b8cb, 0x1688dc85, 0x93aa2577) && Ran(51, r)
  {
    hide Ran;
    r := Regs(0x68d84ea2, 0x1688dc85, 0x93aa2577, 0xca7d2dbd);
    r := Op(r, 50, 0xa420fbb0, 0xb88d6df9, 0xcd85b8cb);
  }

  lemma Ops19() returns (r: Regs)
    requires Ran(51, Regs(0xca7d2dbd, 0xcd85b8cb, 0x1688dc85, 0x93aa2577))
    ensures r == Regs(0x93aa2577, 0x561e0689, 0xcd85b8cb, 0x1688dc85) && Ran(52, r)
  {
    hide Ran;
    r := Regs(0xca7d2dbd, 0xcd85b8cb, 0x1688dc85, 0x93aa2577);
    r := Op(r, 51, 0xfb5d264e, 0xc26df444, 0x561e0689);
  }

  lemma Ops20() returns (r: Regs)
    requires Ran(52, Regs(0x93aa2577, 0x561e0689, 0xcd85b8cb, 0x1688dc85))
    ensures r == Regs(0x5625a114, 0x1e77fa61, 0x392ad0d0, 0x3450f42b) && Ran(56, r)
  {
    hide Ran;
    r := Regs(0x93aa2577, 0x561e0689, 0xcd85b8cb, 0x1688dc85);
    r := Op(r, 52, 0x32fa9f30, 0x2c001e6a, 0x5625a114);
    r := Op(r, 53, 0x2061e1bd, 0xc5f78ad4, 0x3450f42b);
    r := Op(r, 54, 0xebd45c6b, 0xb94a09b3, 0x392ad0d0);
    r := Op(r, 55, 0x8daa2ad0, 0x694c8f2a, 0x1e77fa61);
  }

  lemma Ops21() returns (r: Regs)
    requires Ran(56, Regs(0x5625a114, 0x1e77fa61, 0x392ad0d0, 0x3450f42b))
    ensures r == Regs(0x474a9c8c, 0x30130182, 0x36594b14, 0xdfce00bc) && Ran(60, r)
  {
    hide Ran;
    r := Regs(0x5625a114, 0x1e77fa61, 0x392ad0d0, 0x3450f42b);
    r := Op(r, 56, 0xe6d52b25, 0xaca34a88, 0x474a9c8c);
    r := Op(r, 57, 0xd9a845ce, 0x0c2620d9, 0xdfce00bc);
    r := Op(r, 58, 0xb8849932, 0x94b0ad16, 0x36594b14);
    r := Op(r, 59, 0x61336bcb, 0xcdb377cd, 0x30130182);
  }

  lemma Ops22() returns (r: Regs)
    requires Ran(60, Regs(0x474a9c8c, 0x30130182, 0x36594b14, 0xdfce00bc))
    ensures r == Regs(0x7246fad3, 0x14e45506, 0xff4ea3eb, 0x6e10a476) && Ran(64, r)
  {
    hide Ran;
    r := Regs(0x474a9c8c, 0x30130182, 0x36594b14, 0xdfce00bc);
    r := Op(r, 60, 0x066ab4d7, 0x4508cfe5, 0x7246fad3);
    r := Op(r, 61, 0xcbf5ff79, 0x68fef26a, 0x6e10a476);
    r := Op(r, 62, 0x9dba04ac, 0xfeeb227b, 0xff4ea3eb);
    r := Op(r, 63, 0x91ef0399, 0xad88d8ac, 0x14e45506);
  }

  lemma AllOps()
    ensures Ran(64, Regs(0x7246fad3, 0x14e45506, 0xff4ea3eb, 0x6e10a476))
  {
    hide Ran;
    Start();
    var r;
    r := Ops1();
    r := Ops2();
    r := Ops3();
    r := Ops4();
    r := Ops5();
    r := Ops6();
    r := Ops7();
    r := Ops8();
    r := Ops9();
    r := Ops10();
    r := Ops11();
    r := Ops12();
    r := Ops13();
    r := Ops14();
    r := Ops15();
    r := Ops16();
    r := Ops17();
    r := Ops18();
    r := Ops19();
    r := Ops20();
    r := Ops21();
    r := Ops22();
  }

  lemma EmptyPadded()
    ensures |Padded([], 0, 0)| == 64 && ToWords(Padded([], 0, 0)) == BLOCK
  {
    var p := Padded([], 0, 0);
    assert |Padding(0)| == 56;
    assert p[0] == 0x80 && forall k | 0 < k < 64 :: p[k] == 0;
    FirstWord(p[0..4]);
    forall j | 0 < j < 16 ensures ToWord(p[4 * j..4 * j + 4]) == 0 { ZeroWord(p[4 * j..4 * j + 4]); }
    Messages();
  }

  lemma FirstWord(b: seq<Byte>)
    requires |b| == 4 && b[0] == 0x80 && b[1] == 0 && b[2] == 0 && b[3] == 0
    ensures ToWord(b) == 0x80
  {
  }

  lemma ZeroWord(b: seq<Byte>)
    requires |b| == 4 && b[0] == 0 && b[1] == 0 && b[2] == 0 && b[3] == 0
    ensures ToWord(b) == 0
  {
  }

  lemma Registers(a: Word, b: Word, c: Word, d: Word)
    requires a == 0x7246fad3 && b == 0x14e45506 && c == 0xff4ea3eb && d == 0x6e10a476
    ensures Add(0x67452301, a) == 0xd98c1dd4 && Add(0xefcdab89, b) == 0x04b2008f
    ensures Add(0x98badcfe, c) == 0x980980e9 && Add(0x10325476, d) == 0x7e42f8ec
  {
  }

  lemma OutBytes()
    ensures WordBytes(0xd98c1dd4) == [0xd4, 0x1d, 0x8c, 0xd9]
    ensures WordBytes(0x04b2008f) == [0x8f, 0x00, 0xb2, 0x04]
    ensures WordBytes(0x980980e9) == [0xe9, 0x80, 0x09, 0x98]
    ensures WordBytes(0x7e42f8ec) == [0xec, 0xf8, 0x42, 0x7e]
  {
  }

  lemma OneBlock(p: seq<Byte>)
    requires p == Padded([], 0, 0) && |p| == 64
    ensures Digest([]) == Output(Compress(IV, p))
  {
    hide Padded, Compress, Output;
    assert p[..0] == [] && p[0..] == p;
    assert Fold(p) == Compress(Fold(p[..0]), p[0..]);
  }

  /** MD5 ("") = d41d8cd98f00b204e9800998ecf8427e. */
  lemma EmptyDigest()
    ensures Digest([]) == [0xd4, 0x1d, 0x8c, 0xd9, 0x8f, 0x00, 0xb2, 0x04,
                           0xe9, 0x80, 0x09, 0x98, 0xec, 0xf8, 0x42, 0x7e]
  {
    hide Operations, Padded, WordBytes, Add, Fold, Digest, ToWords;
    EmptyPadded();
    AllOps();
    OutBytes();
    Registers(0x7246fad3, 0x14e45506, 0xff4ea3eb, 0x6e10a476);
    OneBlock(Padded([], 0, 0));
  }
}
