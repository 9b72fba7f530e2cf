/** Two vectors of the test suite of RFC 1321 (section A.5): the empty message, and one that takes two
    blocks and uses every word of a block. They fix every table of Md5Spec, the order of its registers
    and the initial ones: a wrong entry changes the digest. */
module Md5Vectors {
  import opened Md5
  import opened Md5Spec

  /** The word that operation k computes, from words alone. */
  function Next(k: nat, a: Word, b: Word, c: Word, d: Word, x: Word, t: Word, n: nat): Word
    requires n <= 32
  {
    Add(b, RotateLeft(Sum(a, Aux(k, b, c, d), x, t), n))
  }

  lemma At(k: nat, r: Regs, w: seq<Word>, a: Word, b: Word, c: Word, d: Word, x: Word, t: Word, n: nat, a': Word)
    requires k < 64 && |w| == 16 && Ops(k, r, w) == Regs(a, b, c, d)
    requires w[Index(k)] == x && T(k) == t && Shift(k) == n
    requires Next(k, a, b, c, d, x, t, n) == a'
    ensures Ops(k + 1, r, w) == Regs(d, a', b, c)
  {
    hide Add, RotateLeft, Sum, Aux, T, Shift, Index;
  }

  /** Four bytes of a block and the word they make. */
  lemma WordAt(block: seq<Byte>, i: nat, b0: Byte, b1: Byte, b2: Byte, b3: Byte, x: Word)
    requires |block| == 64 && i < 16
    requires block[4 * i..4 * i + 4] == [b0, b1, b2, b3]
    requires Decode([b0, b1, b2, b3]) == x
    ensures Words(block)[i] == x
  {
    hide Decode;
  }

  lemma {:induction false} Sums(r: Regs, w: seq<Word>, q: Regs)
    requires |w| == 16 && Ops(64, r, w) == q
    ensures Compress(r, w) == Regs(Add(r.a, q.a), Add(r.b, q.b), Add(r.c, q.c), Add(r.d, q.d))
  {
    hide Ops, Add;
  }

  ghost predicate Empty(w: seq<Word>) {
    && |w| == 16
    && w[0] == 0x00000080 && w[1] == 0x00000000 && w[2] == 0x00000000 && w[3] == 0x00000000
    && w[4] == 0x00000000 && w[5] == 0x00000000 && w[6] == 0x00000000 && w[7] == 0x00000000
    && w[8] == 0x00000000 && w[9] == 0x00000000 && w[10] == 0x00000000 && w[11] == 0x00000000
    && w[12] == 0x00000000 && w[13] == 0x00000000 && w[14] == 0x00000000 && w[15] == 0x00000000
  }

  lemma {:induction false} EmptyOps0(r: Regs, w: seq<Word>)
    requires Empty(w) && Ops(0, r, w) == Regs(0x67452301, 0xefcdab89, 0x98badcfe, 0x10325476)
    ensures Ops(16, r, w) == Regs(0xf56c7cf1, 0xd6819c6a, 0x5aa53f75, 0x374943a7)
  {
    hide Ops;
    At(0, r, w, 0x67452301, 0xefcdab89, 0x98badcfe, 0x10325476, 0x00000080, 0xd76aa478, 7, 0xa5202774);
    At(1, r, w, 0x10325476, 0xa5202774, 0xefcdab89, 0x98badcfe, 0x00000000, 0xe8c7b756, 12, 0xf59592dd);
    At(2, r, w, 0x98badcfe, 0xf59592dd, 0xa5202774, 0xefcdab89, 0x00000000, 0x242070db, 17, 0xe7f06b23);
    At(3, r, w, 0xefcdab89, 0xe7f06b23, 0xf59592dd, 0xa5202774, 0x00000000, 0xc1bdceee, 22, 0x1b163203);
    At(4, r, w, 0xa5202774, 0x1b163203, 0xe7f06b23, 0xf59592dd, 0x00000000, 0xf57c0faf, 7, 0x32033344);
    At(5, r, w, 0xf59592dd, 0x32033344, 0x1b163203, 0xe7f06b23, 0x00000000, 0x4787c62a, 12, 0x2f35d494);
    At(6, r, w, 0xe7f06b23, 0x2f35d494, 0x32033344, 0x1b163203, 0x00000000, 0xa8304613, 17, 0xf5b158db);
    At(7, r, w, 0x1b163203, 0xf5b158db, 0x2f35d494, 0x32033344, 0x00000000, 0xfd469501, 22, 0x9bc13ce9);
    At(8, r, w, 0x32033344, 0x9bc13ce9, 0xf5b158db, 0x2f35d494, 0x00000000, 0x698098d8, 7, 0x3893b991);
    At(9, r, w, 0x2f35d494, 0x3893b991, 0x9bc13ce9, 0xf5b158db, 0x00000000, 0x8b44f7af, 12, 0xfce4a312);
    At(10, r, w, 0xf5b158db, 0xfce4a312, 0x3893b991, 0x9bc13ce9, 0x00000000, 0xffff5bb1, 17, 0xe1ef0576);
    At(11, r, w, 0x9bc13ce9, 0xe1ef0576, 0xfce4a312, 0x3893b991, 0x00000000, 0x895cd7be, 22, 0x70768a29);
    At(12, r, w, 0x3893b991, 0x70768a29, 0xe1ef0576, 0xfce4a312, 0x00000000, 0x6b901122, 7, 0xf56c7cf1);
    At(13, r, w, 0xfce4a312, 0xf56c7cf1, 0x70768a29, 0xe1ef0576, 0x00000000, 0xfd987193, 12, 0x374943a7);
    At(14, r, w, 0xe1ef0576, 0x374943a7, 0xf56c7cf1, 0x70768a29, 0x00000000, 0xa679438e, 17, 0x5aa53f75);
    At(15, r, w, 0x70768a29, 0x5aa53f75, 0x374943a7, 0xf56c7cf1, 0x00000000, 0x49b40821, 22, 0xd6819c6a);
  }

  lemma {:induction false} EmptyOps16(r: Regs, w: seq<Word>)
    requires Empty(w) && Ops(16, r, w) == Regs(0xf56c7cf1, 0xd6819c6a, 0x5aa53f75, 0x374943a7)
    ensures Ops(24, r, w) == Regs(0x3d1e3e6c, 0xe422531a, 0xeb41643e, 0x68b7b3e3)
  {
    hide Ops;
    At(16, r, w, 0xf56c7cf1, 0xd6819c6a, 0x5aa53f75, 0x374943a7, 0x00000000, 0xf61e2562, 5, 0x1c7d7513);
    At(17, r, w, 0x374943a7, 0x1c7d7513, 0xd6819c6a, 0x5aa53f75, 0x00000000, 0xc040b340, 9, 0x7bd57a3a);
    At(18, r, w, 0x5aa53f75, 0x7bd57a3a, 0x1c7d7513, 0xd6819c6a, 0x00000000, 0x265e5a51, 14, 0xc095f13a);
    At(19, r, w, 0xd6819c6a, 0xc095f13a, 0x7bd57a3a, 0x1c7d7513, 0x00000080, 0xe9b6c7aa, 20, 0xbd782e17);
    At(20, r, w, 0x1c7d7513, 0xbd782e17, 0xc095f13a, 0x7bd57a3a, 0x00000000, 0xd62f105d, 5, 0x3d1e3e6c);
    At(21, r, w, 0x7bd57a3a, 0x3d1e3e6c, 0xbd782e17, 0xc095f13a, 0x00000000, 0x02441453, 9, 0x68b7b3e3);
    At(22, r, w, 0xc095f13a, 0x68b7b3e3, 0x3d1e3e6c, 0xbd782e17, 0x00000000, 0xd8a1e681, 14, 0xeb41643e);
    At(23, r, w, 0xbd782e17, 0xeb41643e, 0x68b7b3e3, 0x3d1e3e6c, 0x00000000, 0xe7d3fbc8, 20, 0xe422531a);
  }

  lemma {:induction false} EmptyOps24(r: Regs, w: seq<Word>)
    requires Empty(w) && Ops(24, r, w) == Regs(0x3d1e3e6c, 0xe422531a, 0xeb41643e, 0x68b7b3e3)
    ensures Ops(32, r, w) == Regs(0x13707036, 0xa2205f1f, 0x1c31c384, 0xae7813db)
  {
    hide Ops;
    At(24, r, w, 0x3d1e3e6c, 0xe422531a, 0xeb41643e, 0x68b7b3e3, 0x00000000, 0x21e1cde6, 5, 0x306ec122);
    At(25, r, w, 0x68b7b3e3, 0x306ec122, 0xe422531a, 0xeb41643e, 0x00000000, 0xc33707d6, 9, 0xd28c77c2);
    At(26, r, w, 0xeb41643e, 0xd28c77c2, 0x306ec122, 0xe422531a, 0x00000000, 0xf4d50d87, 14, 0xa3c663da);
    At(27, r, w, 0xe422531a, 0xa3c663da, 0xd28c77c2, 0x306ec122, 0x00000000, 0x455a14ed, 20, 0xa0572807);
    At(28, r, w, 0x306ec122, 0xa0572807, 0xa3c663da, 0xd28c77c2, 0x00000000, 0xa9e3e905, 5, 0x13707036);
    At(29, r, w, 0xd28c77c2, 0x13707036, 0xa0572807, 0xa3c663da, 0x00000000, 0xfcefa3f8, 9, 0xae7813db);
    At(30, r, w, 0xa3c663da, 0xae7813db, 0x13707036, 0xa0572807, 0x00000000, 0x676f02d9, 14, 0x1c31c384);
    At(31, r, w, 0xa0572807, 0x1c31c384, 0xae7813db, 0x13707036, 0x00000000, 0x8d2a4c8a, 20, 0xa2205f1f);
  }

  lemma {:induction false} EmptyOps32(r: Regs, w: seq<Word>)
    requires Empty(w) && Ops(32, r, w) == Regs(0x13707036, 0xa2205f1f, 0x1c31c384, 0xae7813db)
    ensures Ops(40, r, w) == Regs(0x5f7a9b2e, 0xc5dc8c15, 0x91ca4cb7, 0xabc34e16)
  {
    hide Ops;
    At(32, r, w, 0x13707036, 0xa2205f1f, 0x1c31c384, 0xae7813db, 0x00000000, 0xfffa3942, 4, 0xdf63eaa1);
    At(33, r, w, 0xae7813db, 0xdf63eaa1, 0xa2205f1f, 0x1c31c384, 0x00000000, 0x8771f681, 11, 0xc3689f5b);
    At(34, r, w, 0x1c31c384, 0xc3689f5b, 0xdf63eaa1, 0xa2205f1f, 0x00000000, 0x6d9d6122, 16, 0x12f3e755);
    At(35, r, w, 0xa2205f1f, 0x12f3e755, 0xc3689f5b, 0xdf63eaa1, 0x00000000, 0xfde5380c, 23, 0x004b6669);
    At(36, r, w, 0xdf63eaa1, 0x004b6669, 0x12f3e755, 0xc3689f5b, 0x00000000, 0xa4beea44, 4, 0x5f7a9b2e);
    At(37, r, w, 0xc3689f5b, 0x5f7a9b2e, 0x004b6669, 0x12f3e755, 0x00000000, 0x4bdecfa9, 11, 0xabc34e16);
    At(38, r, w, 0x12f3e755, 0xabc34e16, 0x5f7a9b2e, 0x004b6669, 0x00000000, 0xf6bb4b60, 16, 0x91ca4cb7);
    At(39, r, w, 0x004b6669, 0x91ca4cb7, 0xabc34e16, 0x5f7a9b2e, 0x00000000, 0xbebfbc70, 23, 0xc5dc8c15);
  }

  lemma {:induction false} EmptyOps40(r: Regs, w: seq<Word>)
    requires Empty(w) && Ops(40, r, w) == Regs(0x5f7a9b2e, 0xc5dc8c15, 0x91ca4cb7, 0xabc34e16)
    ensures Ops(48, r, w) == Regs(0x3f55edfd, 0xca7d2dbd, 0x68d84ea2, 0x22a31f54)
  {
    hide Ops;
    At(40, r, w, 0x5f7a9b2e, 0xc5dc8c15, 0x91ca4cb7, 0xabc34e16, 0x00000000, 0x289b7ec6, 4, 0x4497169d);
    At(41, r, w, 0xabc34e16, 0x4497169d, 0xc5dc8c15, 0x91ca4cb7, 0x00000080, 0xeaa127fa, 11, 0x76fd93d4);
    At(42, r, w, 0x91ca4cb7, 0x76fd93d4, 0x4497169d, 0xc5dc8c15, 0x00000000, 0xd4ef3085, 16, 0xfd95f243);
    At(43, r, w, 0xc5dc8c15, 0xfd95f243, 0x76fd93d4, 0x4497169d, 0x00000000, 0x04881d05, 23, 0x0fe32453);
    At(44, r, w, 0x4497169d, 0x0fe32453, 0xfd95f243, 0x76fd93d4, 0x00000000, 0xd9d4d039, 4, 0x3f55edfd);
    At(45, r, w, 0x76fd93d4, 0x3f55edfd, 0x0fe32453, 0xfd95f243, 0x00000000, 0xe6db99e5, 11, 0x22a31f54);
    At(46, r, w, 0xfd95f243, 0x22a31f54, 0x3f55edfd, 0x0fe32453, 0x00000000, 0x1fa27cf8, 16, 0x68d84ea2);
    At(47, r, w, 0x0fe32453, 0x68d84ea2, 0x22a31f54, 0x3f55edfd, 0x00000000, 0xc4ac5665, 23, 0xca7d2dbd);
  }

  lemma {:induction false} EmptyOps48(r: Regs, w: seq<Word>)
    requires Empty(w) && Ops(48, r, w) == Regs(0x3f55edfd, 0xca7d2dbd, 0x68d84ea2, 0x22a31f54)
    ensures Ops(56, r, w) == Regs(0x5625a114, 0x1e77fa61, 0x392ad0d0, 0x3450f42b)
  {
    hide Ops;
    At(48, r, w, 0x3f55edfd, 0xca7d2dbd, 0x68d84ea2, 0x22a31f54, 0x00000080, 0xf4292244, 6, 0x93aa2577);
    At(49, r, w, 0x22a31f54, 0x93aa2577, 0xca7d2dbd, 0x68d84ea2, 0x00000000, 0x432aff97, 10, 0x1688dc85);
    At(50, r, w, 0x68d84ea2, 0x1688dc85, 0x93aa2577, 0xca7d2dbd, 0x00000000, 0xab9423a7, 15, 0xcd85b8cb);
    At(51, r, w, 0xca7d2dbd, 0xcd85b8cb, 0x1688dc85, 0x93aa2577, 0x00000000, 0xfc93a039, 21, 0x561e0689);
    At(52, r, w, 0x93aa2577, 0x561e0689, 0xcd85b8cb, 0x1688dc85, 0x00000000, 0x655b59c3, 6, 0x5625a114);
    At(53, r, w, 0x1688dc85, 0x5625a114, 0x561e0689, 0xcd85b8cb, 0x00000000, 0x8f0ccc92, 10, 0x3450f42b);
    At(54, r, w, 0xcd85b8cb, 0x3450f42b, 0x5625a114, 0x561e0689, 0x00000000, 0xffeff47d, 15, 0x392ad0d0);
    At(55, r, w, 0x561e0689, 0x392ad0d0, 0x3450f42b, 0x5625a114, 0x00000000, 0x85845dd1, 21, 0x1e77fa61);
  }

  lemma {:induction false} EmptyOps56(r: Regs, w: seq<Word>)
    requires Empty(w) && Ops(56, r, w) == Regs(0x5625a114, 0x1e77fa61, 0x392ad0d0, 0x3450f42b)
    ensures Ops(64, r, w) == Regs(0x7246fad3, 0x14e45506, 0xff4ea3eb, 0x6e10a476)
  {
    hide Ops;
    At(56, r, w, 0x5625a114, 0x1e77fa61, 0x392ad0d0, 0x3450f42b, 0x00000000, 0x6fa87e4f, 6, 0x474a9c8c);
    At(57, r, w, 0x3450f42b, 0x474a9c8c, 0x1e77fa61, 0x392ad0d0, 0x00000000, 0xfe2ce6e0, 10, 0xdfce00bc);
    At(58, r, w, 0x392ad0d0, 0xdfce00bc, 0x474a9c8c, 0x1e77fa61, 0x00000000, 0xa3014314, 15, 0x36594b14);
    At(59, r, w, 0x1e77fa61, 0x36594b14, 0xdfce00bc, 0x474a9c8c, 0x00000000, 0x4e0811a1, 21, 0x30130182);
    At(60, r, w, 0x474a9c8c, 0x30130182, 0x36594b14, 0xdfce00bc, 0x00000000, 0xf7537e82, 6, 0x7246fad3);
    At(61, r, w, 0xdfce00bc, 0x7246fad3, 0x30130182, 0x36594b14, 0x00000000, 0xbd3af235, 10, 0x6e10a476);
    At(62, r, w, 0x36594b14, 0x6e10a476, 0x7246fad3, 0x30130182, 0x00000000, 0x2ad7d2bb, 15, 0xff4ea3eb);
    At(63, r, w, 0x30130182, 0xff4ea3eb, 0x6e10a476, 0x7246fad3, 0x00000000, 0xeb86d391, 21, 0x14e45506);
  }

  lemma EmptyCompress(w: seq<Word>)
    requires Empty(w)
    ensures Compress(Regs(0x67452301, 0xefcdab89, 0x98badcfe, 0x10325476), w)
            == Regs(0xd98c1dd4, 0x04b2008f, 0x980980e9, 0x7e42f8ec)
  {
    var r := Regs(0x67452301, 0xefcdab89, 0x98badcfe, 0x10325476);
    assert Ops(0, r, w) == r;
    hide Ops;
    EmptyOps0(r, w);
    EmptyOps16(r, w);
    EmptyOps24(r, w);
    EmptyOps32(r, w);
    EmptyOps40(r, w);
    EmptyOps48(r, w);
    EmptyOps56(r, w);
    Sums(r, w, Regs(0x7246fad3, 0x14e45506, 0xff4ea3eb, 0x6e10a476));
  }

  ghost predicate First(w: seq<Word>) {
    && |w| == 16
    && w[0] == 0x44434241 && w[1] == 0x48474645 && w[2] == 0x4c4b4a49 && w[3] == 0x504f4e4d
    && w[4] == 0x54535251 && w[5] == 0x58575655 && w[6] == 0x62615a59 && w[7] == 0x66656463
    && w[8] == 0x6a696867 && w[9] == 0x6e6d6c6b && w[10] == 0x7271706f && w[11] == 0x76757473
    && w[12] == 0x7a797877 && w[13] == 0x33323130 && w[14] == 0x37363534 && w[15] == 0x00803938
  }

  lemma {:induction false} FirstOps0(r: Regs, w: seq<Word>)
    requires First(w) && Ops(0, r, w) == Regs(0x67452301, 0xefcdab89, 0x98badcfe, 0x10325476)
    ensures Ops(16, r, w) == Regs(0x3cbdcd45, 0x5d38e690, 0xfa148c8a, 0xb8dec763)
  {
    hide Ops;
    At(0, r, w, 0x67452301, 0xefcdab89, 0x98badcfe, 0x10325476, 0x44434241, 0xd76aa478, 7, 0xc6c10796);
    At(1, r, w, 0x10325476, 0xc6c10796, 0xefcdab89, 0x98badcfe, 0x48474645, 0xe8c7b756, 12, 0x99a09999);
    At(2, r, w, 0x98badcfe, 0x99a09999, 0xc6c10796, 0xefcdab89, 0x4c4b4a49, 0x242070db, 17, 0x11067980);
    At(3, r, w, 0xefcdab89, 0x11067980, 0x99a09999, 0xc6c10796, 0x504f4e4d, 0xc1bdceee, 22, 0x27bce07a);
    At(4, r, w, 0xc6c10796, 0x27bce07a, 0x11067980, 0x99a09999, 0x54535251, 0xf57c0faf, 7, 0xf22e6c4e);
    At(5, r, w, 0x99a09999, 0xf22e6c4e, 0x27bce07a, 0x11067980, 0x58575655, 0x4787c62a, 12, 0xb4ac9218);
    At(6, r, w, 0x11067980, 0xb4ac9218, 0xf22e6c4e, 0x27bce07a, 0x62615a59, 0xa8304613, 17, 0xa95a2fc0);
    At(7, r, w, 0x27bce07a, 0xa95a2fc0, 0xb4ac9218, 0xf22e6c4e, 0x66656463, 0xfd469501, 22, 0xa4799506);
    At(8, r, w, 0xf22e6c4e, 0xa4799506, 0xa95a2fc0, 0xb4ac9218, 0x6a696867, 0x698098d8, 7, 0x1eb3e7c1);
    At(9, r, w, 0xb4ac9218, 0x1eb3e7c1, 0xa4799506, 0xa95a2fc0, 0x6e6d6c6b, 0x8b44f7af, 12, 0xa6e70cfe);
    At(10, r, w, 0xa95a2fc0, 0xa6e70cfe, 0x1eb3e7c1, 0xa4799506, 0x7271706f, 0xffff5bb1, 17, 0xca27520b);
    At(11, r, w, 0xa4799506, 0xca27520b, 0xa6e70cfe, 0x1eb3e7c1, 0x76757473, 0x895cd7be, 22, 0x8a7612ec);
    At(12, r, w, 0x1eb3e7c1, 0x8a7612ec, 0xca27520b, 0xa6e70cfe, 0x7a797877, 0x6b901122, 7, 0x3cbdcd45);
    At(13, r, w, 0xa6e70cfe, 0x3cbdcd45, 0x8a7612ec, 0xca27520b, 0x33323130, 0xfd987193, 12, 0xb8dec763);
    At(14, r, w, 0xca27520b, 0xb8dec763, 0x3cbdcd45, 0x8a7612ec, 0x37363534, 0xa679438e, 17, 0xfa148c8a);
    At(15, r, w, 0x8a7612ec, 0xfa148c8a, 0xb8dec763, 0x3cbdcd45, 0x00803938, 0x49b40821, 22, 0x5d38e690);
  }

  lemma {:induction false} FirstOps16(r: Regs, w: seq<Word>)
    requires First(w) && Ops(16, r, w) == Regs(0x3cbdcd45, 0x5d38e690, 0xfa148c8a, 0xb8dec763)
    ensures Ops(24, r, w) == Regs(0x2d7d8a3f, 0x75292030, 0x4b534dc3, 0xd1210823)
  {
    hide Ops;
    At(16, r, w, 0x3cbdcd45, 0x5d38e690, 0xfa148c8a, 0xb8dec763, 0x48474645, 0xf61e2562, 5, 0x04b9d52a);
    At(17, r, w, 0xb8dec763, 0x04b9d52a, 0x5d38e690, 0xfa148c8a, 0x62615a59, 0xc040b340, 9, 0x783002eb);
    At(18, r, w, 0xfa148c8a, 0x783002eb, 0x04b9d52a, 0x5d38e690, 0x76757473, 0x265e5a51, 14, 0xd3ee3ed1);
    At(19, r, w, 0x5d38e690, 0xd3ee3ed1, 0x783002eb, 0x04b9d52a, 0x44434241, 0xe9b6c7aa, 20, 0x47ae7c81);
    At(20, r, w, 0x04b9d52a, 0x47ae7c81, 0xd3ee3ed1, 0x783002eb, 0x58575655, 0xd62f105d, 5, 0x2d7d8a3f);
    At(21, r, w, 0x783002eb, 0x2d7d8a3f, 0x47ae7c81, 0xd3ee3ed1, 0x7271706f, 0x02441453, 9, 0xd1210823);
    At(22, r, w, 0xd3ee3ed1, 0xd1210823, 0x2d7d8a3f, 0x47ae7c81, 0x00803938, 0xd8a1e681, 14, 0x4b534dc3);
    At(23, r, w, 0x47ae7c81, 0x4b534dc3, 0xd1210823, 0x2d7d8a3f, 0x54535251, 0xe7d3fbc8, 20, 0x75292030);
  }

  lemma {:induction false} FirstOps24(r: Regs, w: seq<Word>)
    requires First(w) && Ops(24, r, w) == Regs(0x2d7d8a3f, 0x75292030, 0x4b534dc3, 0xd1210823)
    ensures Ops(32, r, w) == Regs(0x9b085fa9, 0xdd789ecc, 0x5993248f, 0x4400a9bd)
  {
    hide Ops;
    At(24, r, w, 0x2d7d8a3f, 0x75292030, 0x4b534dc3, 0xd1210823, 0x6e6d6c6b, 0x21e1cde6, 5, 0x9d2a6e33);
    At(25, r, w, 0xd1210823, 0x9d2a6e33, 0x75292030, 0x4b534dc3, 0x37363534, 0xc33707d6, 9, 0x0e8d2e44);
    At(26, r, w, 0x4b534dc3, 0x0e8d2e44, 0x9d2a6e33, 0x75292030, 0x504f4e4d, 0xf4d50d87, 14, 0xd473b564);
    At(27, r, w, 0x75292030, 0xd473b564, 0x0e8d2e44, 0x9d2a6e33, 0x6a696867, 0x455a14ed, 20, 0xf2ff6ea0);
    At(28, r, w, 0x9d2a6e33, 0xf2ff6ea0, 0xd473b564, 0x0e8d2e44, 0x33323130, 0xa9e3e905, 5, 0x9b085fa9);
    At(29, r, w, 0x0e8d2e44, 0x9b085fa9, 0xf2ff6ea0, 0xd473b564, 0x4c4b4a49, 0xfcefa3f8, 9, 0x4400a9bd);
    At(30, r, w, 0xd473b564, 0x4400a9bd, 0x9b085fa9, 0xf2ff6ea0, 0x66656463, 0x676f02d9, 14, 0x5993248f);
    At(31, r, w, 0xf2ff6ea0, 0x5993248f, 0x4400a9bd, 0x9b085fa9, 0x7a797877, 0x8d2a4c8a, 20, 0xdd789ecc);
  }

  lemma {:induction false} FirstOps32(r: Regs, w: seq<Word>)
    requires First(w) && Ops(32, r, w) == Regs(0x9b085fa9, 0xdd789ecc, 0x5993248f, 0x4400a9bd)
    ensures Ops(40, r, w) == Regs(0x436b7fe9, 0xcf0341ed, 0xf404c2f6, 0x075800c1)
  {
    hide Ops;
    At(32, r, w, 0x9b085fa9, 0xdd789ecc, 0x5993248f, 0x4400a9bd, 0x58575655, 0xfffa3942, 4, 0x21c8d2b7);
    At(33, r, w, 0x4400a9bd, 0x21c8d2b7, 0xdd789ecc, 0x5993248f, 0x6a696867, 0x8771f681, 11, 0x1d55a18e);
    At(34, r, w, 0x5993248f, 0x1d55a18e, 0x21c8d2b7, 0xdd789ecc, 0x76757473, 0x6d9d6122, 16, 0x056ec119);
    At(35, r, w, 0xdd789ecc, 0x056ec119, 0x1d55a18e, 0x21c8d2b7, 0x37363534, 0xfde5380c, 23, 0x1b9504f8);
    At(36, r, w, 0x21c8d2b7, 0x1b9504f8, 0x056ec119, 0x1d55a18e, 0x48474645, 0xa4beea44, 4, 0x436b7fe9);
    At(37, r, w, 0x1d55a18e, 0x436b7fe9, 0x1b9504f8, 0x056ec119, 0x54535251, 0x4bdecfa9, 11, 0x075800c1);
    At(38, r, w, 0x056ec119, 0x075800c1, 0x436b7fe9, 0x1b9504f8, 0x66656463, 0xf6bb4b60, 16, 0xf404c2f6);
    At(39, r, w, 0x1b9504f8, 0xf404c2f6, 0x075800c1, 0x436b7fe9, 0x7271706f, 0xbebfbc70, 23, 0xcf0341ed);
  }

  lemma {:induction false} FirstOps40(r: Regs, w: seq<Word>)
    requires First(w) && Ops(40, r, w) == Regs(0x436b7fe9, 0xcf0341ed, 0xf404c2f6, 0x075800c1)
    ensures Ops(48, r, w) == Regs(0x2dbee21d, 0xf166f514, 0xee46e961, 0xe95c3a43)
  {
    hide Ops;
    At(40, r, w, 0x436b7fe9, 0xcf0341ed, 0xf404c2f6, 0x075800c1, 0x33323130, 0x289b7ec6, 4, 0x888e7d8a);
    At(41, r, w, 0x075800c1, 0x888e7d8a, 0xcf0341ed, 0xf404c2f6, 0x44434241, 0xeaa127fa, 11, 0xbbdaecd8);
    At(42, r, w, 0xf404c2f6, 0xbbdaecd8, 0x888e7d8a, 0xcf0341ed, 0x504f4e4d, 0xd4ef3085, 16, 0xce620273);
    At(43, r, w, 0xcf0341ed, 0xce620273, 0xbbdaecd8, 0x888e7d8a, 0x62615a59, 0x04881d05, 23, 0x047b9419);
    At(44, r, w, 0x888e7d8a, 0x047b9419, 0xce620273, 0xbbdaecd8, 0x6e6d6c6b, 0xd9d4d039, 4, 0x2dbee21d);
    At(45, r, w, 0xbbdaecd8, 0x2dbee21d, 0x047b9419, 0xce620273, 0x7a797877, 0xe6db99e5, 11, 0xe95c3a43);
    At(46, r, w, 0xce620273, 0xe95c3a43, 0x2dbee21d, 0x047b9419, 0x00803938, 0x1fa27cf8, 16, 0xee46e961);
    At(47, r, w, 0x047b9419, 0xee46e961, 0xe95c3a43, 0x2dbee21d, 0x4c4b4a49, 0xc4ac5665, 23, 0xf166f514);
  }

  lemma {:induction false} FirstOps48(r: Regs, w: seq<Word>)
    requires First(w) && Ops(48, r, w) == Regs(0x2dbee21d, 0xf166f514, 0xee46e961, 0xe95c3a43)
    ensures Ops(52, r, w) == Regs(0xe47fd4f3, 0x7a13bc5c, 0xf22aedcc, 0xfb887751)
  {
    hide Ops;
    At(48, r, w, 0x2dbee21d, 0xf166f514, 0xee46e961, 0xe95c3a43, 0x44434241, 0xf4292244, 6, 0xe47fd4f3);
    At(49, r, w, 0xe95c3a43, 0xe47fd4f3, 0xf166f514, 0xee46e961, 0x66656463, 0x432aff97, 10, 0xfb887751);
    At(50, r, w, 0xee46e961, 0xfb887751, 0xe47fd4f3, 0xf166f514, 0x37363534, 0xab9423a7, 15, 0xf22aedcc);
    At(51, r, w, 0xf166f514, 0xf22aedcc, 0xfb887751, 0xe47fd4f3, 0x58575655, 0xfc93a039, 21, 0x7a13bc5c);
  }

  lemma {:induction false} FirstOps52(r: Regs, w: seq<Word>)
    requires First(w) && Ops(52, r, w) == Regs(0xe47fd4f3, 0x7a13bc5c, 0xf22aedcc, 0xfb887751)
    ensures Ops(56, r, w) == Regs(0xa691d430, 0xefb0e72f, 0x3fc23df6, 0x528452f2)
  {
    hide Ops;
    At(52, r, w, 0xe47fd4f3, 0x7a13bc5c, 0xf22aedcc, 0xfb887751, 0x7a797877, 0x655b59c3, 6, 0xa691d430);
    At(53, r, w, 0xfb887751, 0xa691d430, 0x7a13bc5c, 0xf22aedcc, 0x504f4e4d, 0x8f0ccc92, 10, 0x528452f2);
    At(54, r, w, 0xf22aedcc, 0x528452f2, 0xa691d430, 0x7a13bc5c, 0x7271706f, 0xffeff47d, 15, 0x3fc23df6);
    At(55, r, w, 0x7a13bc5c, 0x3fc23df6, 0x528452f2, 0xa691d430, 0x48474645, 0x85845dd1, 21, 0xefb0e72f);
  }

  lemma {:induction false} FirstOps56(r: Regs, w: seq<Word>)
    requires First(w) && Ops(56, r, w) == Regs(0xa691d430, 0xefb0e72f, 0x3fc23df6, 0x528452f2)
    ensures Ops(60, r, w) == Regs(0x27145703, 0x49d9a5b4, 0x374fbe79, 0x21a11069)
  {
    hide Ops;
    At(56, r, w, 0xa691d430, 0xefb0e72f, 0x3fc23df6, 0x528452f2, 0x6a696867, 0x6fa87e4f, 6, 0x27145703);
    At(57, r, w, 0x528452f2, 0x27145703, 0xefb0e72f, 0x3fc23df6, 0x00803938, 0xfe2ce6e0, 10, 0x21a11069);
    At(58, r, w, 0x3fc23df6, 0x21a11069, 0x27145703, 0xefb0e72f, 0x62615a59, 0xa3014314, 15, 0x374fbe79);
    At(59, r, w, 0xefb0e72f, 0x374fbe79, 0x21a11069, 0x27145703, 0x33323130, 0x4e0811a1, 21, 0x49d9a5b4);
  }

  lemma {:induction false} FirstOps60(r: Regs, w: seq<Word>)
    requires First(w) && Ops(60, r, w) == Regs(0x27145703, 0x49d9a5b4, 0x374fbe79, 0x21a11069)
    ensures Ops(64, r, w) == Regs(0x1cb80f0a, 0xef2e3a46, 0x10f68731, 0xea3d3eb4)
  {
    hide Ops;
    At(60, r, w, 0x27145703, 0x49d9a5b4, 0x374fbe79, 0x21a11069, 0x54535251, 0xf7537e82, 6, 0x1cb80f0a);
    At(61, r, w, 0x21a11069, 0x1cb80f0a, 0x49d9a5b4, 0x374fbe79, 0x76757473, 0xbd3af235, 10, 0xea3d3eb4);
    At(62, r, w, 0x374fbe79, 0xea3d3eb4, 0x1cb80f0a, 0x49d9a5b4, 0x4c4b4a49, 0x2ad7d2bb, 15, 0x10f68731);
    At(63, r, w, 0x49d9a5b4, 0x10f68731, 0xea3d3eb4, 0x1cb80f0a, 0x6e6d6c6b, 0xeb86d391, 21, 0xef2e3a46);
  }

  lemma FirstCompress(w: seq<Word>)
    requires First(w)
    ensures Compress(Regs(0x67452301, 0xefcdab89, 0x98badcfe, 0x10325476), w)
            == Regs(0x83fd320b, 0xdefbe5cf, 0xa9b1642f, 0xfa6f932a)
  {
    var r := Regs(0x67452301, 0xefcdab89, 0x98badcfe, 0x10325476);
    assert Ops(0, r, w) == r;
    hide Ops;
    FirstOps0(r, w);
    FirstOps16(r, w);
    FirstOps24(r, w);
    FirstOps32(r, w);
    FirstOps40(r, w);
    FirstOps48(r, w);
    FirstOps52(r, w);
    FirstOps56(r, w);
    FirstOps60(r, w);
    Sums(r, w, Regs(0x1cb80f0a, 0xef2e3a46, 0x10f68731, 0xea3d3eb4));
  }

  ghost predicate Second(w: seq<Word>) {
    && |w| == 16
    && w[0] == 0x00000000 && w[1] == 0x00000000 && w[2] == 0x00000000 && w[3] == 0x00000000
    && w[4] == 0x00000000 && w[5] == 0x00000000 && w[6] == 0x00000000 && w[7] == 0x00000000
    && w[8] == 0x00000000 && w[9] == 0x00000000 && w[10] == 0x00000000 && w[11] == 0x00000000
    && w[12] == 0x00000000 && w[13] == 0x00000000 && w[14] == 0x000001f0 && w[15] == 0x00000000
  }

  lemma {:induction false} SecondOps0(r: Regs, w: seq<Word>)
    requires Second(w) && Ops(0, r, w) == Regs(0x83fd320b, 0xdefbe5cf, 0xa9b1642f, 0xfa6f932a)
    ensures Ops(16, r, w) == Regs(0xa70737da, 0xa36f556f, 0x96f6586e, 0x5473f8a7)
  {
    hide Ops;
    At(0, r, w, 0x83fd320b, 0xdefbe5cf, 0xa9b1642f, 0xfa6f932a, 0x00000000, 0xd76aa478, 7, 0xeda23ed1);
    At(1, r, w, 0xfa6f932a, 0xeda23ed1, 0xdefbe5cf, 0xa9b1642f, 0x00000000, 0xe8c7b756, 12, 0x989939cf);
    At(2, r, w, 0xa9b1642f, 0x989939cf, 0xeda23ed1, 0xdefbe5cf, 0x00000000, 0x242070db, 17, 0x3c307338);
    At(3, r, w, 0xdefbe5cf, 0x3c307338, 0x989939cf, 0xeda23ed1, 0x00000000, 0xc1bdceee, 22, 0xddcf0634);
    At(4, r, w, 0xeda23ed1, 0xddcf0634, 0x3c307338, 0x989939cf, 0x00000000, 0xf57c0faf, 7, 0x75144433);
    At(5, r, w, 0x989939cf, 0x75144433, 0xddcf0634, 0x3c307338, 0x00000000, 0x4787c62a, 12, 0xc8875807);
    At(6, r, w, 0x3c307338, 0xc8875807, 0x75144433, 0xddcf0634, 0x00000000, 0xa8304613, 17, 0xc783cb60);
    At(7, r, w, 0xddcf0634, 0xc783cb60, 0xc8875807, 0x75144433, 0x00000000, 0xfd469501, 22, 0x99b6b699);
    At(8, r, w, 0x75144433, 0x99b6b699, 0xc783cb60, 0xc8875807, 0x00000000, 0x698098d8, 7, 0xa60a3f69);
    At(9, r, w, 0xc8875807, 0xa60a3f69, 0x99b6b699, 0xc783cb60, 0x00000000, 0x8b44f7af, 12, 0xaa6630be);
    At(10, r, w, 0xc783cb60, 0xaa6630be, 0xa60a3f69, 0x99b6b699, 0x00000000, 0xffff5bb1, 17, 0x64db26e9);
    At(11, r, w, 0x99b6b699, 0x64db26e9, 0xaa6630be, 0xa60a3f69, 0x00000000, 0x895cd7be, 22, 0x64cc7c5a);
    At(12, r, w, 0xa60a3f69, 0x64cc7c5a, 0x64db26e9, 0xaa6630be, 0x00000000, 0x6b901122, 7, 0xa70737da);
    At(13, r, w, 0xaa6630be, 0xa70737da, 0x64cc7c5a, 0x64db26e9, 0x00000000, 0xfd987193, 12, 0x5473f8a7);
    At(14, r, w, 0x64db26e9, 0x5473f8a7, 0xa70737da, 0x64cc7c5a, 0x000001f0, 0xa679438e, 17, 0x96f6586e);
    At(15, r, w, 0x64cc7c5a, 0x96f6586e, 0x5473f8a7, 0xa70737da, 0x00000000, 0x49b40821, 22, 0xa36f556f);
  }

  lemma {:induction false} SecondOps16(r: Regs, w: seq<Word>)
    requires Second(w) && Ops(16, r, w) == Regs(0xa70737da, 0xa36f556f, 0x96f6586e, 0x5473f8a7)
    ensures Ops(24, r, w) == Regs(0xe04f070c, 0xdf35cb56, 0xc0d22b61, 0x2f3cd2a2)
  {
    hide Ops;
    At(16, r, w, 0xa70737da, 0xa36f556f, 0x96f6586e, 0x5473f8a7, 0x00000000, 0xf61e2562, 5, 0xa5050ad3);
    At(17, r, w, 0x5473f8a7, 0xa5050ad3, 0xa36f556f, 0x96f6586e, 0x00000000, 0xc040b340, 9, 0x28776046);
    At(18, r, w, 0x96f6586e, 0x28776046, 0xa5050ad3, 0xa36f556f, 0x00000000, 0x265e5a51, 14, 0x27dcd8b4);
    At(19, r, w, 0xa36f556f, 0x27dcd8b4, 0x28776046, 0xa5050ad3, 0x00000000, 0xe9b6c7aa, 20, 0x82b8827c);
    At(20, r, w, 0xa5050ad3, 0x82b8827c, 0x27dcd8b4, 0x28776046, 0x00000000, 0xd62f105d, 5, 0xe04f070c);
    At(21, r, w, 0x28776046, 0xe04f070c, 0x82b8827c, 0x27dcd8b4, 0x00000000, 0x02441453, 9, 0x2f3cd2a2);
    At(22, r, w, 0x27dcd8b4, 0x2f3cd2a2, 0xe04f070c, 0x82b8827c, 0x00000000, 0xd8a1e681, 14, 0xc0d22b61);
    At(23, r, w, 0x82b8827c, 0xc0d22b61, 0x2f3cd2a2, 0xe04f070c, 0x00000000, 0xe7d3fbc8, 20, 0xdf35cb56);
  }

  lemma {:induction false} SecondOps24(r: Regs, w: seq<Word>)
    requires Second(w) && Ops(24, r, w) == Regs(0xe04f070c, 0xdf35cb56, 0xc0d22b61, 0x2f3cd2a2)
    ensures Ops(32, r, w) == Regs(0x24eba695, 0x9c03e2e8, 0x10c42a2f, 0x4bd0378b)
  {
    hide Ops;
    At(24, r, w, 0xe04f070c, 0xdf35cb56, 0xc0d22b61, 0x2f3cd2a2, 0x00000000, 0x21e1cde6, 5, 0x242dd210);
    At(25, r, w, 0x2f3cd2a2, 0x242dd210, 0xdf35cb56, 0xc0d22b61, 0x000001f0, 0xc33707d6, 9, 0x576ace33);
    At(26, r, w, 0xc0d22b61, 0x576ace33, 0x242dd210, 0xdf35cb56, 0x00000000, 0xf4d50d87, 14, 0x5c295967);
    At(27, r, w, 0xdf35cb56, 0x5c295967, 0x576ace33, 0x242dd210, 0x00000000, 0x455a14ed, 20, 0x2291191a);
    At(28, r, w, 0x242dd210, 0x2291191a, 0x5c295967, 0x576ace33, 0x00000000, 0xa9e3e905, 5, 0x24eba695);
    At(29, r, w, 0x576ace33, 0x24eba695, 0x2291191a, 0x5c295967, 0x00000000, 0xfcefa3f8, 9, 0x4bd0378b);
    At(30, r, w, 0x5c295967, 0x4bd0378b, 0x24eba695, 0x2291191a, 0x00000000, 0x676f02d9, 14, 0x10c42a2f);
    At(31, r, w, 0x2291191a, 0x10c42a2f, 0x4bd0378b, 0x24eba695, 0x00000000, 0x8d2a4c8a, 20, 0x9c03e2e8);
  }

  lemma {:induction false} SecondOps32(r: Regs, w: seq<Word>)
    requires Second(w) && Ops(32, r, w) == Regs(0x24eba695, 0x9c03e2e8, 0x10c42a2f, 0x4bd0378b)
    ensures Ops(40, r, w) == Regs(0xe14e403d, 0xfe314121, 0x60cc183a, 0xe8cfd670)
  {
    hide Ops;
    At(32, r, w, 0x24eba695, 0x9c03e2e8, 0x10c42a2f, 0x4bd0378b, 0x00000000, 0xfffa3942, 4, 0x5be1d526);
    At(33, r, w, 0x4bd0378b, 0x5be1d526, 0x9c03e2e8, 0x10c42a2f, 0x00000000, 0x8771f681, 11, 0x9e414279);
    At(34, r, w, 0x10c42a2f, 0x9e414279, 0x5be1d526, 0x9c03e2e8, 0x00000000, 0x6d9d6122, 16, 0x9f4a1a7e);
    At(35, r, w, 0x9c03e2e8, 0x9f4a1a7e, 0x9e414279, 0x5be1d526, 0x000001f0, 0xfde5380c, 23, 0xa2448453);
    At(36, r, w, 0x5be1d526, 0xa2448453, 0x9f4a1a7e, 0x9e414279, 0x00000000, 0xa4beea44, 4, 0xe14e403d);
    At(37, r, w, 0x9e414279, 0xe14e403d, 0xa2448453, 0x9f4a1a7e, 0x00000000, 0x4bdecfa9, 11, 0xe8cfd670);
    At(38, r, w, 0x9f4a1a7e, 0xe8cfd670, 0xe14e403d, 0xa2448453, 0x00000000, 0xf6bb4b60, 16, 0x60cc183a);
    At(39, r, w, 0xa2448453, 0x60cc183a, 0xe8cfd670, 0xe14e403d, 0x00000000, 0xbebfbc70, 23, 0xfe314121);
  }

  lemma {:induction false} SecondOps40(r: Regs, w: seq<Word>)
    requires Second(w) && Ops(40, r, w) == Regs(0xe14e403d, 0xfe314121, 0x60cc183a, 0xe8cfd670)
    ensures Ops(48, r, w) == Regs(0x54c9eb3a, 0x79c0710a, 0x2ec86f72, 0xd4d9c6ac)
  {
    hide Ops;
    At(40, r, w, 0xe14e403d, 0xfe314121, 0x60cc183a, 0xe8cfd670, 0x00000000, 0x289b7ec6, 4, 0xfff62809);
    At(41, r, w, 0xe8cfd670, 0xfff62809, 0xfe314121, 0x60cc183a, 0x00000000, 0xeaa127fa, 11, 0xe37209ac);
    At(42, r, w, 0x60cc183a, 0xe37209ac, 0xfff62809, 0xfe314121, 0x00000000, 0xd4ef3085, 16, 0x8cb5221c);
    At(43, r, w, 0xfe314121, 0x8cb5221c, 0xe37209ac, 0xfff62809, 0x00000000, 0x04881d05, 23, 0x7c7e974c);
    At(44, r, w, 0xfff62809, 0x7c7e974c, 0x8cb5221c, 0xe37209ac, 0x00000000, 0xd9d4d039, 4, 0x54c9eb3a);
    At(45, r, w, 0xe37209ac, 0x54c9eb3a, 0x7c7e974c, 0x8cb5221c, 0x00000000, 0xe6db99e5, 11, 0xd4d9c6ac);
    At(46, r, w, 0x8cb5221c, 0xd4d9c6ac, 0x54c9eb3a, 0x7c7e974c, 0x00000000, 0x1fa27cf8, 16, 0x2ec86f72);
    At(47, r, w, 0x7c7e974c, 0x2ec86f72, 0xd4d9c6ac, 0x54c9eb3a, 0x00000000, 0xc4ac5665, 23, 0x79c0710a);
  }

  lemma {:induction false} SecondOps48(r: Regs, w: seq<Word>)
    requires Second(w) && Ops(48, r, w) == Regs(0x54c9eb3a, 0x79c0710a, 0x2ec86f72, 0xd4d9c6ac)
    ensures Ops(56, r, w) == Regs(0xe126c1aa, 0xfb7bcee0, 0x6f287ff5, 0x96b00fa7)
  {
    hide Ops;
    At(48, r, w, 0x54c9eb3a, 0x79c0710a, 0x2ec86f72, 0xd4d9c6ac, 0x00000000, 0xf4292244, 6, 0x02095af1);
    At(49, r, w, 0xd4d9c6ac, 0x02095af1, 0x79c0710a, 0x2ec86f72, 0x00000000, 0x432aff97, 10, 0x13d245fd);
    At(50, r, w, 0x2ec86f72, 0x13d245fd, 0x02095af1, 0x79c0710a, 0x000001f0, 0xab9423a7, 15, 0xa8dcfe26);
    At(51, r, w, 0x79c0710a, 0xa8dcfe26, 0x13d245fd, 0x02095af1, 0x00000000, 0xfc93a039, 21, 0x2ba98e3f);
    At(52, r, w, 0x02095af1, 0x2ba98e3f, 0xa8dcfe26, 0x13d245fd, 0x00000000, 0x655b59c3, 6, 0xe126c1aa);
    At(53, r, w, 0x13d245fd, 0xe126c1aa, 0x2ba98e3f, 0xa8dcfe26, 0x00000000, 0x8f0ccc92, 10, 0x96b00fa7);
    At(54, r, w, 0xa8dcfe26, 0x96b00fa7, 0xe126c1aa, 0x2ba98e3f, 0x00000000, 0xffeff47d, 15, 0x6f287ff5);
    At(55, r, w, 0x2ba98e3f, 0x6f287ff5, 0x96b00fa7, 0xe126c1aa, 0x00000000, 0x85845dd1, 21, 0xfb7bcee0);
  }

  lemma {:induction false} SecondOps56(r: Regs, w: seq<Word>)
    requires Second(w) && Ops(56, r, w) == Regs(0xe126c1aa, 0xfb7bcee0, 0x6f287ff5, 0x96b00fa7)
    ensures Ops(64, r, w) == Regs(0x14ae42c6, 0x16dd9203, 0x826afd76, 0xa52dae75)
  {
    hide Ops;
    At(56, r, w, 0xe126c1aa, 0xfb7bcee0, 0x6f287ff5, 0x96b00fa7, 0x00000000, 0x6fa87e4f, 6, 0x452c1099);
    At(57, r, w, 0x96b00fa7, 0x452c1099, 0xfb7bcee0, 0x6f287ff5, 0x00000000, 0xfe2ce6e0, 10, 0xca801ba6);
    At(58, r, w, 0x6f287ff5, 0xca801ba6, 0x452c1099, 0xfb7bcee0, 0x00000000, 0xa3014314, 15, 0xc197ea8e);
    At(59, r, w, 0xfb7bcee0, 0xc197ea8e, 0xca801ba6, 0x452c1099, 0x00000000, 0x4e0811a1, 21, 0x5ac74608);
    At(60, r, w, 0x452c1099, 0x5ac74608, 0xc197ea8e, 0xca801ba6, 0x00000000, 0xf7537e82, 6, 0x14ae42c6);
    At(61, r, w, 0xca801ba6, 0x14ae42c6, 0x5ac74608, 0xc197ea8e, 0x00000000, 0xbd3af235, 10, 0xa52dae75);
    At(62, r, w, 0xc197ea8e, 0xa52dae75, 0x14ae42c6, 0x5ac74608, 0x00000000, 0x2ad7d2bb, 15, 0x826afd76);
    At(63, r, w, 0x5ac74608, 0x826afd76, 0xa52dae75, 0x14ae42c6, 0x00000000, 0xeb86d391, 21, 0x16dd9203);
  }

  lemma SecondCompress(w: seq<Word>)
    requires Second(w)
    ensures Compress(Regs(0x83fd320b, 0xdefbe5cf, 0xa9b1642f, 0xfa6f932a), w)
            == Regs(0x98ab74d1, 0xf5d977d2, 0x2c1c61a5, 0x9f9d419f)
  {
    var r := Regs(0x83fd320b, 0xdefbe5cf, 0xa9b1642f, 0xfa6f932a);
    assert Ops(0, r, w) == r;
    hide Ops;
    SecondOps0(r, w);
    SecondOps16(r, w);
    SecondOps24(r, w);
    SecondOps32(r, w);
    SecondOps40(r, w);
    SecondOps48(r, w);
    SecondOps56(r, w);
    Sums(r, w, Regs(0x14ae42c6, 0x16dd9203, 0x826afd76, 0xa52dae75));
  }

  lemma ZeroWords(block: seq<Byte>, from: nat, to: nat)
    requires |block| == 64 && from <= to <= 16
    requires forall j | 4 * from <= j < 4 * to :: block[j] == 0
    ensures forall i | from <= i < to :: Words(block)[i] == 0
  {
    hide Words;
    forall i | from <= i < to
      ensures Words(block)[i] == 0
    {
      assert block[4 * i..4 * i + 4] == [0, 0, 0, 0];
      WordAt(block, i, 0, 0, 0, 0, 0);
    }
  }

  // ---------- The empty message ----------

  lemma EmptyPadding()
    ensures Pad([]) == [0x80, 0, 0, 0] + Zeros(52) + [0, 0, 0, 0, 0, 0, 0, 0]
  {
    assert ZeroCount(0) == 55;
    NoLength();
    ZerosAdd(3, 52);
    ThreeZeros();
    hide Zeros, BitLength;
    assert [] + [0x80] + (Zeros(3) + Zeros(52)) == [0x80] + Zeros(3) + Zeros(52);
    assert [0x80] + [0, 0, 0] == [0x80, 0, 0, 0];
  }

  lemma NoLength()
    ensures BitLength(0) == [0, 0, 0, 0, 0, 0, 0, 0]
  {
    assert 8 * 0 % TWO64 == 0;
    hide LittleEndian;
    ByteIs(0 % 256, 0, 0x00);
    LittleEndianStep(0, 8);
    LittleEndianStep(0, 7);
    LittleEndianZero();
  }

  lemma ThreeZeros()
    ensures Zeros(3) == [0, 0, 0]
  {
  }

  lemma EmptyWords()
    ensures Empty(Words(Pad([])))
  {
    EmptyPadding();
    var p := Pad([]);
    hide Pad, Words;
    assert p[0..4] == [0x80, 0, 0, 0];
    WordAt(p, 0, 0x80, 0, 0, 0, 0x00000080);
    ZeroWords(p, 1, 16);
  }

  lemma {:induction false} OneBlock(r: Regs, p: seq<Byte>)
    requires |p| == 64
    ensures Chain(r, p) == Compress(r, Words(p))
  {
    hide Compress, Words;
    assert p[..0] == [] && p[0..] == p;
    assert Chain(r, []) == r;
  }

  lemma EmptyOutput()
    ensures Output(Regs(0xd98c1dd4, 0x04b2008f, 0x980980e9, 0x7e42f8ec))
            == [0xd4, 0x1d, 0x8c, 0xd9, 0x8f, 0x00, 0xb2, 0x04, 0xe9, 0x80, 0x09, 0x98, 0xec, 0xf8, 0x42, 0x7e]
  {
  }

  lemma EmptyDigest()
    ensures Digest([])
            == [0xd4, 0x1d, 0x8c, 0xd9, 0x8f, 0x00, 0xb2, 0x04, 0xe9, 0x80, 0x09, 0x98, 0xec, 0xf8, 0x42, 0x7e]
  {
    EmptyPadding();
    var p := Pad([]);
    assert Digest([]) == Output(Chain(INITIAL, p));
    hide *;
    assert |p| == 64;
    OneBlock(INITIAL, p);
    EmptyWords();
    EmptyCompress(Words(p));
    EmptyOutput();
    assert INITIAL == Regs(0x67452301, 0xefcdab89, 0x98badcfe, 0x10325476);
  }

  // ---------- A message of two blocks ----------

  // The 62 characters A to Z, a to z and 0 to 9.

  const ROW0: seq<Byte> := [0x41, 0x42, 0x43, 0x44] + [0x45, 0x46, 0x47, 0x48]
    + [0x49, 0x4a, 0x4b, 0x4c] + [0x4d, 0x4e, 0x4f, 0x50]
  const ROW1: seq<Byte> := [0x51, 0x52, 0x53, 0x54] + [0x55, 0x56, 0x57, 0x58]
    + [0x59, 0x5a, 0x61, 0x62] + [0x63, 0x64, 0x65, 0x66]
  const ROW2: seq<Byte> := [0x67, 0x68, 0x69, 0x6a] + [0x6b, 0x6c, 0x6d, 0x6e]
    + [0x6f, 0x70, 0x71, 0x72] + [0x73, 0x74, 0x75, 0x76]
  const ROW3: seq<Byte> := [0x77, 0x78, 0x79, 0x7a] + [0x30, 0x31, 0x32, 0x33]
    + [0x34, 0x35, 0x36, 0x37] + [0x38, 0x39]

  const MESSAGE := ROW0 + ROW1 + ROW2 + ROW3

  lemma RowWords(block: seq<Byte>, j: nat, q0: seq<Byte>, q1: seq<Byte>, q2: seq<Byte>, q3: seq<Byte>)
    requires |block| == 64 && j < 4 && |q0| == |q1| == |q2| == |q3| == 4
    requires block[16 * j..16 * j + 16] == q0 + q1 + q2 + q3
    ensures Words(block)[4 * j] == Decode(q0) && Words(block)[4 * j + 1] == Decode(q1)
    ensures Words(block)[4 * j + 2] == Decode(q2) && Words(block)[4 * j + 3] == Decode(q3)
  {
    hide Decode;
    var row := block[16 * j..16 * j + 16];
    Quarters(q0, q1, q2, q3);
    SubSlice(block, 16 * j, 16 * j + 16, 0, 4);
    SubSlice(block, 16 * j, 16 * j + 16, 4, 8);
    SubSlice(block, 16 * j, 16 * j + 16, 8, 12);
    SubSlice(block, 16 * j, 16 * j + 16, 12, 16);
  }

  lemma Quarters(q0: seq<Byte>, q1: seq<Byte>, q2: seq<Byte>, q3: seq<Byte>)
    requires |q0| == |q1| == |q2| == |q3| == 4
    ensures var row := q0 + q1 + q2 + q3;
            row[0..4] == q0 && row[4..8] == q1 && row[8..12] == q2 && row[12..16] == q3
  {
    var row := q0 + q1 + q2 + q3;
    assert row[0..4] == q0;
    assert row[4..8] == q1;
    assert row[8..12] == q2;
    assert row[12..16] == q3;
  }

  lemma SubSlice(s: seq<Byte>, from: nat, to: nat, a: nat, b: nat)
    requires from <= to <= |s| && a <= b <= to - from
    ensures s[from..to][a..b] == s[from + a..from + b]
  {
    var t := s[from..to];
    assert forall k | a <= k < b :: t[k] == s[from + k];
    assert |t[a..b]| == |s[from + a..from + b]|;
    assert forall k | 0 <= k < b - a :: t[a..b][k] == s[from + a..from + b][k];
  }

  lemma Row(block: seq<Byte>, j: nat, q0: seq<Byte>, q1: seq<Byte>, q2: seq<Byte>, q3: seq<Byte>,
            x0: Word, x1: Word, x2: Word, x3: Word)
    requires |block| == 64 && j < 4 && |q0| == |q1| == |q2| == |q3| == 4
    requires block[16 * j..16 * j + 16] == q0 + q1 + q2 + q3
    requires Decode(q0) == x0 && Decode(q1) == x1 && Decode(q2) == x2 && Decode(q3) == x3
    ensures Words(block)[4 * j] == x0 && Words(block)[4 * j + 1] == x1
    ensures Words(block)[4 * j + 2] == x2 && Words(block)[4 * j + 3] == x3
  {
    hide Decode, Words;
    RowWords(block, j, q0, q1, q2, q3);
  }

  lemma Row0Words(block: seq<Byte>)
    requires |block| == 64 && block[0..16] == ROW0
    ensures Words(block)[0] == 0x44434241 && Words(block)[1] == 0x48474645
    ensures Words(block)[2] == 0x4c4b4a49 && Words(block)[3] == 0x504f4e4d
  {
    hide Words;
    Row(block, 0, [0x41, 0x42, 0x43, 0x44], [0x45, 0x46, 0x47, 0x48], [0x49, 0x4a, 0x4b, 0x4c],
        [0x4d, 0x4e, 0x4f, 0x50], 0x44434241, 0x48474645, 0x4c4b4a49, 0x504f4e4d);
  }

  lemma Row1Words(block: seq<Byte>)
    requires |block| == 64 && block[16..32] == ROW1
    ensures Words(block)[4] == 0x54535251 && Words(block)[5] == 0x58575655
    ensures Words(block)[6] == 0x62615a59 && Words(block)[7] == 0x66656463
  {
    hide Words;
    Row(block, 1, [0x51, 0x52, 0x53, 0x54], [0x55, 0x56, 0x57, 0x58], [0x59, 0x5a, 0x61, 0x62],
        [0x63, 0x64, 0x65, 0x66], 0x54535251, 0x58575655, 0x62615a59, 0x66656463);
  }

  lemma Row2Words(block: seq<Byte>)
    requires |block| == 64 && block[32..48] == ROW2
    ensures Words(block)[8] == 0x6a696867 && Words(block)[9] == 0x6e6d6c6b
    ensures Words(block)[10] == 0x7271706f && Words(block)[11] == 0x76757473
  {
    hide Words;
    Row(block, 2, [0x67, 0x68, 0x69, 0x6a], [0x6b, 0x6c, 0x6d, 0x6e], [0x6f, 0x70, 0x71, 0x72],
        [0x73, 0x74, 0x75, 0x76], 0x6a696867, 0x6e6d6c6b, 0x7271706f, 0x76757473);
  }

  lemma Row3Words(block: seq<Byte>)
    requires |block| == 64 && block[48..64] == ROW3 + [0x80, 0]
    ensures Words(block)[12] == 0x7a797877 && Words(block)[13] == 0x33323130
    ensures Words(block)[14] == 0x37363534 && Words(block)[15] == 0x00803938
  {
    hide Words;
    Row(block, 3, [0x77, 0x78, 0x79, 0x7a], [0x30, 0x31, 0x32, 0x33], [0x34, 0x35, 0x36, 0x37],
        [0x38, 0x39, 0x80, 0x00], 0x7a797877, 0x33323130, 0x37363534, 0x00803938);
  }

  lemma FirstWords(block: seq<Byte>)
    requires block == ROW0 + ROW1 + ROW2 + (ROW3 + [0x80, 0])
    ensures |block| == 64 && First(Words(block))
  {
    hide Words, Decode;
    RowLengths();
    hide ROW0, ROW1, ROW2, ROW3;
    Row0Words(block);
    Row1Words(block);
    Row2Words(block);
    Row3Words(block);
  }

  lemma RowLengths()
    ensures |ROW0| == |ROW1| == |ROW2| == 16 && |ROW3| == 14
  {
  }

  lemma SecondWords(block: seq<Byte>)
    requires block == Zeros(56) + BitLength(62)
    ensures |block| == 64 && Second(Words(block))
  {
    hide Words, Zeros;
    LengthOfMessage();
    hide BitLength;
    assert forall j | 0 <= j < 56 :: block[j] == Zeros(56)[j] == 0 by {
      ZerosAreZero(56);
    }
    ZeroWords(block, 0, 14);
    WordAt(block, 14, 0xf0, 0x01, 0, 0, 0x000001f0);
    WordAt(block, 15, 0, 0, 0, 0, 0);
  }

  lemma LengthOfMessage()
    ensures BitLength(62) == [0xf0, 0x01, 0, 0, 0, 0, 0, 0]
  {
    assert 8 * 62 % TWO64 == 496;
    hide LittleEndian;
    LowBytes();
    assert BitLength(62) == LittleEndian(496, 8);
  }

  lemma LowBytes()
    ensures LittleEndian(496, 8) == [0xf0, 0x01, 0, 0, 0, 0, 0, 0]
  {
    hide *;
    ByteIs(496 % 256, 240, 0xf0);
    ByteIs(1 % 256, 1, 0x01);
    LittleEndianStep(496, 8);
    LittleEndianStep(1, 7);
    LittleEndianZero();
  }

  lemma ByteIs(x: nat, value: nat, b: Byte)
    requires x == value < 256 && b as nat == value
    ensures x as Byte == b
  {
    if x == 240 {} else if x == 1 {} else if x == 0 {} else {}
  }

  lemma LittleEndianZero()
    ensures LittleEndian(0, 6) == [0, 0, 0, 0, 0, 0]
  {
  }

  lemma ZerosAreZero(n: nat)
    ensures forall j | 0 <= j < n :: Zeros(n)[j] == 0
  {
  }

  lemma MessageOutput()
    ensures Output(Regs(0x98ab74d1, 0xf5d977d2, 0x2c1c61a5, 0x9f9d419f))
            == [0xd1, 0x74, 0xab, 0x98, 0xd2, 0x77, 0xd9, 0xf5, 0xa5, 0x61, 0x1c, 0x2c, 0x9f, 0x41, 0x9d, 0x9f]
  {
  }

  lemma MessagePadding()
    ensures |MESSAGE| == 62
    ensures Pad(MESSAGE) == (ROW0 + ROW1 + ROW2 + (ROW3 + [0x80, 0])) + (Zeros(56) + BitLength(62))
  {
    RowLengths();
    hide ROW0, ROW1, ROW2, ROW3, Pad, BitLength;
    PadInTwoBlocks(MESSAGE);
    assert Full(MESSAGE) == [] && Tail(MESSAGE) == MESSAGE;
    assert [0x80] + Zeros(1) == [0x80, 0];
  }

  lemma MessageDigest()
    ensures Digest(MESSAGE)
            == [0xd1, 0x74, 0xab, 0x98, 0xd2, 0x77, 0xd9, 0xf5, 0xa5, 0x61, 0x1c, 0x2c, 0x9f, 0x41, 0x9d, 0x9f]
  {
    MessagePadding();
    assert Digest(MESSAGE) == Output(Chain(INITIAL, Pad(MESSAGE)));
    assert INITIAL == Regs(0x67452301, 0xefcdab89, 0x98badcfe, 0x10325476);
    hide *;
    var first, second := ROW0 + ROW1 + ROW2 + (ROW3 + [0x80, 0]), Zeros(56) + BitLength(62);
    FirstWords(first);
    SecondWords(second);
    ChainAppend(INITIAL, first, second);
    OneBlock(INITIAL, first);
    FirstCompress(Words(first));
    OneBlock(Chain(INITIAL, first), second);
    SecondCompress(Words(second));
    MessageOutput();
  }
}
