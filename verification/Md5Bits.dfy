/** A step of MD5 as a machine with 32-bit registers takes it, and the steps on the block of the empty message. */
module Md5Bits {
  import opened Md5
  import opened Md5Words

  datatype Machine = Machine(a: bv32, b: bv32, c: bv32, d: bv32)

  function Means(r: Machine): (s: Regs) { Regs(Val(r.a), Val(r.b), Val(r.c), Val(r.d)) }

  function AuxOf(i: nat, x: bv32, y: bv32, z: bv32): (r: bv32) {
    if i < 16 then Or32(And32(x, y), And32(Not32(x), z))
    else if i < 32 then Or32(And32(x, z), And32(y, Not32(z)))
    else if i < 48 then Xor32(Xor32(x, y), z)
    else Xor32(y, Or32(x, Not32(z)))
  }

  lemma AuxMeans(i: nat, x: bv32, y: bv32, z: bv32)
    ensures Aux(i, Val(x), Val(y), Val(z)) == Val(AuxOf(i, x, y, z))
  {
    hide Val, And, Or, Xor, Not, And32, Or32, Xor32, Not32;
    WordNot(x);
    WordNot(z);
    if i < 16 {
      WordAnd(x, y);
      WordAnd(Not32(x), z);
      WordOr(And32(x, y), And32(Not32(x), z));
    } else if i < 32 {
      WordAnd(x, z);
      WordAnd(y, Not32(z));
      WordOr(And32(x, z), And32(y, Not32(z)));
    } else if i < 48 {
      WordXor(x, y);
      WordXor(Xor32(x, y), z);
    } else {
      WordOr(x, Not32(z));
      WordXor(y, Or32(x, Not32(z)));
    }
  }

  /** One step; t and s are the constant and the shift. */
  function Next(i: nat, r: Machine, x: bv32, t: bv32, s: bv6): (r': Machine)
    requires s <= 32
  {
    Machine(r.d, Sum32(r.b, Turn(Sum32(Sum32(Sum32(r.a, AuxOf(i, r.b, r.c, r.d)), x), t), s)), r.b, r.c)
  }

  /** The sums of that step are exact. */
  predicate Adds(i: nat, r: Machine, x: bv32, t: bv32, s: bv6)
    requires s <= 32
  {
    var f := AuxOf(i, r.b, r.c, r.d);
    && Exact(r.a, f) && Exact(Sum32(r.a, f), x) && Exact(Sum32(Sum32(r.a, f), x), t)
    && Exact(r.b, Turn(Sum32(Sum32(Sum32(r.a, f), x), t), s))
  }

  lemma NextMeans(i: nat, r0: Regs, X: seq<word>, r: Machine, x: bv32, t: bv32, s: bv6)
    requires i < 64 && |X| == 16 && Steps(i, r0, X) == Means(r)
    requires s <= 32 && X[Pick(i)] == Val(x) && T(i) == Val(t) && Shift(i) == s as int && Adds(i, r, x, t, s)
    ensures Steps(i + 1, r0, X) == Means(Next(i, r, x, t, s))
  {
    hide Val, Add, Rotate, Turn, Aux, AuxOf, T, Shift, Pick, Sum32, Exact;
    var f := AuxOf(i, r.b, r.c, r.d);
    AuxMeans(i, r.b, r.c, r.d);
    WordSum(r.a, f);
    WordSum(Sum32(r.a, f), x);
    var sum := Sum32(Sum32(Sum32(r.a, f), x), t);
    WordSum(Sum32(Sum32(r.a, f), x), t);
    WordTurn(sum, s, Shift(i));
    WordSum(r.b, Turn(sum, s));
  }

  // ----- the empty message -----

  /** The padded block of the empty message. */
  const EMPTY_BLOCK: seq<word> := [0x80, 0, 0, 0, 0, 0, 0, 0, 0, 0, 0, 0, 0, 0, 0, 0]

  /** After i steps on that block the registers hold these words. */
  ghost predicate At(i: nat, a: bv32, b: bv32, c: bv32, d: bv32) {
    i <= 64 && Steps(i, START, EMPTY_BLOCK) == Means(Machine(a, b, c, d))
  }

  /** Step i makes w; x is the word of the block, t the constant and s the shift. */
  lemma Hop(i: nat, a: bv32, b: bv32, c: bv32, d: bv32, x: bv32, t: bv32, s: bv6, w: bv32)
    requires i < 64 && At(i, a, b, c, d) && s <= 32 && T(i) == Hex(t) && Shift(i) == s as int
    requires x == (if Pick(i) == 0 then 0x80 else 0) && w == Next(i, Machine(a, b, c, d), x, t, s).b
    requires Adds(i, Machine(a, b, c, d), x, t, s)
    ensures At(i + 1, d, w, b, c)
  {
    hide Val, Hex, T, Shift, Pick, Steps, Turn, Sum32, AuxOf, Adds;
    Spelled(t);
    SmallWords();
    NextMeans(i, START, EMPTY_BLOCK, Machine(a, b, c, d), x, t, s);
  }

  lemma SmallWords()
    ensures Val(0) == 0 && Val(0x80) == 0x80
  {
    hide Val;
    Spelled(0);
    Spelled(0x80);
  }

  lemma Empty0()
    requires At(0, 0x67452301, 0xefcdab89, 0x98badcfe, 0x10325476)
    ensures At(4, 0xa5202774, 0x1b163203, 0xe7f06b23, 0xf59592dd)
  {
    hide T, Shift, Steps, At;
    Row1();
    ShiftOrder(0);
    Hop(0, 0x67452301, 0xefcdab89, 0x98badcfe, 0x10325476, 0x80, 0xd76aa478, 7, 0xa5202774);
    Hop(1, 0x10325476, 0xa5202774, 0xefcdab89, 0x98badcfe, 0, 0xe8c7b756, 12, 0xf59592dd);
    Hop(2, 0x98badcfe, 0xf59592dd, 0xa5202774, 0xefcdab89, 0, 0x242070db, 17, 0xe7f06b23);
    Hop(3, 0xefcdab89, 0xe7f06b23, 0xf59592dd, 0xa5202774, 0, 0xc1bdceee, 22, 0x1b163203);
  }

  lemma Empty4()
    requires At(4, 0xa5202774, 0x1b163203, 0xe7f06b23, 0xf59592dd)
    ensures At(8, 0x32033344, 0x9bc13ce9, 0xf5b158db, 0x2f35d494)
  {
    hide T, Shift, Steps, At;
    Row1();
    ShiftOrder(1);
    Hop(4, 0xa5202774, 0x1b163203, 0xe7f06b23, 0xf59592dd, 0, 0xf57c0faf, 7, 0x32033344);
    Hop(5, 0xf59592dd, 0x32033344, 0x1b163203, 0xe7f06b23, 0, 0x4787c62a, 12, 0x2f35d494);
    Hop(6, 0xe7f06b23, 0x2f35d494, 0x32033344, 0x1b163203, 0, 0xa8304613, 17, 0xf5b158db);
    Hop(7, 0x1b163203, 0xf5b158db, 0x2f35d494, 0x32033344, 0, 0xfd469501, 22, 0x9bc13ce9);
  }

  lemma Empty8()
    requires At(8, 0x32033344, 0x9bc13ce9, 0xf5b158db, 0x2f35d494)
    ensures At(12, 0x3893b991, 0x70768a29, 0xe1ef0576, 0xfce4a312)
  {
    hide T, Shift, Steps, At;
    Row1();
    ShiftOrder(2);
    Hop(8, 0x32033344, 0x9bc13ce9, 0xf5b158db, 0x2f35d494, 0, 0x698098d8, 7, 0x3893b991);
    Hop(9, 0x2f35d494, 0x3893b991, 0x9bc13ce9, 0xf5b158db, 0, 0x8b44f7af, 12, 0xfce4a312);
    Hop(10, 0xf5b158db, 0xfce4a312, 0x3893b991, 0x9bc13ce9, 0, 0xffff5bb1, 17, 0xe1ef0576);
    Hop(11, 0x9bc13ce9, 0xe1ef0576, 0xfce4a312, 0x3893b991, 0, 0x895cd7be, 22, 0x70768a29);
  }

  lemma Empty12()
    requires At(12, 0x3893b991, 0x70768a29, 0xe1ef0576, 0xfce4a312)
    ensures At(16, 0xf56c7cf1, 0xd6819c6a, 0x5aa53f75, 0x374943a7)
  {
    hide T, Shift, Steps, At;
    Row1();
    ShiftOrder(3);
    Hop(12, 0x3893b991, 0x70768a29, 0xe1ef0576, 0xfce4a312, 0, 0x6b901122, 7, 0xf56c7cf1);
    Hop(13, 0xfce4a312, 0xf56c7cf1, 0x70768a29, 0xe1ef0576, 0, 0xfd987193, 12, 0x374943a7);
    Hop(14, 0xe1ef0576, 0x374943a7, 0xf56c7cf1, 0x70768a29, 0, 0xa679438e, 17, 0x5aa53f75);
    Hop(15, 0x70768a29, 0x5aa53f75, 0x374943a7, 0xf56c7cf1, 0, 0x49b40821, 22, 0xd6819c6a);
  }

  lemma Empty16()
    requires At(16, 0xf56c7cf1, 0xd6819c6a, 0x5aa53f75, 0x374943a7)
    ensures At(20, 0x1c7d7513, 0xbd782e17, 0xc095f13a, 0x7bd57a3a)
  {
    hide T, Shift, Steps, At;
    Row2();
    ShiftOrder(0);
    Hop(16, 0xf56c7cf1, 0xd6819c6a, 0x5aa53f75, 0x374943a7, 0, 0xf61e2562, 5, 0x1c7d7513);
    Hop(17, 0x374943a7, 0x1c7d7513, 0xd6819c6a, 0x5aa53f75, 0, 0xc040b340, 9, 0x7bd57a3a);
    Hop(18, 0x5aa53f75, 0x7bd57a3a, 0x1c7d7513, 0xd6819c6a, 0, 0x265e5a51, 14, 0xc095f13a);
    Hop(19, 0xd6819c6a, 0xc095f13a, 0x7bd57a3a, 0x1c7d7513, 0x80, 0xe9b6c7aa, 20, 0xbd782e17);
  }

  lemma Empty20()
    requires At(20, 0x1c7d7513, 0xbd782e17, 0xc095f13a, 0x7bd57a3a)
    ensures At(24, 0x3d1e3e6c, 0xe422531a, 0xeb41643e, 0x68b7b3e3)
  {
    hide T, Shift, Steps, At;
    Row2();
    ShiftOrder(1);
    Hop(20, 0x1c7d7513, 0xbd782e17, 0xc095f13a, 0x7bd57a3a, 0, 0xd62f105d, 5, 0x3d1e3e6c);
    Hop(21, 0x7bd57a3a, 0x3d1e3e6c, 0xbd782e17, 0xc095f13a, 0, 0x02441453, 9, 0x68b7b3e3);
    Hop(22, 0xc095f13a, 0x68b7b3e3, 0x3d1e3e6c, 0xbd782e17, 0, 0xd8a1e681, 14, 0xeb41643e);
    Hop(23, 0xbd782e17, 0xeb41643e, 0x68b7b3e3, 0x3d1e3e6c, 0, 0xe7d3fbc8, 20, 0xe422531a);
  }

  lemma Empty24()
    requires At(24, 0x3d1e3e6c, 0xe422531a, 0xeb41643e, 0x68b7b3e3)
    ensures At(28, 0x306ec122, 0xa0572807, 0xa3c663da, 0xd28c77c2)
  {
    hide T, Shift, Steps, At;
    Row2();
    ShiftOrder(2);
    Hop(24, 0x3d1e3e6c, 0xe422531a, 0xeb41643e, 0x68b7b3e3, 0, 0x21e1cde6, 5, 0x306ec122);
    Hop(25, 0x68b7b3e3, 0x306ec122, 0xe422531a, 0xeb41643e, 0, 0xc33707d6, 9, 0xd28c77c2);
    Hop(26, 0xeb41643e, 0xd28c77c2, 0x306ec122, 0xe422531a, 0, 0xf4d50d87, 14, 0xa3c663da);
    Hop(27, 0xe422531a, 0xa3c663da, 0xd28c77c2, 0x306ec122, 0, 0x455a14ed, 20, 0xa0572807);
  }

  lemma Empty28()
    requires At(28, 0x306ec122, 0xa0572807, 0xa3c663da, 0xd28c77c2)
    ensures At(32, 0x13707036, 0xa2205f1f, 0x1c31c384, 0xae7813db)
  {
    hide T, Shift, Steps, At;
    Row2();
    ShiftOrder(3);
    Hop(28, 0x306ec122, 0xa0572807, 0xa3c663da, 0xd28c77c2, 0, 0xa9e3e905, 5, 0x13707036);
    Hop(29, 0xd28c77c2, 0x13707036, 0xa0572807, 0xa3c663da, 0, 0xfcefa3f8, 9, 0xae7813db);
    Hop(30, 0xa3c663da, 0xae7813db, 0x13707036, 0xa0572807, 0, 0x676f02d9, 14, 0x1c31c384);
    Hop(31, 0xa0572807, 0x1c31c384, 0xae7813db, 0x13707036, 0, 0x8d2a4c8a, 20, 0xa2205f1f);
  }

  lemma Empty32()
    requires At(32, 0x13707036, 0xa2205f1f, 0x1c31c384, 0xae7813db)
    ensures At(36, 0xdf63eaa1, 0x004b6669, 0x12f3e755, 0xc3689f5b)
  {
    hide T, Shift, Steps, At;
    Row3();
    ShiftOrder(0);
    Hop(32, 0x13707036, 0xa2205f1f, 0x1c31c384, 0xae7813db, 0, 0xfffa3942, 4, 0xdf63eaa1);
    Hop(33, 0xae7813db, 0xdf63eaa1, 0xa2205f1f, 0x1c31c384, 0, 0x8771f681, 11, 0xc3689f5b);
    Hop(34, 0x1c31c384, 0xc3689f5b, 0xdf63eaa1, 0xa2205f1f, 0, 0x6d9d6122, 16, 0x12f3e755);
    Hop(35, 0xa2205f1f, 0x12f3e755, 0xc3689f5b, 0xdf63eaa1, 0, 0xfde5380c, 23, 0x004b6669);
  }

  lemma Empty36()
    requires At(36, 0xdf63eaa1, 0x004b6669, 0x12f3e755, 0xc3689f5b)
    ensures At(40, 0x5f7a9b2e, 0xc5dc8c15, 0x91ca4cb7, 0xabc34e16)
  {
    hide T, Shift, Steps, At;
    Row3();
    ShiftOrder(1);
    Hop(36, 0xdf63eaa1, 0x004b6669, 0x12f3e755, 0xc3689f5b, 0, 0xa4beea44, 4, 0x5f7a9b2e);
    Hop(37, 0xc3689f5b, 0x5f7a9b2e, 0x004b6669, 0x12f3e755, 0, 0x4bdecfa9, 11, 0xabc34e16);
    Hop(38, 0x12f3e755, 0xabc34e16, 0x5f7a9b2e, 0x004b6669, 0, 0xf6bb4b60, 16, 0x91ca4cb7);
    Hop(39, 0x004b6669, 0x91ca4cb7, 0xabc34e16, 0x5f7a9b2e, 0, 0xbebfbc70, 23, 0xc5dc8c15);
  }

  lemma Empty40()
    requires At(40, 0x5f7a9b2e, 0xc5dc8c15, 0x91ca4cb7, 0xabc34e16)
    ensures At(44, 0x4497169d, 0x0fe32453, 0xfd95f243, 0x76fd93d4)
  {
    hide T, Shift, Steps, At;
    Row3();
    ShiftOrder(2);
    Hop(40, 0x5f7a9b2e, 0xc5dc8c15, 0x91ca4cb7, 0xabc34e16, 0, 0x289b7ec6, 4, 0x4497169d);
    Hop(41, 0xabc34e16, 0x4497169d, 0xc5dc8c15, 0x91ca4cb7, 0x80, 0xeaa127fa, 11, 0x76fd93d4);
    Hop(42, 0x91ca4cb7, 0x76fd93d4, 0x4497169d, 0xc5dc8c15, 0, 0xd4ef3085, 16, 0xfd95f243);
    Hop(43, 0xc5dc8c15, 0xfd95f243, 0x76fd93d4, 0x4497169d, 0, 0x04881d05, 23, 0x0fe32453);
  }

  lemma Empty44()
    requires At(44, 0x4497169d, 0x0fe32453, 0xfd95f243, 0x76fd93d4)
    ensures At(48, 0x3f55edfd, 0xca7d2dbd, 0x68d84ea2, 0x22a31f54)
  {
    hide T, Shift, Steps, At;
    Row3();
    ShiftOrder(3);
    Hop(44, 0x4497169d, 0x0fe32453, 0xfd95f243, 0x76fd93d4, 0, 0xd9d4d039, 4, 0x3f55edfd);
    Hop(45, 0x76fd93d4, 0x3f55edfd, 0x0fe32453, 0xfd95f243, 0, 0xe6db99e5, 11, 0x22a31f54);
    Hop(46, 0xfd95f243, 0x22a31f54, 0x3f55edfd, 0x0fe32453, 0, 0x1fa27cf8, 16, 0x68d84ea2);
    Hop(47, 0x0fe32453, 0x68d84ea2, 0x22a31f54, 0x3f55edfd, 0, 0xc4ac5665, 23, 0xca7d2dbd);
  }

  lemma Empty48()
    requires At(48, 0x3f55edfd, 0xca7d2dbd, 0x68d84ea2, 0x22a31f54)
    ensures At(52, 0x93aa2577, 0x561e0689, 0xcd85b8cb, 0x1688dc85)
  {
    hide T, Shift, Steps, At;
    Row4();
    ShiftOrder(0);
    Hop(48, 0x3f55edfd, 0xca7d2dbd, 0x68d84ea2, 0x22a31f54, 0x80, 0xf4292244, 6, 0x93aa2577);
    Hop(49, 0x22a31f54, 0x93aa2577, 0xca7d2dbd, 0x68d84ea2, 0, 0x432aff97, 10, 0x1688dc85);
    Hop(50, 0x68d84ea2, 0x1688dc85, 0x93aa2577, 0xca7d2dbd, 0, 0xab9423a7, 15, 0xcd85b8cb);
    Hop(51, 0xca7d2dbd, 0xcd85b8cb, 0x1688dc85, 0x93aa2577, 0, 0xfc93a039, 21, 0x561e0689);
  }

  lemma Empty52()
    requires At(52, 0x93aa2577, 0x561e0689, 0xcd85b8cb, 0x1688dc85)
    ensures At(56, 0x5625a114, 0x1e77fa61, 0x392ad0d0, 0x3450f42b)
  {
    hide T, Shift, Steps, At;
    Row4();
    ShiftOrder(1);
    Hop(52, 0x93aa2577, 0x561e0689, 0xcd85b8cb, 0x1688dc85, 0, 0x655b59c3, 6, 0x5625a114);
    Hop(53, 0x1688dc85, 0x5625a114, 0x561e0689, 0xcd85b8cb, 0, 0x8f0ccc92, 10, 0x3450f42b);
    Hop(54, 0xcd85b8cb, 0x3450f42b, 0x5625a114, 0x561e0689, 0, 0xffeff47d, 15, 0x392ad0d0);
    Hop(55, 0x561e0689, 0x392ad0d0, 0x3450f42b, 0x5625a114, 0, 0x85845dd1, 21, 0x1e77fa61);
  }

  lemma Empty56()
    requires At(56, 0x5625a114, 0x1e77fa61, 0x392ad0d0, 0x3450f42b)
    ensures At(60, 0x474a9c8c, 0x30130182, 0x36594b14, 0xdfce00bc)
  {
    hide T, Shift, Steps, At;
    Row4();
    ShiftOrder(2);
    Hop(56, 0x5625a114, 0x1e77fa61, 0x392ad0d0, 0x3450f42b, 0, 0x6fa87e4f, 6, 0x474a9c8c);
    Hop(57, 0x3450f42b, 0x474a9c8c, 0x1e77fa61, 0x392ad0d0, 0, 0xfe2ce6e0, 10, 0xdfce00bc);
    Hop(58, 0x392ad0d0, 0xdfce00bc, 0x474a9c8c, 0x1e77fa61, 0, 0xa3014314, 15, 0x36594b14);
    Hop(59, 0x1e77fa61, 0x36594b14, 0xdfce00bc, 0x474a9c8c, 0, 0x4e0811a1, 21, 0x30130182);
  }

  lemma Empty60()
    requires At(60, 0x474a9c8c, 0x30130182, 0x36594b14, 0xdfce00bc)
    ensures At(64, 0x7246fad3, 0x14e45506, 0xff4ea3eb, 0x6e10a476)
  {
    hide T, Shift, Steps, At;
    Row4();
    ShiftOrder(3);
    Hop(60, 0x474a9c8c, 0x30130182, 0x36594b14, 0xdfce00bc, 0, 0xf7537e82, 6, 0x7246fad3);
    Hop(61, 0xdfce00bc, 0x7246fad3, 0x30130182, 0x36594b14, 0, 0xbd3af235, 10, 0x6e10a476);
    Hop(62, 0x36594b14, 0x6e10a476, 0x7246fad3, 0x30130182, 0, 0x2ad7d2bb, 15, 0xff4ea3eb);
    Hop(63, 0x30130182, 0xff4ea3eb, 0x6e10a476, 0x7246fad3, 0, 0xeb86d391, 21, 0x14e45506);
  }

  lemma AtStart()
    ensures At(0, 0x67452301, 0xefcdab89, 0x98badcfe, 0x10325476)
  {
    hide Val;
    Spelled(0x67452301);
    Spelled(0xefcdab89);
    Spelled(0x98badcfe);
    Spelled(0x10325476);
  }

  lemma AtEnd()
    ensures At(64, 0x7246fad3, 0x14e45506, 0xff4ea3eb, 0x6e10a476)
  {
    hide At;
    AtStart();
    Empty0();
    Empty4();
    Empty8();
    Empty12();
    Empty16();
    Empty20();
    Empty24();
    Empty28();
    Empty32();
    Empty36();
    Empty40();
    Empty44();
    Empty48();
    Empty52();
    Empty56();
    Empty60();
  }

  lemma Compressed()
    ensures Compress(START, EMPTY_BLOCK) == Regs(0xd98c1dd4, 0x04b2008f, 0x980980e9, 0x7e42f8ec)
  {
    hide Val, Steps;
    AtEnd();
    Spelled(0x7246fad3);
    Spelled(0x14e45506);
    Spelled(0xff4ea3eb);
    Spelled(0x6e10a476);
  }
}
