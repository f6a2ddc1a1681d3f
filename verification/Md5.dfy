/** The MD5 digest of digest/md5.c against its definition in RFC 1321. */
module Md5 {

  // ----- 32-bit words -----

  const TWO32: int := 0x1_0000_0000

  type word = x: int | 0 <= x < 0x1_0000_0000

  /** The n low bits of x, combined bit by bit. */
  function BitAnd(x: int, y: int, n: nat): (r: int)
    decreases n
  {
    if n == 0 then 0 else (if x % 2 == 1 && y % 2 == 1 then 1 else 0) + 2 * BitAnd(x / 2, y / 2, n - 1)
  }

  function BitOr(x: int, y: int, n: nat): (r: int)
    decreases n
  {
    if n == 0 then 0 else (if x % 2 == 1 || y % 2 == 1 then 1 else 0) + 2 * BitOr(x / 2, y / 2, n - 1)
  }

  function BitXor(x: int, y: int, n: nat): (r: int)
    decreases n
  {
    if n == 0 then 0 else (if x % 2 != y % 2 then 1 else 0) + 2 * BitXor(x / 2, y / 2, n - 1)
  }

  function BitNot(x: int, n: nat): (r: int)
    decreases n
  {
    if n == 0 then 0 else (1 - x % 2) + 2 * BitNot(x / 2, n - 1)
  }

  function Pow2(n: nat): (p: int)
    ensures p > 0
  {
    if n == 0 then 1 else 2 * Pow2(n - 1)
  }

  lemma {:induction false} BitsRange(x: int, y: int, n: nat)
    ensures 0 <= BitAnd(x, y, n) < Pow2(n) && 0 <= BitOr(x, y, n) < Pow2(n)
    ensures 0 <= BitXor(x, y, n) < Pow2(n) && 0 <= BitNot(x, n) < Pow2(n)
    decreases n
  {
    if n > 0 { BitsRange(x / 2, y / 2, n - 1); }
  }

  lemma Pow2Of32()
    ensures Pow2(32) == TWO32
  {
    assert Pow2(8) == 256;
    assert Pow2(16) == 256 * Pow2(8) by { assert Pow2(12) == 16 * Pow2(8); }
    assert Pow2(24) == 256 * Pow2(16) by { assert Pow2(20) == 16 * Pow2(16); }
    assert Pow2(32) == 256 * Pow2(24) by { assert Pow2(28) == 16 * Pow2(24); }
  }

  function And(x: word, y: word): (r: word) { BitsRange(x, y, 32); Pow2Of32(); BitAnd(x, y, 32) }

  function Or(x: word, y: word): (r: word) { BitsRange(x, y, 32); Pow2Of32(); BitOr(x, y, 32) }

  function Xor(x: word, y: word): (r: word) { BitsRange(x, y, 32); Pow2Of32(); BitXor(x, y, 32) }

  function Not(x: word): (r: word) { BitsRange(x, 0, 32); Pow2Of32(); BitNot(x, 32) }

  function Add(x: word, y: word): (r: word) { (x + y) % TWO32 }

  function ShiftLeft(x: word, s: nat): (r: word)
    decreases s
  {
    if s == 0 then x else ShiftLeft(2 * x % TWO32, s - 1)
  }

  function ShiftRight(x: word, s: nat): (r: word)
    decreases s
  {
    if s == 0 then x else ShiftRight(x / 2, s - 1)
  }

  /** A circular shift to the left. */
  function Rotate(x: word, s: nat): (r: word)
    requires s <= 32
  {
    Or(ShiftLeft(x, s), ShiftRight(x, 32 - s))
  }

  // ----- the definition: RFC 1321, sections 3.1 to 3.5 -----

  datatype Regs = Regs(a: word, b: word, c: word, d: word)

  const START: Regs := Regs(0x67452301, 0xefcdab89, 0x98badcfe, 0x10325476)

  /** The auxiliary function of step i. */
  function Aux(i: nat, x: word, y: word, z: word): (r: word) {
    if i < 16 then Or(And(x, y), And(Not(x), z))
    else if i < 32 then Or(And(x, z), And(y, Not(z)))
    else if i < 48 then Xor(Xor(x, y), z)
    else Xor(y, Or(x, Not(z)))
  }

  /** The word of the block used in step i. */
  function Pick(i: nat): (k: nat)
    ensures k < 16
  {
    if i < 16 then i % 16 else if i < 32 then (5 * i + 1) % 16 else if i < 48 then (3 * i + 5) % 16 else 7 * i % 16
  }

  function Shift(i: nat): (s: nat)
    ensures s <= 32
  {
    var row := if i < 16 then [7, 12, 17, 22] else if i < 32 then [5, 9, 14, 20]
               else if i < 48 then [4, 11, 16, 23] else [6, 10, 15, 21];
    row[i % 4]
  }

  /** The table of section 3.4, a row for each round. */
  function Table1(i: nat): (t: word)
    requires i < 16
  {
    [0xd76aa478, 0xe8c7b756, 0x242070db, 0xc1bdceee,
     0xf57c0faf, 0x4787c62a, 0xa8304613, 0xfd469501,
     0x698098d8, 0x8b44f7af, 0xffff5bb1, 0x895cd7be,
     0x6b901122, 0xfd987193, 0xa679438e, 0x49b40821][i]
  }

  function Table2(i: nat): (t: word)
    requires i < 16
  {
    [0xf61e2562, 0xc040b340, 0x265e5a51, 0xe9b6c7aa,
     0xd62f105d, 0x02441453, 0xd8a1e681, 0xe7d3fbc8,
     0x21e1cde6, 0xc33707d6, 0xf4d50d87, 0x455a14ed,
     0xa9e3e905, 0xfcefa3f8, 0x676f02d9, 0x8d2a4c8a][i]
  }

  function Table3(i: nat): (t: word)
    requires i < 16
  {
    [0xfffa3942, 0x8771f681, 0x6d9d6122, 0xfde5380c,
     0xa4beea44, 0x4bdecfa9, 0xf6bb4b60, 0xbebfbc70,
     0x289b7ec6, 0xeaa127fa, 0xd4ef3085, 0x04881d05,
     0xd9d4d039, 0xe6db99e5, 0x1fa27cf8, 0xc4ac5665][i]
  }

  function Table4(i: nat): (t: word)
    requires i < 16
  {
    [0xf4292244, 0x432aff97, 0xab9423a7, 0xfc93a039,
     0x655b59c3, 0x8f0ccc92, 0xffeff47d, 0x85845dd1,
     0x6fa87e4f, 0xfe2ce6e0, 0xa3014314, 0x4e0811a1,
     0xf7537e82, 0xbd3af235, 0x2ad7d2bb, 0xeb86d391][i]
  }

  function T(i: nat): (t: word)
    requires i < 64
  {
    if i < 16 then Table1(i) else if i < 32 then Table2(i - 16) else if i < 48 then Table3(i - 32) else Table4(i - 48)
  }

  /** a + F(b, c, d) + X[k] + T[i], rotated, plus b. */
  function Operation(i: nat, a: word, b: word, c: word, d: word, X: seq<word>): (r: word)
    requires i < 64 && |X| == 16
  {
    Add(b, Rotate(Add(Add(Add(a, Aux(i, b, c, d)), X[Pick(i)]), T(i)), Shift(i)))
  }

  /** Step i; the registers change places so that every step reads the same. */
  function Step(i: nat, r: Regs, X: seq<word>): (r': Regs)
    requires i < 64 && |X| == 16
  {
    Regs(r.d, Operation(i, r.a, r.b, r.c, r.d, X), r.b, r.c)
  }

  function Steps(n: nat, r: Regs, X: seq<word>): (r': Regs)
    requires n <= 64 && |X| == 16
  {
    if n == 0 then r else Step(n - 1, Steps(n - 1, r, X), X)
  }

  /** The effect of one block of sixteen words. */
  function Compress(r: Regs, X: seq<word>): (r': Regs)
    requires |X| == 16
  {
    var s := Steps(64, r, X);
    Regs(Add(r.a, s.a), Add(r.b, s.b), Add(r.c, s.c), Add(r.d, s.d))
  }

  // ----- the tables of the definition, as RFC 1321 prints them -----

  /** Section 3.3: the words A, B, C and D, low-order bytes first. */
  lemma StartBytes()
    ensures [START.a % 0x100, START.a / 0x100 % 0x100, START.a / 0x1_0000 % 0x100, START.a / 0x100_0000]
            == [0x01, 0x23, 0x45, 0x67]
    ensures [START.b % 0x100, START.b / 0x100 % 0x100, START.b / 0x1_0000 % 0x100, START.b / 0x100_0000]
            == [0x89, 0xab, 0xcd, 0xef]
    ensures [START.c % 0x100, START.c / 0x100 % 0x100, START.c / 0x1_0000 % 0x100, START.c / 0x100_0000]
            == [0xfe, 0xdc, 0xba, 0x98]
    ensures [START.d % 0x100, START.d / 0x100 % 0x100, START.d / 0x1_0000 % 0x100, START.d / 0x100_0000]
            == [0x76, 0x54, 0x32, 0x10]
  {
  }

  /** Section 3.4: the words k of the block, in the order of the steps of the first two rounds. */
  lemma WordOrder()
    ensures [Pick(0), Pick(1), Pick(2), Pick(3), Pick(4), Pick(5), Pick(6), Pick(7)] == [0, 1, 2, 3, 4, 5, 6, 7]
    ensures [Pick(8), Pick(9), Pick(10), Pick(11), Pick(12), Pick(13), Pick(14), Pick(15)]
            == [8, 9, 10, 11, 12, 13, 14, 15]
    ensures [Pick(16), Pick(17), Pick(18), Pick(19), Pick(20), Pick(21), Pick(22), Pick(23)]
            == [1, 6, 11, 0, 5, 10, 15, 4]
    ensures [Pick(24), Pick(25), Pick(26), Pick(27), Pick(28), Pick(29), Pick(30), Pick(31)]
            == [9, 14, 3, 8, 13, 2, 7, 12]
  {
  }

  /** And of the last two. */
  lemma WordOrderLast()
    ensures [Pick(32), Pick(33), Pick(34), Pick(35), Pick(36), Pick(37), Pick(38), Pick(39)]
            == [5, 8, 11, 14, 1, 4, 7, 10]
    ensures [Pick(40), Pick(41), Pick(42), Pick(43), Pick(44), Pick(45), Pick(46), Pick(47)]
            == [13, 0, 3, 6, 9, 12, 15, 2]
    ensures [Pick(48), Pick(49), Pick(50), Pick(51), Pick(52), Pick(53), Pick(54), Pick(55)]
            == [0, 7, 14, 5, 12, 3, 10, 1]
    ensures [Pick(56), Pick(57), Pick(58), Pick(59), Pick(60), Pick(61), Pick(62), Pick(63)]
            == [8, 15, 6, 13, 4, 11, 2, 9]
  {
  }

  /** Section 3.4: the shifts s of the four rounds, repeated in each of them. */
  lemma ShiftOrder(i: nat)
    requires i < 4
    ensures Shift(4 * i) == 7 && Shift(4 * i + 1) == 12 && Shift(4 * i + 2) == 17 && Shift(4 * i + 3) == 22
    ensures Shift(16 + 4 * i) == 5 && Shift(17 + 4 * i) == 9 && Shift(18 + 4 * i) == 14 && Shift(19 + 4 * i) == 20
    ensures Shift(32 + 4 * i) == 4 && Shift(33 + 4 * i) == 11 && Shift(34 + 4 * i) == 16 && Shift(35 + 4 * i) == 23
    ensures Shift(48 + 4 * i) == 6 && Shift(49 + 4 * i) == 10 && Shift(50 + 4 * i) == 15 && Shift(51 + 4 * i) == 21
  {
  }

  // ----- the program -----

  /** The F1 of the program; F2 is F1 with its arguments exchanged. */
  function F1(x: word, y: word, z: word): (r: word) { Xor(z, And(x, Xor(y, z))) }

  function F(f: nat, x: word, y: word, z: word): (r: word) {
    if f == 1 then F1(x, y, z)
    else if f == 2 then F1(z, x, y)
    else if f == 3 then Xor(Xor(x, y), z)
    else Xor(y, Or(x, Not(z)))
  }

  /** The macro MD5STEP: the new value of w. */
  function Md5Step(f: nat, w: word, x: word, y: word, z: word, data: word, s: nat): (r: word)
    requires s <= 32
  {
    Add(Rotate(Add(w, Add(F(f, x, y, z), data)), s), x)
  }

  /** Combining bit by bit: the lowest bit and the others. */
  lemma BitSplit(x: int, y: int, n: nat)
    requires n > 0
    ensures BitAnd(x, y, n) / 2 == BitAnd(x / 2, y / 2, n - 1)
    ensures BitAnd(x, y, n) % 2 == 1 <==> x % 2 == 1 && y % 2 == 1
    ensures BitOr(x, y, n) / 2 == BitOr(x / 2, y / 2, n - 1) && (BitOr(x, y, n) % 2 == 1 <==> x % 2 == 1 || y % 2 == 1)
    ensures BitXor(x, y, n) / 2 == BitXor(x / 2, y / 2, n - 1) && (BitXor(x, y, n) % 2 == 1 <==> x % 2 != y % 2)
    ensures BitNot(x, n) / 2 == BitNot(x / 2, n - 1) && (BitNot(x, n) % 2 == 1 <==> x % 2 != 1)
  {
  }

  lemma SameBits(p: int, q: int)
    requires p / 2 == q / 2 && (p % 2 == 1 <==> q % 2 == 1)
    ensures p == q
  {
  }

  /** The shortened form of the first function, bit by bit. */
  lemma {:induction false} Multiplex(x: int, y: int, z: int, n: nat)
    ensures BitXor(z, BitAnd(x, BitXor(y, z, n), n), n) == BitOr(BitAnd(x, y, n), BitAnd(BitNot(x, n), z, n), n)
    decreases n
  {
    if n > 0 {
      hide BitAnd, BitOr, BitXor, BitNot;
      Multiplex(x / 2, y / 2, z / 2, n - 1);
      var u, v, w, t := BitXor(y, z, n), BitAnd(x, BitXor(y, z, n), n), BitAnd(x, y, n), BitNot(x, n);
      BitSplit(y, z, n);
      BitSplit(x, u, n);
      BitSplit(z, v, n);
      BitSplit(x, y, n);
      BitSplit(t, z, n);
      BitSplit(w, BitAnd(t, z, n), n);
      SameBits(BitXor(z, v, n), BitOr(w, BitAnd(t, z, n), n));
    }
  }

  lemma {:induction false} AndSwap(x: int, y: int, n: nat)
    ensures BitAnd(x, y, n) == BitAnd(y, x, n)
    decreases n
  {
    if n > 0 { AndSwap(x / 2, y / 2, n - 1); }
  }

  lemma AuxIsF(f: nat, i: nat, x: word, y: word, z: word)
    requires i < 64 && f == i / 16 + 1
    ensures F(f, x, y, z) == Aux(i, x, y, z)
  {
    hide BitAnd, BitOr, BitXor, BitNot;
    Multiplex(x, y, z, 32);
    Multiplex(z, x, y, 32);
    AndSwap(x, z, 32);
    AndSwap(y, Not(z), 32);
  }

  lemma AddAssoc(a: word, b: word, c: word)
    ensures Add(a, Add(b, c)) == Add(Add(a, b), c)
  {
    AddSum(a, b + c);
    AddSum(c, a + b);
  }

  lemma AddSum(a: int, s: int)
    ensures (a + s % TWO32) % TWO32 == (a + s) % TWO32
  {
  }

  lemma AddSwap(a: word, b: word)
    ensures Add(a, b) == Add(b, a)
  {
  }

  /** One use of the macro is one step of the definition. */
  lemma StepIs(f: nat, i: nat, w: word, x: word, y: word, z: word, X: seq<word>, data: word, s: nat)
    requires i < 64 && f == i / 16 + 1 && |X| == 16 && data == Add(X[Pick(i)], T(i)) && s == Shift(i)
    ensures Md5Step(f, w, x, y, z, data, s) == Operation(i, w, x, y, z, X)
  {
    hide F, Aux, Pick, T, Shift, Rotate, Add;
    AuxIsF(f, i, x, y, z);
    AddAssoc(Aux(i, x, y, z), X[Pick(i)], T(i));
    AddAssoc(w, Add(Aux(i, x, y, z), X[Pick(i)]), T(i));
    AddAssoc(w, Aux(i, x, y, z), X[Pick(i)]);
    AddSwap(Rotate(Add(w, Add(Aux(i, x, y, z), data)), s), x);
  }

  /** Four uses of the macro, with the registers named in turn, are four steps. */
  lemma Quad(q: nat, f: nat, r: Regs, X: seq<word>, m: Regs, d0: word, d1: word, d2: word, d3: word)
    requires q < 16 && f == q / 4 + 1 && |X| == 16 && Steps(4 * q, r, X) == m
    requires d0 == Add(X[Pick(4 * q)], T(4 * q)) && d1 == Add(X[Pick(4 * q + 1)], T(4 * q + 1))
    requires d2 == Add(X[Pick(4 * q + 2)], T(4 * q + 2)) && d3 == Add(X[Pick(4 * q + 3)], T(4 * q + 3))
    ensures var a := Md5Step(f, m.a, m.b, m.c, m.d, d0, Shift(4 * q));
            var d := Md5Step(f, m.d, a, m.b, m.c, d1, Shift(4 * q + 1));
            var c := Md5Step(f, m.c, d, a, m.b, d2, Shift(4 * q + 2));
            var b := Md5Step(f, m.b, c, d, a, d3, Shift(4 * q + 3));
            Steps(4 * q + 4, r, X) == Regs(a, b, c, d)
  {
    hide Md5Step, Operation, Pick, T, Shift;
    var a := Md5Step(f, m.a, m.b, m.c, m.d, d0, Shift(4 * q));
    StepIs(f, 4 * q, m.a, m.b, m.c, m.d, X, d0, Shift(4 * q));
    assert Steps(4 * q + 1, r, X) == Regs(m.d, a, m.b, m.c);
    var d := Md5Step(f, m.d, a, m.b, m.c, d1, Shift(4 * q + 1));
    StepIs(f, 4 * q + 1, m.d, a, m.b, m.c, X, d1, Shift(4 * q + 1));
    assert Steps(4 * q + 2, r, X) == Regs(m.c, d, a, m.b);
    var c := Md5Step(f, m.c, d, a, m.b, d2, Shift(4 * q + 2));
    StepIs(f, 4 * q + 2, m.c, d, a, m.b, X, d2, Shift(4 * q + 2));
    assert Steps(4 * q + 3, r, X) == Regs(m.b, c, d, a);
    StepIs(f, 4 * q + 3, m.b, c, d, a, X, d3, Shift(4 * q + 3));
  }

  lemma Row1()
    ensures T(0) == 0xd76aa478 && T(1) == 0xe8c7b756 && T(2) == 0x242070db && T(3) == 0xc1bdceee
    ensures T(4) == 0xf57c0faf && T(5) == 0x4787c62a && T(6) == 0xa8304613 && T(7) == 0xfd469501
    ensures T(8) == 0x698098d8 && T(9) == 0x8b44f7af && T(10) == 0xffff5bb1 && T(11) == 0x895cd7be
    ensures T(12) == 0x6b901122 && T(13) == 0xfd987193 && T(14) == 0xa679438e && T(15) == 0x49b40821
  {
  }

  lemma Row2()
    ensures T(16) == 0xf61e2562 && T(17) == 0xc040b340 && T(18) == 0x265e5a51 && T(19) == 0xe9b6c7aa
    ensures T(20) == 0xd62f105d && T(21) == 0x02441453 && T(22) == 0xd8a1e681 && T(23) == 0xe7d3fbc8
    ensures T(24) == 0x21e1cde6 && T(25) == 0xc33707d6 && T(26) == 0xf4d50d87 && T(27) == 0x455a14ed
    ensures T(28) == 0xa9e3e905 && T(29) == 0xfcefa3f8 && T(30) == 0x676f02d9 && T(31) == 0x8d2a4c8a
  {
  }

  lemma Row3()
    ensures T(32) == 0xfffa3942 && T(33) == 0x8771f681 && T(34) == 0x6d9d6122 && T(35) == 0xfde5380c
    ensures T(36) == 0xa4beea44 && T(37) == 0x4bdecfa9 && T(38) == 0xf6bb4b60 && T(39) == 0xbebfbc70
    ensures T(40) == 0x289b7ec6 && T(41) == 0xeaa127fa && T(42) == 0xd4ef3085 && T(43) == 0x04881d05
    ensures T(44) == 0xd9d4d039 && T(45) == 0xe6db99e5 && T(46) == 0x1fa27cf8 && T(47) == 0xc4ac5665
  {
  }

  lemma Row4()
    ensures T(48) == 0xf4292244 && T(49) == 0x432aff97 && T(50) == 0xab9423a7 && T(51) == 0xfc93a039
    ensures T(52) == 0x655b59c3 && T(53) == 0x8f0ccc92 && T(54) == 0xffeff47d && T(55) == 0x85845dd1
    ensures T(56) == 0x6fa87e4f && T(57) == 0xfe2ce6e0 && T(58) == 0xa3014314 && T(59) == 0x4e0811a1
    ensures T(60) == 0xf7537e82 && T(61) == 0xbd3af235 && T(62) == 0x2ad7d2bb && T(63) == 0xeb86d391
  {
  }

  method Round1(ghost r: Regs, X: seq<word>, m: Regs) returns (a: word, b: word, c: word, d: word)
    requires |X| == 16 && Steps(0, r, X) == m
    ensures Steps(16, r, X) == Regs(a, b, c, d)
  {
    hide Md5Step, Steps, Add, T;
    Row1();
    a, b, c, d := m.a, m.b, m.c, m.d;
    Quad(0, 1, r, X, Regs(a, b, c, d), Add(X[0], 0xd76aa478), Add(X[1], 0xe8c7b756), Add(X[2], 0x242070db),
         Add(X[3], 0xc1bdceee));
    a := Md5Step(1, a, b, c, d, Add(X[0], 0xd76aa478), 7);
    d := Md5Step(1, d, a, b, c, Add(X[1], 0xe8c7b756), 12);
    c := Md5Step(1, c, d, a, b, Add(X[2], 0x242070db), 17);
    b := Md5Step(1, b, c, d, a, Add(X[3], 0xc1bdceee), 22);
    Quad(1, 1, r, X, Regs(a, b, c, d), Add(X[4], 0xf57c0faf), Add(X[5], 0x4787c62a), Add(X[6], 0xa8304613),
         Add(X[7], 0xfd469501));
    a := Md5Step(1, a, b, c, d, Add(X[4], 0xf57c0faf), 7);
    d := Md5Step(1, d, a, b, c, Add(X[5], 0x4787c62a), 12);
    c := Md5Step(1, c, d, a, b, Add(X[6], 0xa8304613), 17);
    b := Md5Step(1, b, c, d, a, Add(X[7], 0xfd469501), 22);
    Quad(2, 1, r, X, Regs(a, b, c, d), Add(X[8], 0x698098d8), Add(X[9], 0x8b44f7af), Add(X[10], 0xffff5bb1),
         Add(X[11], 0x895cd7be));
    a := Md5Step(1, a, b, c, d, Add(X[8], 0x698098d8), 7);
    d := Md5Step(1, d, a, b, c, Add(X[9], 0x8b44f7af), 12);
    c := Md5Step(1, c, d, a, b, Add(X[10], 0xffff5bb1), 17);
    b := Md5Step(1, b, c, d, a, Add(X[11], 0x895cd7be), 22);
    Quad(3, 1, r, X, Regs(a, b, c, d), Add(X[12], 0x6b901122), Add(X[13], 0xfd987193), Add(X[14], 0xa679438e),
         Add(X[15], 0x49b40821));
    a := Md5Step(1, a, b, c, d, Add(X[12], 0x6b901122), 7);
    d := Md5Step(1, d, a, b, c, Add(X[13], 0xfd987193), 12);
    c := Md5Step(1, c, d, a, b, Add(X[14], 0xa679438e), 17);
    b := Md5Step(1, b, c, d, a, Add(X[15], 0x49b40821), 22);
  }

  method Round2(ghost r: Regs, X: seq<word>, m: Regs) returns (a: word, b: word, c: word, d: word)
    requires |X| == 16 && Steps(16, r, X) == m
    ensures Steps(32, r, X) == Regs(a, b, c, d)
  {
    hide Md5Step, Steps, Add, T;
    Row2();
    a, b, c, d := m.a, m.b, m.c, m.d;
    Quad(4, 2, r, X, Regs(a, b, c, d), Add(X[1], 0xf61e2562), Add(X[6], 0xc040b340), Add(X[11], 0x265e5a51),
         Add(X[0], 0xe9b6c7aa));
    a := Md5Step(2, a, b, c, d, Add(X[1], 0xf61e2562), 5);
    d := Md5Step(2, d, a, b, c, Add(X[6], 0xc040b340), 9);
    c := Md5Step(2, c, d, a, b, Add(X[11], 0x265e5a51), 14);
    b := Md5Step(2, b, c, d, a, Add(X[0], 0xe9b6c7aa), 20);
    Quad(5, 2, r, X, Regs(a, b, c, d), Add(X[5], 0xd62f105d), Add(X[10], 0x02441453), Add(X[15], 0xd8a1e681),
         Add(X[4], 0xe7d3fbc8));
    a := Md5Step(2, a, b, c, d, Add(X[5], 0xd62f105d), 5);
    d := Md5Step(2, d, a, b, c, Add(X[10], 0x02441453), 9);
    c := Md5Step(2, c, d, a, b, Add(X[15], 0xd8a1e681), 14);
    b := Md5Step(2, b, c, d, a, Add(X[4], 0xe7d3fbc8), 20);
    Quad(6, 2, r, X, Regs(a, b, c, d), Add(X[9], 0x21e1cde6), Add(X[14], 0xc33707d6), Add(X[3], 0xf4d50d87),
         Add(X[8], 0x455a14ed));
    a := Md5Step(2, a, b, c, d, Add(X[9], 0x21e1cde6), 5);
    d := Md5Step(2, d, a, b, c, Add(X[14], 0xc33707d6), 9);
    c := Md5Step(2, c, d, a, b, Add(X[3], 0xf4d50d87), 14);
    b := Md5Step(2, b, c, d, a, Add(X[8], 0x455a14ed), 20);
    Quad(7, 2, r, X, Regs(a, b, c, d), Add(X[13], 0xa9e3e905), Add(X[2], 0xfcefa3f8), Add(X[7], 0x676f02d9),
         Add(X[12], 0x8d2a4c8a));
    a := Md5Step(2, a, b, c, d, Add(X[13], 0xa9e3e905), 5);
    d := Md5Step(2, d, a, b, c, Add(X[2], 0xfcefa3f8), 9);
    c := Md5Step(2, c, d, a, b, Add(X[7], 0x676f02d9), 14);
    b := Md5Step(2, b, c, d, a, Add(X[12], 0x8d2a4c8a), 20);
  }

  method Round3(ghost r: Regs, X: seq<word>, m: Regs) returns (a: word, b: word, c: word, d: word)
    requires |X| == 16 && Steps(32, r, X) == m
    ensures Steps(48, r, X) == Regs(a, b, c, d)
  {
    hide Md5Step, Steps, Add, T;
    Row3();
    a, b, c, d := m.a, m.b, m.c, m.d;
    Quad(8, 3, r, X, Regs(a, b, c, d), Add(X[5], 0xfffa3942), Add(X[8], 0x8771f681), Add(X[11], 0x6d9d6122),
         Add(X[14], 0xfde5380c));
    a := Md5Step(3, a, b, c, d, Add(X[5], 0xfffa3942), 4);
    d := Md5Step(3, d, a, b, c, Add(X[8], 0x8771f681), 11);
    c := Md5Step(3, c, d, a, b, Add(X[11], 0x6d9d6122), 16);
    b := Md5Step(3, b, c, d, a, Add(X[14], 0xfde5380c), 23);
    Quad(9, 3, r, X, Regs(a, b, c, d), Add(X[1], 0xa4beea44), Add(X[4], 0x4bdecfa9), Add(X[7], 0xf6bb4b60),
         Add(X[10], 0xbebfbc70));
    a := Md5Step(3, a, b, c, d, Add(X[1], 0xa4beea44), 4);
    d := Md5Step(3, d, a, b, c, Add(X[4], 0x4bdecfa9), 11);
    c := Md5Step(3, c, d, a, b, Add(X[7], 0xf6bb4b60), 16);
    b := Md5Step(3, b, c, d, a, Add(X[10], 0xbebfbc70), 23);
    Quad(10, 3, r, X, Regs(a, b, c, d), Add(X[13], 0x289b7ec6), Add(X[0], 0xeaa127fa), Add(X[3], 0xd4ef3085),
         Add(X[6], 0x04881d05));
    a := Md5Step(3, a, b, c, d, Add(X[13], 0x289b7ec6), 4);
    d := Md5Step(3, d, a, b, c, Add(X[0], 0xeaa127fa), 11);
    c := Md5Step(3, c, d, a, b, Add(X[3], 0xd4ef3085), 16);
    b := Md5Step(3, b, c, d, a, Add(X[6], 0x04881d05), 23);
    Quad(11, 3, r, X, Regs(a, b, c, d), Add(X[9], 0xd9d4d039), Add(X[12], 0xe6db99e5), Add(X[15], 0x1fa27cf8),
         Add(X[2], 0xc4ac5665));
    a := Md5Step(3, a, b, c, d, Add(X[9], 0xd9d4d039), 4);
    d := Md5Step(3, d, a, b, c, Add(X[12], 0xe6db99e5), 11);
    c := Md5Step(3, c, d, a, b, Add(X[15], 0x1fa27cf8), 16);
    b := Md5Step(3, b, c, d, a, Add(X[2], 0xc4ac5665), 23);
  }

  method Round4(ghost r: Regs, X: seq<word>, m: Regs) returns (a: word, b: word, c: word, d: word)
    requires |X| == 16 && Steps(48, r, X) == m
    ensures Steps(64, r, X) == Regs(a, b, c, d)
  {
    hide Md5Step, Steps, Add, T;
    Row4();
    a, b, c, d := m.a, m.b, m.c, m.d;
    Quad(12, 4, r, X, Regs(a, b, c, d), Add(X[0], 0xf4292244), Add(X[7], 0x432aff97), Add(X[14], 0xab9423a7),
         Add(X[5], 0xfc93a039));
    a := Md5Step(4, a, b, c, d, Add(X[0], 0xf4292244), 6);
    d := Md5Step(4, d, a, b, c, Add(X[7], 0x432aff97), 10);
    c := Md5Step(4, c, d, a, b, Add(X[14], 0xab9423a7), 15);
    b := Md5Step(4, b, c, d, a, Add(X[5], 0xfc93a039), 21);
    Quad(13, 4, r, X, Regs(a, b, c, d), Add(X[12], 0x655b59c3), Add(X[3], 0x8f0ccc92), Add(X[10], 0xffeff47d),
         Add(X[1], 0x85845dd1));
    a := Md5Step(4, a, b, c, d, Add(X[12], 0x655b59c3), 6);
    d := Md5Step(4, d, a, b, c, Add(X[3], 0x8f0ccc92), 10);
    c := Md5Step(4, c, d, a, b, Add(X[10], 0xffeff47d), 15);
    b := Md5Step(4, b, c, d, a, Add(X[1], 0x85845dd1), 21);
    Quad(14, 4, r, X, Regs(a, b, c, d), Add(X[8], 0x6fa87e4f), Add(X[15], 0xfe2ce6e0), Add(X[6], 0xa3014314),
         Add(X[13], 0x4e0811a1));
    a := Md5Step(4, a, b, c, d, Add(X[8], 0x6fa87e4f), 6);
    d := Md5Step(4, d, a, b, c, Add(X[15], 0xfe2ce6e0), 10);
    c := Md5Step(4, c, d, a, b, Add(X[6], 0xa3014314), 15);
    b := Md5Step(4, b, c, d, a, Add(X[13], 0x4e0811a1), 21);
    Quad(15, 4, r, X, Regs(a, b, c, d), Add(X[4], 0xf7537e82), Add(X[11], 0xbd3af235), Add(X[2], 0x2ad7d2bb),
         Add(X[9], 0xeb86d391));
    a := Md5Step(4, a, b, c, d, Add(X[4], 0xf7537e82), 6);
    d := Md5Step(4, d, a, b, c, Add(X[11], 0xbd3af235), 10);
    c := Md5Step(4, c, d, a, b, Add(X[2], 0x2ad7d2bb), 15);
    b := Md5Step(4, b, c, d, a, Add(X[9], 0xeb86d391), 21);
  }

  ghost function RegsOf(buf: seq<word>): (r: Regs) {
    if |buf| == 4 then Regs(buf[0], buf[1], buf[2], buf[3]) else START
  }

  /** `MD5Transform`: sixty-four uses of the macro, then the sums. */
  method Md5Transform(buf: array<word>, X: seq<word>)
    requires buf.Length == 4 && |X| == 16
    modifies buf
    ensures RegsOf(buf[..]) == Compress(old(RegsOf(buf[..])), X)
  {
    hide Steps;
    ghost var r := RegsOf(buf[..]);
    StepsNone(r, X);
    var a, b, c, d := Round1(r, X, Regs(buf[0], buf[1], buf[2], buf[3]));
    a, b, c, d := Round2(r, X, Regs(a, b, c, d));
    a, b, c, d := Round3(r, X, Regs(a, b, c, d));
    a, b, c, d := Round4(r, X, Regs(a, b, c, d));
    buf[0] := Add(buf[0], a);
    buf[1] := Add(buf[1], b);
    buf[2] := Add(buf[2], c);
    buf[3] := Add(buf[3], d);
  }

  lemma StepsNone(r: Regs, X: seq<word>)
    requires |X| == 16
    ensures Steps(0, r, X) == r
  {
  }
}
