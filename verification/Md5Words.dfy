/** The operations of MD5 on numbers are those of a machine on 32-bit words. */
module Md5Words {
  import opened Md5
  import Numbers

  // ----- four bits -----

  function Num(v: bv4): (n: int) { v as int }

  // The operations of the machine have names here, so that a proof about numbers can leave their bits out of sight.

  function Half4(v: bv4): (r: bv4) { v >> 1 }

  function And4(v: bv4, w: bv4): (r: bv4) { v & w }

  function Or4(v: bv4, w: bv4): (r: bv4) { v | w }

  function Xor4(v: bv4, w: bv4): (r: bv4) { v ^ w }

  lemma NumRange(v: bv4)
    ensures 0 <= Num(v) < 16
  {
  }

  lemma HalveNum(v: bv4)
    ensures Num(v) == 2 * Num(v >> 1) + Num(v & 1)
    ensures Num(v & 1) == if v & 1 == 1 then 1 else 0
  {
  }

  lemma ShiftNum(b: bv4, c: bv4)
    ensures Num((b >> 1) | (c << 3)) == Num(b >> 1) + 8 * Num(c & 1)
  {
  }

  lemma HalfIs(v: bv4)
    ensures Num(v) / 2 == Num(Half4(v)) && (Num(v) % 2 == 1 <==> v & 1 == 1)
  {
    hide Num;
    HalveNum(v);
  }

  lemma HalfAnd(v: bv4, w: bv4)
    ensures Num(And4(v, w)) == 2 * Num(And4(Half4(v), Half4(w))) + (if v & 1 == 1 && w & 1 == 1 then 1 else 0)
  {
    hide Num;
    HalveNum(v & w);
    assert (v & w) >> 1 == (v >> 1) & (w >> 1);
    assert ((v & w) & 1 == 1) == (v & 1 == 1 && w & 1 == 1);
  }

  lemma HalfOr(v: bv4, w: bv4)
    ensures Num(Or4(v, w)) == 2 * Num(Or4(Half4(v), Half4(w))) + (if v & 1 == 1 || w & 1 == 1 then 1 else 0)
  {
    hide Num;
    HalveNum(v | w);
    assert (v | w) >> 1 == (v >> 1) | (w >> 1);
    assert ((v | w) & 1 == 1) == (v & 1 == 1 || w & 1 == 1);
  }

  lemma HalfXor(v: bv4, w: bv4)
    ensures Num(Xor4(v, w)) == 2 * Num(Xor4(Half4(v), Half4(w))) + (if (v & 1 == 1) != (w & 1 == 1) then 1 else 0)
  {
    hide Num;
    HalveNum(v ^ w);
    assert (v ^ w) >> 1 == (v >> 1) ^ (w >> 1);
    assert ((v ^ w) & 1 == 1) == ((v & 1 == 1) != (w & 1 == 1));
  }

  /** The operations on n bits are those of the machine. */
  lemma {:induction false} NumBits(v: bv4, w: bv4, n: nat)
    requires Num(v) < Pow2(n) && Num(w) < Pow2(n)
    ensures BitAnd(Num(v), Num(w), n) == Num(And4(v, w))
    ensures BitOr(Num(v), Num(w), n) == Num(Or4(v, w))
    ensures BitXor(Num(v), Num(w), n) == Num(Xor4(v, w))
    decreases n
  {
    hide Num, Half4, And4, Or4, Xor4, BitAnd, BitOr, BitXor;
    NumRange(v);
    NumRange(w);
    if n == 0 {
      NumZero(v, w);
      NoBits(Num(v), Num(w));
    } else {
      HalfIs(v);
      HalfIs(w);
      HalfAnd(v, w);
      HalfOr(v, w);
      HalfXor(v, w);
      NumBits(Half4(v), Half4(w), n - 1);
      OneBit(Num(v), Num(w), n);
    }
  }

  lemma NoBits(x: int, y: int)
    ensures BitAnd(x, y, 0) == 0 && BitOr(x, y, 0) == 0 && BitXor(x, y, 0) == 0 && BitNot(x, 0) == 0
  {
  }

  lemma OneBit(x: int, y: int, n: nat)
    requires n > 0
    ensures BitAnd(x, y, n) == 2 * BitAnd(x / 2, y / 2, n - 1) + (if x % 2 == 1 && y % 2 == 1 then 1 else 0)
    ensures BitOr(x, y, n) == 2 * BitOr(x / 2, y / 2, n - 1) + (if x % 2 == 1 || y % 2 == 1 then 1 else 0)
    ensures BitXor(x, y, n) == 2 * BitXor(x / 2, y / 2, n - 1) + (if (x % 2 == 1) != (y % 2 == 1) then 1 else 0)
    ensures BitNot(x, n) == 2 * BitNot(x / 2, n - 1) + (if x % 2 == 1 then 0 else 1)
  {
  }

  lemma NumZero(v: bv4, w: bv4)
    requires Num(v) == 0 && Num(w) == 0
    ensures Num(And4(v, w)) == 0 && Num(Or4(v, w)) == 0 && Num(Xor4(v, w)) == 0
  {
    assert v == 0 && w == 0;
  }

  /** Bits k on are combined apart from the k bits below. */
  lemma {:induction false} JoinBits(a: int, b: int, c: int, d: int, k: nat, n: nat)
    requires 0 <= a < Pow2(k) && 0 <= c < Pow2(k)
    ensures BitAnd(a + Pow2(k) * b, c + Pow2(k) * d, k + n) == BitAnd(a, c, k) + Pow2(k) * BitAnd(b, d, n)
    ensures BitOr(a + Pow2(k) * b, c + Pow2(k) * d, k + n) == BitOr(a, c, k) + Pow2(k) * BitOr(b, d, n)
    ensures BitXor(a + Pow2(k) * b, c + Pow2(k) * d, k + n) == BitXor(a, c, k) + Pow2(k) * BitXor(b, d, n)
    ensures BitNot(a + Pow2(k) * b, k + n) == BitNot(a, k) + Pow2(k) * BitNot(b, n)
    decreases k
  {
    hide BitAnd, BitOr, BitXor, BitNot;
    if k == 0 {
      NoBits(a, c);
    } else {
      var p, x, y := Pow2(k - 1), a + Pow2(k) * b, c + Pow2(k) * d;
      HalfSum(a, b, p);
      HalfSum(c, d, p);
      JoinBits(a / 2, b, c / 2, d, k - 1, n);
      OneBit(a, c, k);
      OneBit(x, y, k + n);
      Doubled(p, BitAnd(b, d, n));
      Doubled(p, BitOr(b, d, n));
      Doubled(p, BitXor(b, d, n));
      Doubled(p, BitNot(b, n));
    }
  }

  lemma HalfSum(a: int, b: int, p: int)
    ensures (a + 2 * p * b) / 2 == a / 2 + p * b && (a + 2 * p * b) % 2 == a % 2
  {
    assert 2 * p * b == 2 * (p * b);
  }

  lemma Doubled(p: int, x: int)
    ensures 2 * p * x == 2 * (p * x)
  {
  }

  // ----- words -----

  /** The lowest hexadecimal digit, and the others. */
  function Low(v: bv32): (r: bv4) { (v & 0xf) as bv4 }

  function Up(v: bv32): (r: bv32) { v >> 4 }

  /** The number of the n lowest digits of v. */
  function Digits(v: bv32, n: nat): (x: int)
    decreases n
  {
    if n == 0 then 0 else Num(Low(v)) + 16 * Digits(Up(v), n - 1)
  }

  lemma {:induction false} DigitsRange(v: bv32, n: nat)
    ensures 0 <= Digits(v, n) < Pow2(4 * n)
    decreases n
  {
    hide Num, Low, Up;
    if n > 0 {
      NumRange(Low(v));
      DigitsRange(Up(v), n - 1);
      PowFour(4 * (n - 1));
    }
  }

  lemma PowFour(k: nat)
    ensures Pow2(4 + k) == 16 * Pow2(k)
  {
    assert Pow2(2 + k) == 4 * Pow2(k);
  }

  /** The number that a machine word stands for. */
  function Val(v: bv32): (x: word) {
    DigitsRange(v, 8);
    Pow2Of32();
    Digits(v, 8)
  }

  lemma Shifted(v: bv32)
    ensures Up(v) == v >> 4 && Up(v >> 4) == v >> 8 && Up(v >> 8) == v >> 12 && Up(v >> 12) == v >> 16
    ensures Up(v >> 16) == v >> 20 && Up(v >> 20) == v >> 24 && Up(v >> 24) == v >> 28
  {
  }

  /** The number of the eight digits. */
  function Hex(v: bv32): (x: int) {
    (((v & 0xf) as bv4) as int) + 0x10 * ((((v >> 4) & 0xf) as bv4) as int) + 0x100 * ((((v >> 8) & 0xf) as bv4) as int)
    + 0x1000 * ((((v >> 12) & 0xf) as bv4) as int) + 0x1_0000 * ((((v >> 16) & 0xf) as bv4) as int)
    + 0x10_0000 * ((((v >> 20) & 0xf) as bv4) as int) + 0x100_0000 * ((((v >> 24) & 0xf) as bv4) as int)
    + 0x1000_0000 * ((((v >> 28) & 0xf) as bv4) as int)
  }

  lemma HexDigits(v: bv32)
    ensures Hex(v) == Num(Low(v)) + 16 * (Num(Low(v >> 4)) + 16 * (Num(Low(v >> 8)) + 16 * (Num(Low(v >> 12))
                      + 16 * (Num(Low(v >> 16)) + 16 * (Num(Low(v >> 20)) + 16 * (Num(Low(v >> 24))
                      + 16 * Num(Low(v >> 28))))))))
  {
  }

  lemma Spelled(v: bv32)
    ensures Val(v) == Hex(v)
  {
    hide Num, Low, Up, Hex;
    HexDigits(v);
    Shifted(v);
    assert Digits(v, 8) == Num(Low(v)) + 16 * Digits(v >> 4, 7);
    assert Digits(v >> 4, 7) == Num(Low(v >> 4)) + 16 * Digits(v >> 8, 6);
    assert Digits(v >> 8, 6) == Num(Low(v >> 8)) + 16 * Digits(v >> 12, 5);
    assert Digits(v >> 12, 5) == Num(Low(v >> 12)) + 16 * Digits(v >> 16, 4);
    assert Digits(v >> 16, 4) == Num(Low(v >> 16)) + 16 * Digits(v >> 20, 3);
    assert Digits(v >> 20, 3) == Num(Low(v >> 20)) + 16 * Digits(v >> 24, 2);
    assert Digits(v >> 24, 2) == Num(Low(v >> 24)) + 16 * Digits(v >> 28, 1);
  }

  // bit by bit

  function And32(v: bv32, w: bv32): (r: bv32) { v & w }

  function Or32(v: bv32, w: bv32): (r: bv32) { v | w }

  function Xor32(v: bv32, w: bv32): (r: bv32) { v ^ w }

  lemma {:induction false} DigitsAnd(v: bv32, w: bv32, n: nat)
    ensures BitAnd(Digits(v, n), Digits(w, n), 4 * n) == Digits(And32(v, w), n)
    decreases n
  {
    hide Num, Low, Up, And4, Or4, Xor4, And32, BitAnd, BitOr, BitXor;
    if n == 0 {
      NoBits(0, 0);
    } else {
      DigitsAnd(Up(v), Up(w), n - 1);
      FourBits(Low(v), Low(w), Digits(Up(v), n - 1), Digits(Up(w), n - 1), 4 * (n - 1));
      LowAnd(v, w);
    }
  }

  lemma LowAnd(v: bv32, w: bv32)
    ensures Low(And32(v, w)) == And4(Low(v), Low(w)) && Up(And32(v, w)) == And32(Up(v), Up(w))
  {
  }

  lemma {:induction false} DigitsOr(v: bv32, w: bv32, n: nat)
    ensures BitOr(Digits(v, n), Digits(w, n), 4 * n) == Digits(Or32(v, w), n)
    decreases n
  {
    hide Num, Low, Up, And4, Or4, Xor4, Or32, BitAnd, BitOr, BitXor;
    if n == 0 {
      NoBits(0, 0);
    } else {
      DigitsOr(Up(v), Up(w), n - 1);
      FourBits(Low(v), Low(w), Digits(Up(v), n - 1), Digits(Up(w), n - 1), 4 * (n - 1));
      LowOr(v, w);
    }
  }

  lemma LowOr(v: bv32, w: bv32)
    ensures Low(Or32(v, w)) == Or4(Low(v), Low(w)) && Up(Or32(v, w)) == Or32(Up(v), Up(w))
  {
  }

  lemma {:induction false} DigitsXor(v: bv32, w: bv32, n: nat)
    ensures BitXor(Digits(v, n), Digits(w, n), 4 * n) == Digits(Xor32(v, w), n)
    decreases n
  {
    hide Num, Low, Up, And4, Or4, Xor4, Xor32, BitAnd, BitOr, BitXor;
    if n == 0 {
      NoBits(0, 0);
    } else {
      DigitsXor(Up(v), Up(w), n - 1);
      FourBits(Low(v), Low(w), Digits(Up(v), n - 1), Digits(Up(w), n - 1), 4 * (n - 1));
      LowXor(v, w);
    }
  }

  lemma LowXor(v: bv32, w: bv32)
    ensures Low(Xor32(v, w)) == Xor4(Low(v), Low(w)) && Up(Xor32(v, w)) == Xor32(Up(v), Up(w))
  {
  }

  lemma FourBits(v: bv4, w: bv4, b: int, d: int, n: nat)
    ensures BitAnd(Num(v) + 16 * b, Num(w) + 16 * d, 4 + n) == Num(And4(v, w)) + 16 * BitAnd(b, d, n)
    ensures BitOr(Num(v) + 16 * b, Num(w) + 16 * d, 4 + n) == Num(Or4(v, w)) + 16 * BitOr(b, d, n)
    ensures BitXor(Num(v) + 16 * b, Num(w) + 16 * d, 4 + n) == Num(Xor4(v, w)) + 16 * BitXor(b, d, n)
  {
    hide Num, And4, Or4, Xor4, BitAnd, BitOr, BitXor, BitNot;
    assert Pow2(4) == 16;
    NumRange(v);
    NumRange(w);
    NumBits(v, w, 4);
    JoinBits(Num(v), b, Num(w), d, 4, n);
  }

  lemma {:induction false} NotBits(x: int, n: nat)
    ensures BitNot(x, n) == BitXor(x, Pow2(n) - 1, n)
    decreases n
  {
    if n > 0 {
      assert (Pow2(n) - 1) / 2 == Pow2(n - 1) - 1 && (Pow2(n) - 1) % 2 == 1;
      NotBits(x / 2, n - 1);
    }
  }

  lemma AllOnes()
    ensures Val(0xffff_ffff) == TWO32 - 1
  {
  }

  lemma WordAnd(v: bv32, w: bv32)
    ensures And(Val(v), Val(w)) == Val(And32(v, w))
  {
    hide Digits, BitAnd, Pow2;
    DigitsAnd(v, w, 8);
  }

  lemma WordOr(v: bv32, w: bv32)
    ensures Or(Val(v), Val(w)) == Val(Or32(v, w))
  {
    hide Digits, BitOr, Pow2;
    DigitsOr(v, w, 8);
  }

  lemma WordXor(v: bv32, w: bv32)
    ensures Xor(Val(v), Val(w)) == Val(Xor32(v, w))
  {
    hide Digits, BitXor, Pow2;
    DigitsXor(v, w, 8);
  }

  function Not32(v: bv32): (r: bv32) { !v }

  lemma WordNot(v: bv32)
    ensures Not(Val(v)) == Val(Not32(v))
  {
    hide Digits, BitXor, BitNot, Pow2, Val;
    NotBits(Val(v), 32);
    Pow2Of32();
    AllOnes();
    WordXor(v, 0xffff_ffff);
    assert Xor32(v, 0xffff_ffff) == Not32(v);
  }

  // sums

  function Sum32(v: bv32, w: bv32): (r: bv32) { v + w }

  /** The machine adds v and w as it should. */
  predicate Exact(v: bv32, w: bv32) {
    var sum := Hex(v) + Hex(w);
    sum == Hex(Sum32(v, w)) || sum == Hex(Sum32(v, w)) + TWO32
  }

  lemma WordSum(v: bv32, w: bv32)
    requires Exact(v, w)
    ensures Add(Val(v), Val(w)) == Val(Sum32(v, w))
  {
    hide Val, Hex, Sum32;
    Spelled(v);
    Spelled(w);
    Spelled(Sum32(v, w));
  }

  // shifts

  function Half(v: bv32): (r: bv32) { v >> 1 }

  predicate Short(v: bv32, n: nat)
    decreases n
  {
    if n == 0 then v == 0 else Short(Up(v), n - 1)
  }

  lemma HalfLow(v: bv32)
    ensures Low(Half(v)) == (Low(v) >> 1) | (Low(Up(v)) << 3) && Up(Half(v)) == Half(Up(v))
  {
  }

  lemma {:induction false} HalfDigits(v: bv32, n: nat)
    requires Short(v, n)
    ensures Digits(v, n) == 2 * Digits(Half(v), n) + Num(Low(v) & 1)
    decreases n
  {
    hide Num, Low, Up, Half;
    if n == 0 {
      ZeroBit();
    } else {
      HalfDigits(Up(v), n - 1);
      HalfLow(v);
      HalveNum(Low(v));
      ShiftNum(Low(v), Low(Up(v)));
    }
  }

  lemma ZeroBit()
    ensures Num(Low(0) & 1) == 0
  {
  }

  lemma AllShort(v: bv32)
    ensures Short(v, 8)
  {
    var w := Up(Up(Up(Up(v))));
    assert Up(Up(Up(Up(w)))) == 0;
    assert Short(w, 4);
  }

  lemma WordHalf(v: bv32)
    ensures Val(v) / 2 == Val(Half(v))
  {
    hide Digits, Num, Low, Up, Short, Half;
    AllShort(v);
    HalfDigits(v, 8);
    BitNum(Low(v));
  }

  lemma BitNum(v: bv4)
    ensures 0 <= Num(v & 1) <= 1
  {
  }

  function Twice(v: bv32): (r: bv32) { v << 1 }

  function Shl(v: bv32, s: nat): (r: bv32)
    decreases s
  {
    if s == 0 then v else Shl(Twice(v), s - 1)
  }

  function Shr(v: bv32, s: nat): (r: bv32)
    decreases s
  {
    if s == 0 then v else Shr(Half(v), s - 1)
  }

  lemma {:induction false} WordShifts(v: bv32, s: nat)
    ensures ShiftLeft(Val(v), s) == Val(Shl(v, s)) && ShiftRight(Val(v), s) == Val(Shr(v, s))
    decreases s
  {
    hide Val, Half, Twice;
    if s > 0 {
      WordTwice(v);
      WordShifts(Twice(v), s - 1);
      WordHalf(v);
      WordShifts(Half(v), s - 1);
    }
  }

  /** Half of twice v is v without its highest bit. */
  lemma TwiceHalf(v: bv32)
    ensures Half(Twice(v)) == And32(v, 0x7fff_ffff) && Low(Twice(v)) & 1 == 0
  {
  }

  lemma {:induction false} LowBits(x: nat, n: nat, k: nat)
    requires k <= n
    ensures BitAnd(x, Pow2(k) - 1, n) == x % Pow2(k)
    decreases n
  {
    if k == 0 {
      NoneSet(x, n);
    } else {
      assert (Pow2(k) - 1) / 2 == Pow2(k - 1) - 1 && (Pow2(k) - 1) % 2 == 1;
      LowBits(x / 2, n - 1, k - 1);
      ModTwice(x, Pow2(k - 1));
    }
  }

  lemma {:induction false} NoneSet(x: int, n: nat)
    ensures BitAnd(x, 0, n) == 0
    decreases n
  {
    if n > 0 { NoneSet(x / 2, n - 1); }
  }

  lemma ModTwice(x: nat, p: nat)
    requires p > 0
    ensures x % (2 * p) == 2 * (x / 2 % p) + x % 2
  {
    var q := x / 2 / p;
    assert x / 2 == p * q + x / 2 % p;
    assert x == 2 * (x / 2) + x % 2;
    assert x == 2 * p * q + (2 * (x / 2 % p) + x % 2) by { assert 2 * (p * q) == 2 * p * q; }
    Numbers.Quotient(x, 2 * p, q, 2 * (x / 2 % p) + x % 2);
  }

  lemma WordTwice(v: bv32)
    ensures 2 * Val(v) % TWO32 == Val(Twice(v))
  {
    hide Val, Half, Twice, And32;
    TwiceParts(v);
    TopCleared(v);
    ModTwice(2 * Val(v), 0x8000_0000);
  }

  lemma TwiceParts(v: bv32)
    ensures Val(Twice(v)) == 2 * Val(And32(v, 0x7fff_ffff))
  {
    hide Digits, Num, Low, Up, Short, Half, Twice, And32;
    TwiceHalf(v);
    AllShort(Twice(v));
    HalfDigits(Twice(v), 8);
    ZeroNum();
  }

  lemma TopCleared(v: bv32)
    ensures Val(And32(v, 0x7fff_ffff)) == Val(v) % 0x8000_0000
  {
    hide Val, And32, BitAnd, Pow2;
    WordAnd(v, 0x7fff_ffff);
    TopMask();
    LowBits(Val(v), 32, 31);
  }

  lemma ZeroNum()
    ensures Num(0) == 0
  {
  }

  lemma TopMask()
    ensures Pow2(31) == 0x8000_0000 && Val(0x7fff_ffff) == 0x7fff_ffff
  {
    hide Val;
    Spelled(0x7fff_ffff);
    Pow2Of32();
    assert Pow2(32) == 2 * Pow2(31);
  }

  function Left(v: bv32, s: bv6): (r: bv32)
    requires s <= 32
  {
    v << s
  }

  function Right(v: bv32, s: bv6): (r: bv32)
    requires s <= 32
  {
    v >> s
  }

  lemma LeftStep(v: bv32, s: bv6)
    requires s <= 32
    ensures if s == 0 then Left(v, s) == v else Left(v, s) == Left(Twice(v), s - 1)
  {
  }

  lemma RightStep(v: bv32, s: bv6)
    requires s <= 32
    ensures if s == 0 then Right(v, s) == v else Right(v, s) == Right(Half(v), s - 1)
  {
  }

  lemma Less(s: bv6, n: nat)
    requires s as int == n
    ensures s == 0 <==> n == 0
    ensures s > 0 ==> (s - 1) as int == n - 1
    ensures s <= 32 ==> n <= 32 && (32 - s) as int == 32 - n
  {
  }

  lemma {:induction false} LeftIs(v: bv32, s: bv6, n: nat)
    requires s <= 32 && s as int == n
    ensures Shl(v, n) == Left(v, s)
    decreases n
  {
    hide Left, Twice;
    Less(s, n);
    LeftStep(v, s);
    if n > 0 { LeftIs(Twice(v), s - 1, n - 1); }
  }

  lemma {:induction false} RightIs(v: bv32, s: bv6, n: nat)
    requires s <= 32 && s as int == n
    ensures Shr(v, n) == Right(v, s)
    decreases n
  {
    hide Right, Half;
    Less(s, n);
    RightStep(v, s);
    if n > 0 { RightIs(Half(v), s - 1, n - 1); }
  }

  /** A circular shift to the left. */
  function Turn(v: bv32, s: bv6): (r: bv32)
    requires s <= 32
  {
    Or32(Left(v, s), Right(v, 32 - s))
  }

  lemma WordTurn(v: bv32, s: bv6, n: nat)
    requires s <= 32 && s as int == n
    ensures n <= 32 && Rotate(Val(v), n) == Val(Turn(v, s))
  {
    hide Val, Or, Or32, Shl, Shr, ShiftLeft, ShiftRight, Left, Right;
    Less(s, n);
    WordShifts(v, n);
    WordShifts(v, 32 - n);
    LeftIs(v, s, n);
    RightIs(v, 32 - s, 32 - n);
    WordOr(Left(v, s), Right(v, 32 - s));
  }
}
