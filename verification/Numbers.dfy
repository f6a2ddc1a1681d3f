/** Numbers as dedupe/dedupe.c prints them (printf) and reads them back (atoi, dec_to_oct). */
module Numbers {

  function DigitChar(v: nat): (c: char)
    requires v < 10
  {
    "0123456789"[v]
  }

  predicate IsDigit(c: char) { '0' <= c <= '9' }

  /** `isspace` */
  predicate IsBlank(c: char) { c == ' ' || '\t' <= c <= '\r' }

  function DigitValue(c: char): (v: nat)
    ensures v < 10
  {
    if IsDigit(c) then c as int - '0' as int else 0
  }

  /** printf with %lu (base 10) or %o (base 8). */
  function Printed(n: nat, base: nat): (s: string)
    requires 2 <= base <= 10
    decreases n
  {
    if n < base then [DigitChar(n)] else Printed(n / base, base) + [DigitChar(n % base)]
  }

  /** The decimal value of a string of digits. */
  function Value(s: string): (v: nat) {
    if s == "" then 0 else 10 * Value(s[..|s| - 1]) + DigitValue(s[|s| - 1])
  }

  predicate AllDigits(s: string) { forall i :: 0 <= i < |s| ==> IsDigit(s[i]) }

  // ----- atoi -----

  /** The number of leading digits. */
  function DigitCount(s: string): (n: nat)
    ensures n <= |s| && (forall k :: 0 <= k < n ==> IsDigit(s[k])) && (n < |s| ==> !IsDigit(s[n]))
  {
    if s == "" || !IsDigit(s[0]) then 0
    else
      var n := 1 + DigitCount(s[1..]);
      assert forall i :: 1 <= i < n ==> s[i] == s[1..][i - 1];
      n
  }

  /** The number of leading blanks. */
  function BlankCount(s: string): (n: nat)
    ensures n <= |s|
  {
    if s == "" || !IsBlank(s[0]) then 0 else 1 + BlankCount(s[1..])
  }

  /** Where the digits of a number start: after blanks and at most one sign. */
  function DigitsFrom(s: string): (n: nat)
    ensures n <= |s|
  {
    var i := BlankCount(s);
    if i < |s| && (s[i] == '-' || s[i] == '+') then i + 1 else i
  }

  /** The number a string starts with, or 0. */
  function NumberOf(s: string): (v: int) {
    var d := DigitsFrom(s);
    var v: int := Value(s[d..][..DigitCount(s[d..])]);
    if d > 0 && s[d - 1] == '-' then -v else v
  }

  /** A string of digits is read as its value. */
  lemma DigitsNumber(s: string)
    requires AllDigits(s)
    ensures NumberOf(s) == Value(s)
  {
    assert BlankCount(s) == 0 && DigitsFrom(s) == 0;
    assert s[0..] == s && s[..DigitCount(s)] == s;
  }

  /** The digit loop of `atoi`. */
  method ReadDigits(s: string) returns (v: nat)
    ensures v == Value(s[..DigitCount(s)])
  {
    v := 0;
    var i := 0;
    while i < |s| && IsDigit(s[i])
      invariant 0 <= i <= |s| && v == Value(s[..i]) && forall k :: 0 <= k < i ==> IsDigit(s[k])
    {
      assert s[..i + 1][..i] == s[..i];
      v := 10 * v + DigitValue(s[i]);
      i := i + 1;
    }
    assert i == DigitCount(s);
  }

  /** `atoi` and `atol`, for numbers in range. */
  method Atoi(s: string) returns (v: int)
    ensures v == NumberOf(s)
  {
    hide Value, DigitCount;
    var i := 0;
    assert s[0..] == s;
    while i < |s| && IsBlank(s[i])
      invariant 0 <= i <= |s| && BlankCount(s) == i + BlankCount(s[i..])
    {
      assert s[i..][1..] == s[i + 1..];
      i := i + 1;
    }
    assert i == BlankCount(s);
    var negative := i < |s| && s[i] == '-';
    BlankBefore(s, i);
    if i < |s| && (s[i] == '-' || s[i] == '+') { i := i + 1; }
    v := ReadDigits(s[i..]);
    if negative { v := -v; }
  }

  lemma {:induction false} BlankBefore(s: string, i: nat)
    requires i <= BlankCount(s)
    ensures i > 0 ==> IsBlank(s[i - 1])
  {
    if i > 1 { BlankBefore(s[1..], i - 1); }
  }

  // ----- dec_to_oct -----

  /** The number whose octal digits are the decimal digits of n. */
  function Reread(n: nat): (v: nat) {
    if n == 0 then 0 else n % 10 + 8 * Reread(n / 10)
  }

  /** The remainder of a negative number is negative. */
  function Octal(n: int): (v: int) {
    var v: int := Reread(if n < 0 then -n else n);
    if n < 0 then -v else v
  }

  function Rem10(n: int): (r: int) { if n < 0 then -(-n % 10) else n % 10 }

  function Quot10(n: int): (q: int) { if n < 0 then -(-n / 10) else n / 10 }

  lemma OctalStep(n: int)
    requires n != 0
    ensures Octal(n) == Rem10(n) + 8 * Octal(Quot10(n))
  {
  }

  lemma Distribute(mult: int, r: int, q: int)
    ensures mult * (r + 8 * q) == r * mult + mult * 8 * q
  {
    assert mult * (r + 8 * q) == mult * r + mult * (8 * q);
  }

  /** `dec_to_oct` */
  method DecToOct(dec: int) returns (ret: int)
    ensures ret == Octal(dec)
  {
    hide Octal, Rem10;
    ret := 0;
    var mult, left := 1, dec;
    OctalZero();
    while left != 0
      invariant ret + mult * Octal(left) == Octal(dec)
      decreases if left < 0 then -left else left
    {
      OctalStep(left);
      Distribute(mult, Rem10(left), Octal(Quot10(left)));
      ret, mult, left := ret + Rem10(left) * mult, mult * 8, Quot10(left);
    }
  }

  lemma OctalZero()
    ensures Octal(0) == 0
  {
  }

  // ----- printed and read back -----

  lemma DigitBack(v: nat)
    requires v < 10
    ensures IsDigit(DigitChar(v)) && DigitValue(DigitChar(v)) == v
  {
  }

  /** Printing a number appends its last digit to the others. */
  lemma LastDigit(n: nat, base: nat)
    requires 2 <= base <= 10
    ensures n < base ==> Value(Printed(n, base)) == n && AllDigits(Printed(n, base))
    ensures n >= base ==> Value(Printed(n, base)) == 10 * Value(Printed(n / base, base)) + n % base
    ensures n >= base && AllDigits(Printed(n / base, base)) ==> AllDigits(Printed(n, base))
  {
    hide DigitChar, DigitValue, IsDigit;
    if n < base {
      DigitBack(n);
      assert Printed(n, base)[..0] == "";
    } else {
      DigitBack(n % base);
      var p := Printed(n / base, base);
      assert Printed(n, base)[..|p|] == p;
    }
  }

  /** A number printed in decimal is read back. */
  lemma PrintedDecimal(n: nat)
    ensures AllDigits(Printed(n, 10)) && NumberOf(Printed(n, 10)) == n
  {
    hide NumberOf;
    PrintedValue(n);
    DigitsNumber(Printed(n, 10));
  }

  lemma {:induction false} PrintedValue(n: nat)
    ensures AllDigits(Printed(n, 10)) && Value(Printed(n, 10)) == n
  {
    hide AllDigits, Value, Printed;
    LastDigit(n, 10);
    if n >= 10 { PrintedValue(n / 10); }
  }

  /** A mode printed in octal, read as decimal and converted is the same mode. */
  lemma PrintedOctal(n: nat)
    ensures AllDigits(Printed(n, 8)) && NumberOf(Printed(n, 8)) >= 0 && Octal(NumberOf(Printed(n, 8))) == n
  {
    hide NumberOf, Reread;
    PrintedReread(n);
    DigitsNumber(Printed(n, 8));
  }

  lemma {:induction false} PrintedReread(n: nat)
    ensures AllDigits(Printed(n, 8)) && Reread(Value(Printed(n, 8))) == n
  {
    hide AllDigits, Value, Printed;
    LastDigit(n, 8);
    if n >= 8 { PrintedReread(n / 8); }
    RereadDigit(n / 8, n % 8, Value(Printed(n, 8)), Value(Printed(n / 8, 8)));
  }

  lemma RereadDigit(q: nat, r: nat, v: nat, w: nat)
    requires r < 8 && (q == 0 ==> v == r) && (q > 0 ==> v == 10 * w + r && Reread(w) == q)
    ensures Reread(v) == 8 * q + r
  {
    if q == 0 {
      assert v / 10 == 0 && v % 10 == r;
    } else {
      assert v / 10 == w && v % 10 == r;
    }
  }

  function Power(base: nat, k: nat): (p: nat) {
    if k == 0 then 1 else base * Power(base, k - 1)
  }

  /** A number below base^k has at most k digits. */
  lemma {:induction false} PrintedLength(n: nat, base: nat, k: nat)
    requires 2 <= base <= 10 && k > 0 && n < Power(base, k)
    ensures |Printed(n, base)| <= k
  {
    hide Power;
    if n >= base {
      PowerStep(base, k);
      assert k > 1 by { PowerStep(base, 0); }
      QuotientBelow(n, base, Power(base, k - 1));
      PrintedLength(n / base, base, k - 1);
    }
  }

  lemma PowerStep(base: nat, k: nat)
    ensures Power(base, 0) == 1 && (k > 0 ==> Power(base, k) == base * Power(base, k - 1))
  {
  }

  lemma QuotientBelow(n: nat, base: nat, p: nat)
    requires base > 0 && n < base * p
    ensures n / base < p
  {
    assert base * (n / base) <= n;
    assert base * (n / base - p) < 0;
  }

  /** The number of digits of octal modes, of int and of long numbers. */
  lemma FewDigits(n: nat)
    ensures n < 0x1000 ==> |Printed(n, 8)| <= 4
    ensures n <= 0x7fff_ffff_ffff_ffff ==> |Printed(n, 10)| <= 19
  {
    if n < 0x1000 {
      assert Power(8, 4) == 0x1000 by { assert Power(8, 2) == 64; }
      PrintedLength(n, 8, 4);
    }
    if n <= 0x7fff_ffff_ffff_ffff {
      TenToNineteen();
      PrintedLength(n, 10, 19);
    }
  }

  lemma TenToNineteen()
    ensures Power(10, 19) == 10_000_000_000_000_000_000
  {
    assert Power(10, 4) == 10_000;
    assert Power(10, 8) == 100_000_000;
    assert Power(10, 12) == 1_000_000_000_000;
    assert Power(10, 16) == 10_000_000_000_000_000;
  }

  // ----- bits -----

  function Pow2(k: nat): (p: nat)
    ensures p > 0
  {
    if k == 0 then 1 else 2 * Pow2(k - 1)
  }

  function Bit(n: nat, k: nat): (b: nat) {
    n / Pow2(k) % 2
  }

  lemma PowersOfTwo()
    ensures Pow2(9) == 0x200 && Pow2(10) == 0x400 && Pow2(11) == 0x800
  {
    assert Pow2(3) == 8 && Pow2(6) == 0x40;
  }

  /** Bit k of a number is bit 0 after k halvings. */
  function Halved(n: nat, k: nat): (h: nat)
    decreases k
  {
    if k == 0 then n else Halved(n / 2, k - 1)
  }

  lemma {:induction false} BitHalved(n: nat, k: nat)
    ensures n / Pow2(k) == Halved(n, k)
    decreases k
  {
    if k > 0 {
      BitHalved(n / 2, k - 1);
      Halves(n, Pow2(k - 1));
    }
  }

  /** Dividing by 2 * p is halving and dividing by p, and halving the remainder. */
  lemma Halves(n: nat, p: nat)
    requires p > 0
    ensures n / (2 * p) == n / 2 / p && n % (2 * p) / 2 == n / 2 % p && n % (2 * p) % 2 == n % 2
  {
    var q, r := n / (2 * p), n % (2 * p);
    assert n == 2 * p * q + r;
    assert 2 * p * q == 2 * (p * q);
    assert n / 2 == p * q + r / 2;
    Quotient(n / 2, p, q, r / 2);
  }

  lemma Quotient(n: nat, p: nat, q: nat, r: nat)
    requires p > 0 && n == p * q + r && r < p
    ensures n / p == q && n % p == r
  {
    assert p * (n / p - q) == r - n % p;
    assert n / p - q == 0 by { NoMultiple(p, n / p - q, r - n % p); }
  }

  lemma NoMultiple(p: int, x: int, y: int)
    requires p > 0 && p * x == y && -p < y < p
    ensures x == 0
  {
    if x != 0 { AtLeast(p, if x > 0 then x else -x); }
  }

  lemma AtLeast(p: int, x: int)
    requires p > 0 && x >= 1
    ensures p * x >= p
  {
  }

  /** Numbers that agree modulo 0x200 have the same nine low bits. */
  lemma LowBits(a: nat, b: nat, k: nat)
    requires k < 9 && a % 0x200 == b % 0x200
    ensures Bit(a, k) == Bit(b, k)
  {
    PowersOfTwo();
    BitHalved(a, k);
    BitHalved(b, k);
    SameHalves(a, b, 9, k);
  }

  lemma {:induction false} SameHalves(a: nat, b: nat, j: nat, k: nat)
    requires k < j && a % Pow2(j) == b % Pow2(j)
    ensures Halved(a, k) % 2 == Halved(b, k) % 2
    decreases k
  {
    Halves(a, Pow2(j - 1));
    Halves(b, Pow2(j - 1));
    if k > 0 { SameHalves(a / 2, b / 2, j - 1, k - 1); }
  }
}
