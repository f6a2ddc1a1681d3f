/** The 8-byte signed numbers of a bsdiff patch (`offtout` in applypatch/bsdiff.c, `offtin` in
    applypatch/bspatch.c): seven and a half bytes of magnitude, least significant first, and a sign bit. */
module Offsets {
  import opened Suffixes

  /** 256 to the power n. */
  function Pow256(n: nat): (p: int)
    ensures p >= 1
  {
    if n == 0 then 1 else 256 * Pow256(n - 1)
  }

  /** The n low bytes of y, least significant first. */
  function LittleEndian(y: nat, n: nat): (b: bytes)
    ensures |b| == n
  {
    if n == 0 then [] else [y % 256] + LittleEndian(y / 256, n - 1)
  }

  function Magnitude(b: bytes): (y: nat)
    ensures y < Pow256(|b|)
  {
    if b == [] then 0 else b[0] + 256 * Magnitude(b[1..])
  }

  lemma {:induction false} LittleEndianMagnitude(y: nat, n: nat)
    requires y < Pow256(n)
    ensures Magnitude(LittleEndian(y, n)) == y
    decreases n
  {
    if n > 0 {
      LittleEndianMagnitude(y / 256, n - 1);
      assert LittleEndian(y, n)[1..] == LittleEndian(y / 256, n - 1);
    }
  }

  lemma {:induction false} MagnitudeLittleEndian(b: bytes)
    ensures LittleEndian(Magnitude(b), |b|) == b
    decreases |b|
  {
    if b != [] {
      MagnitudeLittleEndian(b[1..]);
      assert b == [b[0]] + b[1..];
    }
  }

  const SIGN: int := 128

  function Abs(x: int): nat { if x < 0 then -x else x }

  /** `offtout`: the low 8 bytes of |x|, with the top bit set for a negative x. */
  function Offtout(x: int): (b: bytes)
    ensures |b| == 8
  {
    var b := LittleEndian(Abs(x), 8);
    if x < 0 && b[7] < SIGN then b[7 := b[7] + SIGN] else b
  }

  /** `offtin` */
  function Offtin(b: bytes): (x: int)
    requires |b| == 8
  {
    var y: int := Magnitude(b[7 := b[7] % SIGN]);
    if b[7] >= SIGN then -y else y
  }

  function Base256(a: int, b: int, c: int, d: int, e: int, f: int, g: int, h: int): (y: int) {
    a + 0x100 * b + 0x1_0000 * c + 0x100_0000 * d
    + 0x1_0000_0000 * e + 0x100_0000_0000 * f + 0x1_0000_0000_0000 * g + 0x100_0000_0000_0000 * h
  }

  /** The bytes are digits to the base 256, least significant first; the top bit of the last one is the sign. */
  lemma OfftinDigits(b: bytes)
    requires |b| == 8
    ensures var y := Base256(b[0], b[1], b[2], b[3], b[4], b[5], b[6], b[7] % 128);
            Offtin(b) == if b[7] < 128 then y else -y
  {
    var m := b[7 := b[7] % SIGN];
    MagnitudeDigits(m);
  }

  lemma MagnitudeDigits(m: bytes)
    requires |m| == 8
    ensures Magnitude(m) == Base256(m[0], m[1], m[2], m[3], m[4], m[5], m[6], m[7])
  {
    hide Magnitude;
    MagnitudeFour(m, 0);
    MagnitudeFour(m, 4);
    assert m[8..] == [] && m[0..] == m;
  }

  /** Four bytes, and what comes after them. */
  lemma MagnitudeFour(m: bytes, k: nat)
    requires k + 4 <= |m|
    ensures Magnitude(m[k..])
            == Base256(m[k], m[k + 1], m[k + 2], m[k + 3], 0, 0, 0, 0) + 0x1_0000_0000 * Magnitude(m[k + 4..])
  {
    hide Magnitude;
    MagnitudeStep(m, k);
    MagnitudeStep(m, k + 1);
    MagnitudeStep(m, k + 2);
    MagnitudeStep(m, k + 3);
  }

  lemma MagnitudeStep(m: bytes, k: nat)
    requires k < |m|
    ensures Magnitude(m[k..]) == m[k] + 256 * Magnitude(m[k + 1..])
  {
    assert m[k..][1..] == m[k + 1..];
  }

  lemma {:induction false} TopByte(y: nat, n: nat, m: nat)
    requires y < m * Pow256(n) && m <= 256
    ensures LittleEndian(y, n + 1)[n] < m
    decreases n
  {
    if n > 0 {
      assert y / 256 < m * Pow256(n - 1) by {
        assert m * Pow256(n) == 256 * (m * Pow256(n - 1));
      }
      TopByte(y / 256, n - 1, m);
    } else {
      assert LittleEndian(y, 1) == [y % 256];
    }
  }

  /** Numbers below 2^63 in magnitude survive writing and reading. */
  lemma OffsetRoundTrip(x: int)
    requires -0x8000_0000_0000_0000 < x < 0x8000_0000_0000_0000
    ensures Offtin(Offtout(x)) == x
  {
    var b := LittleEndian(Abs(x), 8);
    Pow256Seven();
    TopByte(Abs(x), 7, SIGN);
    LittleEndianMagnitude(Abs(x), 8);
    assert Offtout(x)[7 := b[7]] == b;
  }

  lemma Pow256Seven()
    ensures Pow256(7) == 0x100_0000_0000_0000 && Pow256(8) == 0x1_0000_0000_0000_0000
    ensures Pow256(4) == 0x1_0000_0000
  {
  }

  /** Reading is injective up to minus zero: writing back gives the same bytes. */
  lemma OffsetWriteBack(b: bytes)
    requires |b| == 8
    ensures Offtout(Offtin(b)) == b <==> (Offtin(b) != 0 || b[7] < SIGN)
  {
    hide Magnitude, LittleEndian;
    var m := b[7 := b[7] % SIGN];
    MagnitudeLittleEndian(m);
    if b[7] >= SIGN && Offtin(b) != 0 {
      assert Offtout(Offtin(b)) == m[7 := m[7] + SIGN] == b;
    } else {
      assert Offtout(Offtin(b)) == m;
    }
  }
}
