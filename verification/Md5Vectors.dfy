/** A value that RFC 1321 gives in section A.5. */
module Md5Vectors {
  import opened Suffixes
  import opened Offsets
  import opened Md5
  import opened Md5Stream
  import Md5Bits

  lemma FourBytes(x: nat, b: bytes)
    requires |b| == 4 && x == Base256(b[0], b[1], b[2], b[3], 0, 0, 0, 0)
    ensures LittleEndian(x, 4) == b
  {
    MagnitudeFour(b, 0);
    assert b[0..] == b && b[4..] == [];
    MagnitudeLittleEndian(b);
  }

  lemma WordOf(b: bytes, i: nat)
    requires 4 * i + 4 <= |b|
    ensures WordAt(b, i) == Base256(b[4 * i], b[4 * i + 1], b[4 * i + 2], b[4 * i + 3], 0, 0, 0, 0)
  {
    var c := b[4 * i..4 * i + 4];
    MagnitudeFour(c, 0);
    assert c[0..] == c && c[4..] == [];
  }

  lemma EmptyBlock()
    ensures |Padding(0)| == 64 && Words(Padding(0)) == Md5Bits.EMPTY_BLOCK
  {
    var p := Padding(0);
    NoLength(8);
    assert forall k :: 1 <= k < 64 ==> p[k] == 0;
    forall i | 0 <= i < 16
      ensures Words(p)[i] == if i == 0 then 0x80 else 0
    {
      hide Padding, WordAt;
      WordOf(p, i);
    }
  }

  lemma {:induction false} NoLength(n: nat)
    ensures LittleEndian(0, n) == Zeros(n)
    decreases n
  {
    if n > 0 { NoLength(n - 1); }
  }

  lemma EmptyOutput()
    ensures Output(Regs(0xd98c1dd4, 0x04b2008f, 0x980980e9, 0x7e42f8ec))
            == [0xd4, 0x1d, 0x8c, 0xd9] + [0x8f, 0x00, 0xb2, 0x04] + [0xe9, 0x80, 0x09, 0x98] + [0xec, 0xf8, 0x42, 0x7e]
  {
    hide LittleEndian;
    FourBytes(0xd98c1dd4, [0xd4, 0x1d, 0x8c, 0xd9]);
    FourBytes(0x04b2008f, [0x8f, 0x00, 0xb2, 0x04]);
    FourBytes(0x980980e9, [0xe9, 0x80, 0x09, 0x98]);
    FourBytes(0x7e42f8ec, [0xec, 0xf8, 0x42, 0x7e]);
  }

  /** RFC 1321, section A.5: the digest of the empty message. */
  lemma EmptyDigest()
    ensures Digest([])
            == [0xd4, 0x1d, 0x8c, 0xd9] + [0x8f, 0x00, 0xb2, 0x04] + [0xe9, 0x80, 0x09, 0x98] + [0xec, 0xf8, 0x42, 0x7e]
  {
    hide Compress, Words, Padding, Output;
    var none: bytes := [];
    EmptyBlock();
    Md5Bits.Compressed();
    assert none + Padding(0) == Padding(0);
    assert Padding(0)[..64] == Padding(0) && Padding(0)[64..] == [];
    EmptyOutput();
  }
}
