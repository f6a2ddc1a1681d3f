/** The incremental interface of digest/md5.c: however a message is cut into pieces, the digest is that of RFC 1321. */
module Md5Stream {
  import opened Suffixes
  import opened Offsets
  import opened Md5

  const TWO64: int := 0x1_0000_0000_0000_0000

  // ----- the definition: RFC 1321, sections 3.1, 3.2, 3.4 and 3.5 -----

  lemma Pow256Four()
    ensures Pow256(4) == TWO32
  {
  }

  /** Byte i of a block begins word i / 4, least significant byte first. */
  function WordAt(b: bytes, i: nat): (w: word)
    requires 4 * i + 4 <= |b|
  {
    Pow256Four();
    Magnitude(b[4 * i..4 * i + 4])
  }

  function Words(b: bytes): (X: seq<word>)
    requires |b| == 64
    ensures |X| == 16
  {
    seq(16, i requires 0 <= i < 16 => WordAt(b, i))
  }

  /** The registers after all whole blocks of s. */
  function Blocks(r: Regs, s: bytes): (r': Regs)
    decreases |s|
  {
    if |s| < 64 then r else Blocks(Compress(r, Words(s[..64])), s[64..])
  }

  function Zeros(n: nat): (z: bytes)
    ensures |z| == n
  {
    seq(n, i => 0)
  }

  /** A one bit, zero bits up to 448 modulo 512, and the length in bits modulo 2^64, low-order word first. */
  function Padding(len: nat): (p: bytes) {
    [0x80] + Zeros((55 - len) % 64) + LittleEndian(8 * len % TWO64, 8)
  }

  function Output(r: Regs): (d: bytes)
    ensures |d| == 16
  {
    LittleEndian(r.a, 4) + LittleEndian(r.b, 4) + LittleEndian(r.c, 4) + LittleEndian(r.d, 4)
  }

  function Digest(msg: bytes): (d: bytes)
    ensures |d| == 16
  {
    Output(Blocks(START, msg + Padding(|msg|)))
  }

  // ----- facts about blocks -----

  lemma {:induction false} BlocksAppend(r: Regs, s: bytes, t: bytes)
    requires |s| % 64 == 0
    ensures Blocks(r, s + t) == Blocks(Blocks(r, s), t)
    decreases |s|
  {
    hide Compress, Words;
    if s == [] {
      assert s + t == t;
    } else {
      assert (s + t)[..64] == s[..64] && (s + t)[64..] == s[64..] + t;
      BlocksAppend(Compress(r, Words(s[..64])), s[64..], t);
    }
  }

  lemma BlocksShort(r: Regs, s: bytes)
    requires |s| < 64
    ensures Blocks(r, s) == r
  {
  }

  lemma BlocksGrow(r: Regs, s: bytes, b: bytes)
    requires |s| % 64 == 0 && |b| == 64
    ensures Blocks(r, s + b) == Compress(Blocks(r, s), Words(b))
  {
    hide Compress, Words;
    BlocksAppend(r, s, b);
    assert b[..64] == b && b[64..] == [];
  }

  lemma BlocksTail(r: Regs, s: bytes, t: bytes)
    requires |s| % 64 == 0 && |t| < 64
    ensures Blocks(r, s + t) == Blocks(r, s)
  {
    hide Compress, Words;
    BlocksAppend(r, s, t);
  }

  ghost function Whole(msg: bytes): (w: bytes)
    ensures |w| % 64 == 0
  {
    msg[..|msg| - |msg| % 64]
  }

  ghost function Tail(msg: bytes): (t: bytes)
    ensures |t| == |msg| % 64
  {
    msg[|msg| - |msg| % 64..]
  }

  lemma WholeTail(msg: bytes)
    ensures msg == Whole(msg) + Tail(msg)
  {
  }

  lemma TailIs(whole: bytes, tail: bytes)
    requires |whole| % 64 == 0 && |tail| < 64
    ensures Whole(whole + tail) == whole && Tail(whole + tail) == tail
  {
  }

  lemma NextBlock(a: nat, b: nat)
    requires a % 64 == 0 && b == a + 64
    ensures b % 64 == 0
  {
  }

  // ----- facts about the bit count -----

  /** Two words hold the length in bits modulo 2^64. */
  ghost predicate Counts(low: word, high: word, len: nat) {
    low + TWO32 * high == 8 * len % TWO64
  }

  /** The carry from the low to the high word is right. */
  lemma Carry(low: word, high: word, len: nat)
    requires len < TWO32
    ensures var l := (low + 8 * len % TWO32) % TWO32;
            var h := (high + (if l < low then 1 else 0) + len / 0x2000_0000) % TWO32;
            l + TWO32 * h == (low + TWO32 * high + 8 * len) % TWO64
  {
    var rest, q := 8 * len % TWO32, len / 0x2000_0000;
    assert 8 * len == rest + TWO32 * q;
    var l := (low + rest) % TWO32;
    var c := if l < low then 1 else 0;
    assert low + rest == l + TWO32 * c;
    Wrap(l, high + c + q);
  }

  lemma Wrap(l: word, h: nat)
    ensures (l + TWO32 * h) % TWO64 == l + TWO32 * (h % TWO32)
  {
  }

  /** The low word tells how many bytes are buffered. */
  lemma Buffered(low: word, high: word, len: nat)
    requires Counts(low, high, len)
    ensures low / 8 % 64 == len % 64
  {
    var k := high + TWO32 * (8 * len / TWO64);
    assert 8 * len == low + TWO32 * k;
    assert len == low / 8 + 64 * (0x80_0000 * k);
    SameModulo(low / 8, 0x80_0000 * k);
  }

  lemma SameModulo(x: int, k: int)
    ensures (x + 64 * k) % 64 == x % 64
  {
  }

  lemma CountsZero()
    ensures Counts(0, 0, 0)
  {
  }

  lemma AddCounts(x: nat, y: nat)
    ensures (8 * x % TWO64 + 8 * y) % TWO64 == 8 * (x + y) % TWO64
  {
  }

  // ----- the program -----

  method CopyIn(dst: array<byte>, at: nat, src: bytes)
    requires at + |src| <= dst.Length
    modifies dst
    ensures forall k :: at <= k < at + |src| ==> dst[k] == src[k - at]
    ensures forall k :: 0 <= k < dst.Length && !(at <= k < at + |src|) ==> dst[k] == old(dst[k])
  {
    forall k | at <= k < at + |src| { dst[k] := src[k - at]; }
  }

  class Md5Context {
    const buf: array<word>
    const bits: array<word>
    const block: array<byte>

    ghost predicate Shape() {
      buf.Length == 4 && bits.Length == 2 && block.Length == 64 && buf != bits
    }

    /** The context has taken in msg: the registers hold the whole blocks, the buffer the rest, the counter the
        length. */
    ghost predicate Holds(msg: bytes)
      reads buf, bits, block
    {
      && Shape()
      && RegsOf(buf[..]) == Blocks(START, msg)
      && block[..|msg| % 64] == Tail(msg)
      && Counts(bits[0], bits[1], |msg|)
    }

    /** `MD5Init` */
    constructor Init()
      ensures Holds([]) && fresh(buf) && fresh(bits) && fresh(block)
    {
      hide Blocks, Counts, Tail, Whole;
      buf := new word[4][START.a, START.b, START.c, START.d];
      bits := new word[2][0, 0];
      block := new byte[64];
      new;
      BlocksShort(START, []);
      CountsZero();
      ghost var none: bytes := [];
      assert none + none == none;
      HoldsNow(none, none, none);
    }

    method CountBits(ghost len: nat, more: nat)
      requires Shape() && Counts(bits[0], bits[1], len) && more < TWO32
      modifies bits
      ensures Counts(bits[0], bits[1], len + more)
    {
      Carry(bits[0], bits[1], more);
      AddCounts(len, more);
      var t := bits[0];
      bits[0] := (t + 8 * more % TWO32) % TWO32;
      var carry := if bits[0] < t then 1 else 0;
      bits[1] := (bits[1] + carry + more / 0x2000_0000) % TWO32;
    }

    /** Transforms the full buffer. */
    method Flush(ghost s: bytes)
      requires Shape() && |s| % 64 == 0 && RegsOf(buf[..]) == Blocks(START, s)
      modifies buf
      ensures RegsOf(buf[..]) == Blocks(START, s + block[..])
    {
      hide Compress, Words, Blocks;
      BlocksGrow(START, s, block[..]);
      Md5Transform(buf, Words(block[..]));
    }

    /** What is left to show when the rest of the message is in the buffer. */
    lemma HoldsNow(msg: bytes, whole: bytes, tail: bytes)
      requires Shape() && msg == whole + tail && |whole| % 64 == 0 && |tail| < 64
      requires RegsOf(buf[..]) == Blocks(START, whole) && block[..|tail|] == tail
      requires Counts(bits[0], bits[1], |msg|)
      ensures Holds(msg)
    {
      hide Blocks, RegsOf, Counts, Tail, Whole;
      BlocksTail(START, whole, tail);
      TailIs(whole, tail);
    }

    /** The leading odd-sized chunk: fills the buffer, or ends the call. */
    method TakeFirst(ghost whole: bytes, ghost tail: bytes, t: nat, data: bytes) returns (pos: nat)
      requires Shape() && |whole| % 64 == 0 && 0 < |tail| == t < 64
      requires RegsOf(buf[..]) == Blocks(START, whole) && block[..t] == tail
      modifies buf, block
      ensures t + |data| < 64 ==>
                pos == |data| && RegsOf(buf[..]) == Blocks(START, whole) && block[..t + |data|] == tail + data
      ensures t + |data| >= 64 ==> pos == 64 - t && RegsOf(buf[..]) == Blocks(START, whole + (tail + data[..pos]))
    {
      hide Blocks, RegsOf;
      pos := 64 - t;
      if |data| < pos {
        CopyIn(block, t, data);
        assert block[..t + |data|] == tail + data;
        return |data|;
      }
      CopyIn(block, t, data[..pos]);
      assert block[..] == tail + data[..pos];
      Flush(whole);
    }

    /** The whole blocks of the data from `from` on. */
    method TakeBlocks(ghost msg: bytes, data: bytes, from: nat) returns (pos: nat)
      requires Shape() && from <= |data| && |msg + data[..from]| % 64 == 0
      requires RegsOf(buf[..]) == Blocks(START, msg + data[..from])
      modifies buf, block
      ensures from <= pos <= |data| < pos + 64 && |msg + data[..pos]| % 64 == 0
      ensures RegsOf(buf[..]) == Blocks(START, msg + data[..pos])
    {
      hide Blocks, RegsOf;
      pos := from;
      ghost var s := msg + data[..from];
      while |data| - pos >= 64
        invariant from <= pos <= |data| && s == msg + data[..pos] && |s| % 64 == 0
        invariant RegsOf(buf[..]) == Blocks(START, s)
      {
        TakeBlock(s, data[pos..pos + 64]);
        NextBlock(|s|, |s + data[pos..pos + 64]|);
        s := s + data[pos..pos + 64];
        assert s == msg + data[..pos + 64];
        pos := pos + 64;
      }
    }

    method TakeBlock(ghost s: bytes, b: bytes)
      requires Shape() && |s| % 64 == 0 && |b| == 64 && RegsOf(buf[..]) == Blocks(START, s)
      modifies buf, block
      ensures RegsOf(buf[..]) == Blocks(START, s + b)
    {
      hide Blocks, RegsOf;
      CopyIn(block, 0, b);
      assert block[..] == b;
      Flush(s);
    }

    /** Everything after the leading chunk. */
    method TakeRest(ghost msg: bytes, data: bytes, from: nat)
      requires Shape() && from <= |data| && |msg + data[..from]| % 64 == 0
      requires RegsOf(buf[..]) == Blocks(START, msg + data[..from]) && Counts(bits[0], bits[1], |msg + data|)
      modifies buf, block
      ensures Holds(msg + data)
    {
      hide Blocks, RegsOf, Counts, Tail, Whole;
      var pos := TakeBlocks(msg, data, from);
      CopyIn(block, 0, data[pos..]);
      assert block[..|data| - pos] == data[pos..];
      assert msg + data == (msg + data[..pos]) + data[pos..];
      HoldsNow(msg + data, msg + data[..pos], data[pos..]);
    }

    /** `MD5Update` */
    method Update(ghost msg: bytes, data: bytes)
      requires Holds(msg) && |data| < TWO32
      modifies buf, bits, block
      ensures Holds(msg + data)
    {
      hide Blocks, RegsOf, Counts, Tail, Whole;
      ghost var whole, tail := Whole(msg), Tail(msg);
      WholeTail(msg);
      BlocksTail(START, whole, tail);
      Buffered(bits[0], bits[1], |msg|);
      var t := bits[0] / 8 % 64;
      CountBits(|msg|, |data|);
      var pos := 0;
      if t != 0 {
        pos := TakeFirst(whole, tail, t, data);
        if t + |data| < 64 {
          assert msg + data == whole + (tail + data);
          HoldsNow(msg + data, whole, tail + data);
          return;
        }
        assert whole + (tail + data[..pos]) == msg + data[..pos];
        NextBlock(|whole|, |msg + data[..pos]|);
      } else {
        assert whole == msg + data[..0];
      }
      TakeRest(msg, data, pos);
    }

    /** The two words of the count go to the end of the block. */
    method PutCount()
      requires Shape()
      modifies block
      ensures block[..] == old(block[..56]) + (LittleEndian(bits[0], 4) + LittleEndian(bits[1], 4))
    {
      hide LittleEndian;
      CopyIn(block, 56, LittleEndian(bits[0], 4));
      CopyIn(block, 60, LittleEndian(bits[1], 4));
    }

    /** The rest of a block that has no room for the count is zeros. */
    method FillUp(ghost whole: bytes, ghost head: bytes, free: nat)
      requires Shape() && |whole| % 64 == 0 && RegsOf(buf[..]) == Blocks(START, whole)
      requires |head| + free == 64 && block[..|head|] == head
      modifies buf, block
      ensures RegsOf(buf[..]) == Blocks(START, whole + (head + Zeros(free)))
    {
      hide Blocks, RegsOf;
      CopyIn(block, 64 - free, Zeros(free));
      assert block[..] == head + Zeros(free);
      Flush(whole);
    }

    /** Zeros and the count end a block. */
    method LastBlock(ghost whole: bytes, ghost head: bytes, free: nat)
      requires Shape() && |whole| % 64 == 0 && RegsOf(buf[..]) == Blocks(START, whole)
      requires |head| + free == 56 && block[..|head|] == head
      modifies buf, block
      ensures RegsOf(buf[..]) ==
              Blocks(START, whole + (head + Zeros(free) + (LittleEndian(bits[0], 4) + LittleEndian(bits[1], 4))))
    {
      hide Blocks, RegsOf, LittleEndian;
      CopyIn(block, 56 - free, Zeros(free));
      assert block[..56] == head + Zeros(free);
      PutCount();
      Flush(whole);
    }

    /** The last block or two: a one bit, zeros, and the count. */
    method Pad(ghost msg: bytes)
      requires Holds(msg)
      modifies buf, block
      ensures RegsOf(buf[..]) == Blocks(START, msg + Padding(|msg|))
    {
      hide Blocks, RegsOf, Counts, Tail, Whole, Padding, LittleEndian;
      ghost var whole, tail := Whole(msg), Tail(msg);
      WholeTail(msg);
      BlocksTail(START, whole, tail);
      Buffered(bits[0], bits[1], |msg|);
      PaddingIs(bits[0], bits[1], |msg|);
      var count := bits[0] / 8 % 64;
      ghost var length := LittleEndian(bits[0], 4) + LittleEndian(bits[1], 4);
      block[count] := 0x80;
      var free := 63 - count;
      if free < 8 {
        ghost var first := tail + [0x80] + Zeros(free);
        FillUp(whole, tail + [0x80], free);
        NextBlock(|whole|, |whole + first|);
        LastBlock(whole + first, [], 56);
        TwoBlocks(msg, whole, tail, free, length);
      } else {
        LastBlock(whole, tail + [0x80], free - 8);
        OneBlock(msg, whole, tail, free - 8, length);
      }
    }

    /** `MD5Final`: the digest, and a context that no longer tells anything. */
    method Final(ghost msg: bytes) returns (digest: bytes)
      requires Holds(msg)
      modifies buf, bits, block
      ensures digest == Digest(msg)
      ensures forall i :: 0 <= i < 4 ==> buf[i] == 0
      ensures bits[0] == bits[1] == 0 && forall i :: 0 <= i < 64 ==> block[i] == 0
    {
      hide Blocks, Padding, LittleEndian;
      Pad(msg);
      digest := LittleEndian(buf[0], 4) + LittleEndian(buf[1], 4) + LittleEndian(buf[2], 4) + LittleEndian(buf[3], 4);
      forall i | 0 <= i < 4 { buf[i] := 0; }
      bits[0], bits[1] := 0, 0;
      CopyIn(block, 0, Zeros(64));
    }
  }

  lemma TwoBlocks(msg: bytes, whole: bytes, tail: bytes, free: nat, length: bytes)
    requires msg == whole + tail
    ensures whole + (tail + [0x80] + Zeros(free)) + ([] + Zeros(56) + length) ==
            msg + ([0x80] + Zeros(free + 56) + length)
  {
  }

  lemma OneBlock(msg: bytes, whole: bytes, tail: bytes, free: nat, length: bytes)
    requires msg == whole + tail
    ensures whole + (tail + [0x80] + Zeros(free) + length) == msg + ([0x80] + Zeros(free) + length)
  {
  }

  /** The count as two words is the count of the definition. */
  lemma PaddingIs(low: word, high: word, len: nat)
    requires Counts(low, high, len)
    ensures var free := 63 - len % 64;
            Padding(len) ==
            [0x80] + Zeros(if free < 8 then free + 56 else free - 8)
            + (LittleEndian(low, 4) + LittleEndian(high, 4))
  {
    hide LittleEndian, Zeros;
    JoinWords(low, high);
    Room(len);
  }

  lemma Room(len: nat)
    ensures var free := 63 - len % 64; (55 - len) % 64 == if free < 8 then free + 56 else free - 8
  {
  }

  lemma JoinWords(low: word, high: word)
    ensures LittleEndian(low + TWO32 * high, 8) == LittleEndian(low, 4) + LittleEndian(high, 4)
  {
    Pow256Four();
    JoinBytes(low, high, 4);
  }

  lemma PowStep(low: nat, high: nat, n: nat)
    requires n > 0 && low < Pow256(n)
    ensures Pow256(n) * high == 256 * (Pow256(n - 1) * high) && low / 256 < Pow256(n - 1)
  {
  }

  lemma LowByte(low: int, p: int)
    ensures (low + 256 * p) % 256 == low % 256 && (low + 256 * p) / 256 == low / 256 + p
  {
  }

  lemma Unfold(y: nat, n: nat)
    requires n > 0
    ensures LittleEndian(y, n) == [y % 256] + LittleEndian(y / 256, n - 1)
  {
  }

  lemma {:induction false} JoinBytes(low: nat, high: nat, n: nat)
    requires low < Pow256(n)
    ensures LittleEndian(low + Pow256(n) * high, n + 4) == LittleEndian(low, n) + LittleEndian(high, 4)
    decreases n
  {
    if n > 0 {
      hide Pow256, LittleEndian;
      PowStep(low, high, n);
      LowByte(low, Pow256(n - 1) * high);
      Unfold(low + Pow256(n) * high, n + 4);
      Unfold(low, n);
      JoinBytes(low / 256, high, n - 1);
    } else {
      assert LittleEndian(low, 0) + LittleEndian(high, 4) == LittleEndian(high, 4);
    }
  }

  /** The digest does not depend on how the message is cut into pieces. */
  ghost function Joined(pieces: seq<bytes>): (msg: bytes) {
    if pieces == [] then [] else Joined(pieces[..|pieces| - 1]) + pieces[|pieces| - 1]
  }

  method Hash(pieces: seq<bytes>) returns (digest: bytes)
    requires forall i :: 0 <= i < |pieces| ==> |pieces[i]| < TWO32
    ensures digest == Digest(Joined(pieces))
  {
    hide Digest, Md5Context.Holds;
    var ctx := new Md5Context.Init();
    var i := 0;
    while i < |pieces|
      invariant 0 <= i <= |pieces| && ctx.Holds(Joined(pieces[..i]))
      invariant fresh(ctx.buf) && fresh(ctx.bits) && fresh(ctx.block)
    {
      assert pieces[..i + 1][..i] == pieces[..i];
      ctx.Update(Joined(pieces[..i]), pieces[i]);
      i := i + 1;
    }
    assert pieces[..i] == pieces;
    digest := ctx.Final(Joined(pieces));
  }
}
