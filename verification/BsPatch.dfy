/** Applying a bsdiff patch (applypatch/bspatch.c).

    bzip2 is a pair of functions.  `expand` gives all the bytes a decompressor delivers from its input, and
    whether it then reports the end of the stream or an error.  If it does not, the input is cut off: the
    decompressor goes on waiting for more, and so does FillBuffer. */
module BsPatch {
  import opened Suffixes
  import opened Offsets

  /** Undefined stands for inputs on which the program reads outside the memory it was given, Hangs for those on
      which it never returns. */
  datatype Outcome<+T> = Done(value: T) | Failed | Undefined | Hangs

  datatype Expanded = Expanded(data: bytes, ends: bool)

  datatype Bzip2 = Bzip2(compress: bytes -> bytes, expand: bytes -> Expanded) {
    /** Decompression undoes compression and ignores what follows the stream. */
    ghost predicate Lossless() {
      forall x: bytes, tail: bytes :: expand(compress(x) + tail) == Expanded(x, true)
    }
  }

  datatype Ctrl = Ctrl(diff: int, extra: int, seek: int)

  function ReadCtrl(b: bytes): (t: Ctrl)
    requires |b| >= 24
  {
    Ctrl(Offtin(b[0..8]), Offtin(b[8..16]), Offtin(b[16..24]))
  }

  function WriteCtrl(t: Ctrl): (b: bytes)
    ensures |b| == 24
  {
    Offtout(t.diff) + Offtout(t.extra) + Offtout(t.seek)
  }

  function ByteAdd(a: byte, b: byte): (r: byte) { ((a as int) + (b as int)) % 256 }

  function ByteSub(a: byte, b: byte): (r: byte) { ((a as int) - (b as int)) % 256 }

  /** Byte i of a piece of the new file: the difference byte plus the old byte, where there is one. */
  function AddOld(src: bytes, pos: int, d: bytes): (r: bytes)
    ensures |r| == |d|
  {
    seq(|d|, i requires 0 <= i < |d| => if 0 <= pos + i < |src| then ByteAdd(d[i], src[pos + i]) else d[i])
  }

  /** Where there is an old byte, the byte made is the sum of it and the difference byte modulo 256; elsewhere it is
      the difference byte. */
  lemma AddedIs(src: bytes, pos: int, d: bytes, i: nat)
    requires i < |d|
    ensures IsSum(AddOld(src, pos, d)[i], d[i], ByteAt(src, pos + i))
  {
  }

  function ByteAt(src: bytes, p: int): (b: int) { if 0 <= p < |src| then src[p] else 0 }

  /** x is a + b modulo 256. */
  ghost predicate IsSum(x: int, a: int, b: int) {
    0 <= x < 256 && (x == a + b || x == a + b - 256)
  }

  /** Which of the three streams are cut off. */
  datatype Cuts = Cuts(ctrl: bool, diff: bool, extra: bool)

  const WHOLE: Cuts := Cuts(false, false, false)

  /** What becomes of a read that asks a stream for more than it delivers. */
  function Short(cut: bool): (r: Outcome<bytes>) {
    if cut then Hangs else Failed
  }

  /** The meaning of the three streams: what is left of them extends `acc` to a file of `size` bytes. */
  function Rebuild(src: bytes, size: nat, c: bytes, d: bytes, e: bytes, w: Cuts, pos: int, acc: bytes)
    : (r: Outcome<bytes>)
    ensures r.Done? && |acc| <= size ==> |r.value| == size && acc <= r.value
    ensures !r.Undefined?
    decreases |c|
  {
    if |acc| >= size then Done(acc)
    else if |c| < 24 then Short(w.ctrl)
    else
      var t := ReadCtrl(c);
      if t.diff < 0 || t.extra < 0 || |acc| + t.diff > size then Failed
      else if t.diff > |d| then Short(w.diff)
      else
        var acc1 := acc + AddOld(src, pos, d[..t.diff]);
        if |acc1| + t.extra > size then Failed
        else if t.extra > |e| then Short(w.extra)
        else Rebuild(src, size, c[24..], d[t.diff..], e[t.extra..], w, pos + t.diff + t.seek, acc1 + e[..t.extra])
  }

  /** The file rebuilt from three expanded streams. */
  function RebuildAll(src: bytes, size: nat, c: Expanded, d: Expanded, e: Expanded): (r: Outcome<bytes>) {
    Rebuild(src, size, c.data, d.data, e.data, Cuts(!c.ends, !d.ends, !e.ends), 0, [])
  }

  const MAGIC: bytes := [0x42, 0x53, 0x44, 0x49, 0x46, 0x46, 0x34, 0x30]  // "BSDIFF40"

  /** `ApplyBSDiffPatchMem` as a function: the file rebuilt from the patch at `offset`. */
  function ApplyMem(bz: Bzip2, src: bytes, patch: bytes, offset: int): (r: Outcome<bytes>) {
    if offset < 0 || offset + 32 > |patch| then Undefined
    else if patch[offset..offset + 8] != MAGIC then Failed
    else
      var clen := Offtin(patch[offset + 8..offset + 16]);
      var dlen := Offtin(patch[offset + 16..offset + 24]);
      var size := Offtin(patch[offset + 24..offset + 32]);
      if clen < 0 || dlen < 0 || size < 0 then Failed
      else if size == 0 then Done([])
      else if offset + 32 + clen + dlen > |patch| then Undefined
      else
        var c := offset + 32;
        var d := c + clen;
        var e := d + dlen;
        RebuildAll(src, size, bz.expand(patch[c..d]), bz.expand(patch[d..e]), bz.expand(patch[e..]))
  }

  /** A decompressor: the bytes it will deliver, how many it has delivered, and whether its input is cut off. */
  class Stream {
    const data: bytes
    const cut: bool
    var pos: nat

    constructor (x: Expanded)
      ensures this.data == x.data && cut == !x.ends && pos == 0
    {
      this.data, this.cut := x.data, !x.ends;
      pos := 0;
    }

    ghost function Rest(): (s: bytes)
      reads this
      requires pos <= |data|
    {
      data[pos..]
    }
  }

  /** How filling a buffer ends: it is full, the stream ended or was bad, or the loop waits for ever. */
  datatype Fill = Filled | Broken | Waiting

  function FillOf(cut: bool): (f: Fill) {
    if cut then Waiting else Broken
  }

  /** `FillBuffer`: deliver `size` bytes to buffer[at..], fail, or wait for ever for the rest of a stream that is
      cut off. */
  method FillBuffer(buffer: array<byte>, at: nat, size: nat, stream: Stream) returns (r: Fill)
    requires at + size <= buffer.Length && stream.pos <= |stream.data|
    modifies buffer, stream
    ensures stream.pos <= |stream.data|
    ensures r == if size <= |old(stream.Rest())| then Filled else FillOf(stream.cut)
    ensures r.Filled? ==> stream.Rest() == old(stream.Rest())[size..]
    ensures r.Filled? ==> buffer[..] == old(buffer[..at]) + old(stream.Rest())[..size] + old(buffer[at + size..])
  {
    var i := 0;
    ghost var start := stream.pos;
    while i < size
      invariant 0 <= i <= size && stream.pos == start + i <= |stream.data|
      invariant forall k :: 0 <= k < buffer.Length ==>
        buffer[k] == if at <= k < at + i then stream.data[start + k - at] else old(buffer[k])
    {
      if stream.pos == |stream.data| { return FillOf(stream.cut); }
      buffer[at + i] := stream.data[stream.pos];
      stream.pos := stream.pos + 1;
      i := i + 1;
    }
    return Filled;
  }

  /** The loop that adds the old bytes, where there are any, to the differences just read. */
  method AddOldData(new_data: array<byte>, newpos: nat, count: nat, src: bytes, oldpos: int)
    requires newpos + count <= new_data.Length
    modifies new_data
    ensures new_data[..] == old(new_data[..newpos]) + AddOld(src, oldpos, old(new_data[newpos..newpos + count]))
                            + old(new_data[newpos + count..])
    ensures forall k :: newpos <= k < newpos + count ==>
              IsSum(new_data[k], old(new_data[k]), ByteAt(src, oldpos + k - newpos))
  {
    var i := 0;
    while i < count
      invariant 0 <= i <= count
      invariant forall k :: 0 <= k < new_data.Length ==>
        new_data[k] == if newpos <= k < newpos + i && 0 <= oldpos + k - newpos < |src|
                       then ByteAdd(old(new_data[k]), src[oldpos + k - newpos]) else old(new_data[k])
    {
      if oldpos + i >= 0 && oldpos + i < |src| {
        new_data[newpos + i] := ByteAdd(new_data[newpos + i], src[oldpos + i]);
      }
      i := i + 1;
    }
    Added(old(new_data[..]), new_data[..], newpos, count, src, oldpos);
    forall k | newpos <= k < newpos + count
      ensures IsSum(new_data[k], old(new_data[k]), ByteAt(src, oldpos + k - newpos))
    {
    }
  }

  lemma Added(a: bytes, b: bytes, newpos: nat, count: nat, src: bytes, oldpos: int)
    requires newpos + count <= |a| == |b|
    requires forall k :: 0 <= k < |a| ==>
               b[k] == if newpos <= k < newpos + count && 0 <= oldpos + k - newpos < |src|
                       then ByteAdd(a[k], src[oldpos + k - newpos]) else a[k]
    ensures b == a[..newpos] + AddOld(src, oldpos, a[newpos..newpos + count]) + a[newpos + count..]
  {
    hide ByteAdd;
  }

  lemma SameCtrl(b: bytes, c: bytes)
    requires |b| >= 24 && |c| >= 24 && b[..24] == c[..24]
    ensures ReadCtrl(b) == ReadCtrl(c)
  {
    assert b[0..8] == b[..24][0..8] && b[8..16] == b[..24][8..16] && b[16..24] == b[..24][16..24];
    assert c[0..8] == c[..24][0..8] && c[8..16] == c[..24][8..16] && c[16..24] == c[..24][16..24];
  }

  lemma RebuildShort(src: bytes, size: nat, c: bytes, d: bytes, e: bytes, w: Cuts, pos: int, acc: bytes)
    requires |acc| < size && |c| < 24
    ensures Rebuild(src, size, c, d, e, w, pos, acc) == Short(w.ctrl)
  {
  }

  lemma RebuildFull(src: bytes, size: nat, c: bytes, d: bytes, e: bytes, w: Cuts, pos: int, acc: bytes)
    requires |acc| >= size
    ensures Rebuild(src, size, c, d, e, w, pos, acc) == Done(acc)
  {
  }

  /** How a triple ends, with dlen and elen bytes left of the streams; Done stands for going on. */
  function TripleEnd(t: Ctrl, room: int, dlen: nat, elen: nat, w: Cuts): (r: Outcome<()>) {
    if t.diff < 0 || t.extra < 0 || t.diff > room then Failed
    else if t.diff > dlen then if w.diff then Hangs else Failed
    else if t.diff + t.extra > room then Failed
    else if t.extra > elen then if w.extra then Hangs else Failed
    else Done(())
  }

  lemma RebuildStep(src: bytes, size: nat, c: bytes, d: bytes, e: bytes, w: Cuts, pos: int, acc: bytes)
    requires |acc| < size && |c| >= 24
    ensures var t := ReadCtrl(c);
            var x, y := t.diff, t.extra;
            var r := Rebuild(src, size, c, d, e, w, pos, acc);
            match TripleEnd(t, size - |acc|, |d|, |e|, w)
            case Done(_) => r == Rebuild(src, size, c[24..], d[x..], e[y..], w, pos + x + t.seek,
                                         acc + AddOld(src, pos, d[..x]) + e[..y])
            case Hangs => r == Hangs
            case _ => r == Failed
  {
  }

  /** The differences of a triple are read, and the old bytes added. */
  method ReadDiff(new_data: array<byte>, newpos: nat, count: nat, dstream: Stream, src: bytes, oldpos: int)
    returns (r: Fill)
    requires newpos + count <= new_data.Length && dstream.pos <= |dstream.data|
    modifies new_data, dstream
    ensures dstream.pos <= |dstream.data|
    ensures r == if count <= |old(dstream.Rest())| then Filled else FillOf(dstream.cut)
    ensures r.Filled? ==> dstream.Rest() == old(dstream.Rest())[count..]
    ensures r.Filled? ==> new_data[..newpos + count] ==
                            old(new_data[..newpos]) + AddOld(src, oldpos, old(dstream.Rest())[..count])
  {
    r := FillBuffer(new_data, newpos, count, dstream);
    if r.Filled? {
      assert new_data[..newpos] == old(new_data[..newpos]);
      assert new_data[newpos..newpos + count] == old(dstream.Rest())[..count];
      AddOldData(new_data, newpos, count, src, oldpos);
    }
  }

  /** The extra bytes of a triple are read. */
  method ReadExtra(new_data: array<byte>, newpos: nat, count: nat, estream: Stream) returns (r: Fill)
    requires newpos + count <= new_data.Length && estream.pos <= |estream.data|
    modifies new_data, estream
    ensures estream.pos <= |estream.data|
    ensures r == if count <= |old(estream.Rest())| then Filled else FillOf(estream.cut)
    ensures r.Filled? ==> estream.Rest() == old(estream.Rest())[count..]
    ensures r.Filled? ==> new_data[..newpos + count] == old(new_data[..newpos]) + old(estream.Rest())[..count]
  {
    r := FillBuffer(new_data, newpos, count, estream);
  }

  function FillEnd(f: Fill): (r: Outcome<()>) {
    match f case Filled => Done(()) case Broken => Failed case Waiting => Hangs
  }

  /** The part of the loop body after the control triple has been read. */
  method ApplyTriple(new_data: array<byte>, newpos: nat, ctrl: Ctrl, dstream: Stream, estream: Stream,
                     src: bytes, oldpos: int)
    returns (r: Outcome<()>)
    requires newpos <= new_data.Length && dstream != estream
    requires dstream.pos <= |dstream.data| && estream.pos <= |estream.data|
    modifies new_data, dstream, estream
    ensures dstream.pos <= |dstream.data| && estream.pos <= |estream.data|
    ensures r == TripleEnd(ctrl, new_data.Length - newpos, |old(dstream.Rest())|, |old(estream.Rest())|,
                           Cuts(false, dstream.cut, estream.cut))
    ensures r.Done? ==>
              dstream.Rest() == old(dstream.Rest())[ctrl.diff..] && estream.Rest() == old(estream.Rest())[ctrl.extra..]
    ensures r.Done? ==> new_data[..newpos + ctrl.diff + ctrl.extra] ==
                          old(new_data[..newpos]) + AddOld(src, oldpos, old(dstream.Rest())[..ctrl.diff])
                          + old(estream.Rest())[..ctrl.extra]
  {
    hide AddOld;
    if ctrl.diff < 0 || ctrl.extra < 0 { return Failed; }
    if newpos + ctrl.diff > new_data.Length { return Failed; }
    var f := ReadDiff(new_data, newpos, ctrl.diff, dstream, src, oldpos);
    if !f.Filled? { return FillEnd(f); }
    if newpos + ctrl.diff + ctrl.extra > new_data.Length { return Failed; }
    f := ReadExtra(new_data, newpos + ctrl.diff, ctrl.extra, estream);
    return FillEnd(f);
  }

  /** One round of the loop over the control triples.  What is left to be rebuilt stays the same. */
  method Round(src: bytes, buf: array<byte>, new_data: array<byte>, newpos: nat, oldpos: int,
               cstream: Stream, dstream: Stream, estream: Stream, ghost w: Cuts)
    returns (r: Outcome<()>, newpos': nat, oldpos': int)
    requires buf != new_data && buf.Length == 24 && newpos < new_data.Length
    requires cstream != dstream && cstream != estream && dstream != estream
    requires cstream.pos <= |cstream.data| && dstream.pos <= |dstream.data| && estream.pos <= |estream.data|
    requires w == Cuts(cstream.cut, dstream.cut, estream.cut)
    modifies buf, new_data, cstream, dstream, estream
    ensures cstream.pos <= |cstream.data| && dstream.pos <= |dstream.data| && estream.pos <= |estream.data|
    ensures var goal := old(Rebuild(src, new_data.Length, cstream.Rest(), dstream.Rest(), estream.Rest(), w, oldpos,
                                    new_data[..newpos]));
            match r
            case Done(_) =>
              && newpos' <= new_data.Length && |cstream.Rest()| < |old(cstream.Rest())|
              && Rebuild(src, new_data.Length, cstream.Rest(), dstream.Rest(), estream.Rest(), w, oldpos',
                         new_data[..newpos']) == goal
            case Hangs => goal == Hangs
            case _ => goal == Failed
  {
    hide Rebuild, AddOld, ReadCtrl, TripleEnd;
    ghost var cs, ds, es, acc := cstream.Rest(), dstream.Rest(), estream.Rest(), new_data[..newpos];
    newpos', oldpos' := newpos, oldpos;
    var f := FillBuffer(buf, 0, 24, cstream);
    if !f.Filled? {
      RebuildShort(src, new_data.Length, cs, ds, es, w, oldpos, acc);
      r := FillEnd(f);
      return;
    }
    RebuildStep(src, new_data.Length, cs, ds, es, w, oldpos, acc);
    var ctrl := ReadCtrl(buf[..]);
    SameCtrl(buf[..], cs);
    r := ApplyTriple(new_data, newpos, ctrl, dstream, estream, src, oldpos);
    TripleEndFacts(ctrl, new_data.Length - newpos, |ds|, |es|, w);
    if r.Done? {
      newpos' := newpos + ctrl.diff + ctrl.extra;
      oldpos' := oldpos + ctrl.diff + ctrl.seek;
      assert cstream.Rest() == cs[24..];
    }
  }

  lemma TripleEndFacts(t: Ctrl, room: int, dlen: nat, elen: nat, w: Cuts)
    ensures TripleEnd(t, room, dlen, elen, w) == TripleEnd(t, room, dlen, elen, Cuts(false, w.diff, w.extra))
    ensures !TripleEnd(t, room, dlen, elen, w).Undefined?
    ensures TripleEnd(t, room, dlen, elen, w).Done? ==>
              0 <= t.diff <= dlen && 0 <= t.extra <= elen && t.diff + t.extra <= room
  {
  }

  /** The loop of `ApplyBSDiffPatchMem` over the control triples. */
  method ApplyTriples(src: bytes, size: nat, c: Expanded, d: Expanded, e: Expanded) returns (r: Outcome<bytes>)
    ensures r == RebuildAll(src, size, c, d, e)
  {
    hide Rebuild;
    var cstream := new Stream(c);
    var dstream := new Stream(d);
    var estream := new Stream(e);
    var new_data := new byte[size];
    var buf := new byte[24];
    var oldpos: int, newpos: nat := 0, 0;
    ghost var w := Cuts(!c.ends, !d.ends, !e.ends);
    ghost var goal := RebuildAll(src, size, c, d, e);
    assert new_data[..0] == [] && cstream.Rest() == c.data && dstream.Rest() == d.data && estream.Rest() == e.data;
    while newpos < size
      invariant newpos <= size
      invariant cstream.pos <= |cstream.data| && dstream.pos <= |dstream.data| && estream.pos <= |estream.data|
      invariant Rebuild(src, size, cstream.Rest(), dstream.Rest(), estream.Rest(), w, oldpos, new_data[..newpos]) ==
                goal
      decreases |cstream.Rest()|
    {
      var t;
      t, newpos, oldpos := Round(src, buf, new_data, newpos, oldpos, cstream, dstream, estream, w);
      if !t.Done? { return if t.Hangs? then Hangs else Failed; }
    }
    RebuildFull(src, size, cstream.Rest(), dstream.Rest(), estream.Rest(), w, oldpos, new_data[..newpos]);
    assert new_data[..] == new_data[..newpos];
    return Done(new_data[..]);
  }

  /** `ApplyBSDiffPatchMem` */
  method ApplyBSDiffPatchMem(bz: Bzip2, src: bytes, patch: bytes, offset: int) returns (r: Outcome<bytes>)
    ensures r == ApplyMem(bz, src, patch, offset)
  {
    hide Rebuild, Offtin;
    if offset < 0 || offset + 32 > |patch| { return Undefined; }
    if patch[offset..offset + 8] != MAGIC { return Failed; }
    var clen := Offtin(patch[offset + 8..offset + 16]);
    var dlen := Offtin(patch[offset + 16..offset + 24]);
    var size := Offtin(patch[offset + 24..offset + 32]);
    if clen < 0 || dlen < 0 || size < 0 { return Failed; }
    if size == 0 { return Done([]); }
    if offset + 32 + clen + dlen > |patch| { return Undefined; }
    var c := offset + 32;
    var d := c + clen;
    var e := d + dlen;
    r := ApplyTriples(src, size, bz.expand(patch[c..d]), bz.expand(patch[d..e]), bz.expand(patch[e..]));
  }

  // ----- when the patcher never returns -----

  /** The streams that are left, the position in the old file, and what has been rebuilt. */
  datatype Reader = Reader(c: bytes, d: bytes, e: bytes, pos: int, acc: bytes)

  ghost function RebuildFrom(src: bytes, size: nat, w: Cuts, s: Reader): (r: Outcome<bytes>) {
    Rebuild(src, size, s.c, s.d, s.e, w, s.pos, s.acc)
  }

  /** The next triple can be read and carried out. */
  ghost predicate GoesOn(size: nat, s: Reader) {
    && |s.acc| < size && |s.c| >= 24
    && TripleEnd(ReadCtrl(s.c), size - |s.acc|, |s.d|, |s.e|, WHOLE).Done?
  }

  ghost function NextTriple(src: bytes, size: nat, s: Reader): (s': Reader)
    requires GoesOn(size, s)
  {
    var t := ReadCtrl(s.c);
    Reader(s.c[24..], s.d[t.diff..], s.e[t.extra..], s.pos + t.diff + t.seek,
           s.acc + AddOld(src, s.pos, s.d[..t.diff]) + s.e[..t.extra])
  }

  /** s' is where the patcher stands k triples after s. */
  ghost predicate After(src: bytes, size: nat, s: Reader, k: nat, s': Reader)
    decreases k
  {
    if k == 0 then s' == s else GoesOn(size, s) && After(src, size, NextTriple(src, size, s), k - 1, s')
  }

  /** The next read asks a stream that is cut off for more than it delivers. */
  ghost predicate AsksTooMuch(size: nat, w: Cuts, s: Reader) {
    && |s.acc| < size
    && if |s.c| < 24 then w.ctrl
       else
         var t := ReadCtrl(s.c);
         && 0 <= t.diff <= size - |s.acc| && 0 <= t.extra
         && ((w.diff && t.diff > |s.d|)
             || (w.extra && t.diff <= |s.d| && t.diff + t.extra <= size - |s.acc| && t.extra > |s.e|))
  }

  lemma HangsHere(src: bytes, size: nat, w: Cuts, s: Reader)
    ensures AsksTooMuch(size, w, s) ==> RebuildFrom(src, size, w, s) == Hangs
    ensures RebuildFrom(src, size, w, s) == Hangs ==> AsksTooMuch(size, w, s) || GoesOn(size, s)
    ensures GoesOn(size, s) ==> RebuildFrom(src, size, w, s) == RebuildFrom(src, size, w, NextTriple(src, size, s))
    ensures GoesOn(size, s) ==> !AsksTooMuch(size, w, s)
  {
    hide ReadCtrl, Rebuild;
    if |s.acc| >= size {
      RebuildFull(src, size, s.c, s.d, s.e, w, s.pos, s.acc);
    } else if |s.c| < 24 {
      RebuildShort(src, size, s.c, s.d, s.e, w, s.pos, s.acc);
    } else {
      RebuildStep(src, size, s.c, s.d, s.e, w, s.pos, s.acc);
    }
  }

  /** Some number of triples on, a read asks a stream that is cut off for more than it delivers. */
  ghost predicate WillAskTooMuch(src: bytes, size: nat, w: Cuts, s: Reader) {
    exists k: nat, s' :: After(src, size, s, k, s') && AsksTooMuch(size, w, s')
  }

  lemma WillAskNow(src: bytes, size: nat, w: Cuts, s: Reader)
    ensures AsksTooMuch(size, w, s) ==> WillAskTooMuch(src, size, w, s)
    ensures WillAskTooMuch(src, size, w, s) ==> AsksTooMuch(size, w, s) || GoesOn(size, s)
  {
    hide GoesOn, AsksTooMuch;
    assert After(src, size, s, 0, s);
  }

  lemma WillAskLater(src: bytes, size: nat, w: Cuts, s: Reader)
    requires GoesOn(size, s) && !AsksTooMuch(size, w, s)
    ensures WillAskTooMuch(src, size, w, s) <==> WillAskTooMuch(src, size, w, NextTriple(src, size, s))
  {
    hide GoesOn, AsksTooMuch, NextTriple;
    var n := NextTriple(src, size, s);
    if WillAskTooMuch(src, size, w, s) {
      var k: nat, s' :| After(src, size, s, k, s') && AsksTooMuch(size, w, s');
      assert After(src, size, n, k - 1, s');
    }
    if WillAskTooMuch(src, size, w, n) {
      var k: nat, s' :| After(src, size, n, k, s') && AsksTooMuch(size, w, s');
      assert After(src, size, s, k + 1, s');
    }
  }

  /** For arbitrary streams the patcher never returns if and only if a read asks a stream that is cut off for more
      than it delivers. */
  lemma {:induction false} HangsExactly(src: bytes, size: nat, w: Cuts, s: Reader)
    ensures RebuildFrom(src, size, w, s) == Hangs <==> WillAskTooMuch(src, size, w, s)
    decreases |s.c|
  {
    hide RebuildFrom, GoesOn, AsksTooMuch, WillAskTooMuch;
    HangsHere(src, size, w, s);
    WillAskNow(src, size, w, s);
    if GoesOn(size, s) {
      NextShorter(src, size, s);
      HangsExactly(src, size, w, NextTriple(src, size, s));
      WillAskLater(src, size, w, s);
    }
  }

  lemma NextShorter(src: bytes, size: nat, s: Reader)
    requires GoesOn(size, s)
    ensures |NextTriple(src, size, s).c| < |s.c|
  {
  }

  /** With three complete streams it always returns. */
  lemma WholeStreamsReturn(src: bytes, size: nat, c: bytes, d: bytes, e: bytes, pos: int, acc: bytes)
    ensures !Rebuild(src, size, c, d, e, WHOLE, pos, acc).Hangs?
  {
    HangsExactly(src, size, WHOLE, Reader(c, d, e, pos, acc));
  }

  /** A header and nothing after it: the patcher waits for ever for the first triple, since a decompressor without
      input waits for input. */
  lemma HeaderAlone(bz: Bzip2, src: bytes, size: nat)
    requires bz.expand([]) == Expanded([], false) && 0 < size < 0x8000_0000_0000_0000
    ensures ApplyMem(bz, src, MAGIC + Offtout(0) + Offtout(0) + Offtout(size), 0) == Hangs
  {
    hide Offtin, Offtout;
    OffsetRoundTrip(0);
    OffsetRoundTrip(size);
    var patch := MAGIC + Offtout(0) + Offtout(0) + Offtout(size);
    assert patch[0..8] == MAGIC && patch[8..16] == Offtout(0) && patch[16..24] == Offtout(0);
    assert patch[24..32] == Offtout(size);
    assert patch[32..32] == [] && patch[32..] == [];
  }

  // ----- a patch of one triple -----

  /** The eight bytes at `at` are the number v: least significant byte first, and the sign in the top bit. */
  ghost predicate Holds8(b: bytes, at: nat, v: int) {
    && at + 8 <= |b|
    && var y := Base256(b[at], b[at + 1], b[at + 2], b[at + 3], b[at + 4], b[at + 5], b[at + 6], b[at + 7] % 128);
       v == if b[at + 7] < 128 then y else -y
  }

  lemma HoldsOfftin(b: bytes, at: nat, v: int)
    requires Holds8(b, at, v)
    ensures Offtin(b[at..at + 8]) == v
  {
    hide Offtin;
    OfftinDigits(b[at..at + 8]);
  }

  /** The patch begins with "BSDIFF40" and the lengths of its first two streams and of the new file. */
  ghost predicate HasHeader(patch: bytes, clen: int, dlen: int, size: int) {
    && |patch| >= 32 && patch[..8] == [0x42, 0x53, 0x44, 0x49, 0x46, 0x46, 0x34, 0x30]
    && Holds8(patch, 8, clen) && Holds8(patch, 16, dlen) && Holds8(patch, 24, size) && 32 + clen + dlen <= |patch|
  }

  /** The control stream holds one triple and ends. */
  ghost predicate OneTriple(c: Expanded, diff: int, extra: int, seek: int) {
    c.ends && |c.data| == 24 && Holds8(c.data, 0, diff) && Holds8(c.data, 8, extra) && Holds8(c.data, 16, seek)
  }

  /** The new file of a patch with one triple: the sums of difference and old bytes, then the extra bytes. */
  ghost predicate Assembled(src: bytes, d: bytes, e: bytes, out: bytes) {
    && |out| == |d| + |e| && out[|d|..] == e
    && forall i :: 0 <= i < |d| ==> IsSum(out[i], d[i], ByteAt(src, i))
  }

  /** What a patch of one triple makes, told by its bytes. */
  lemma AppliesOne(bz: Bzip2, src: bytes, patch: bytes, clen: nat, dlen: nat, seek: int, d: bytes, e: bytes)
    requires HasHeader(patch, clen, dlen, |d| + |e|) && |d| + |e| > 0
    requires OneTriple(bz.expand(patch[32..32 + clen]), |d|, |e|, seek)
    requires bz.expand(patch[32 + clen..32 + clen + dlen]) == Expanded(d, true)
    requires bz.expand(patch[32 + clen + dlen..]) == Expanded(e, true)
    ensures var r := ApplyMem(bz, src, patch, 0); r.Done? && Assembled(src, d, e, r.value)
  {
    hide Offtin, Holds8, AddOld, ByteAdd;
    HoldsOfftin(patch, 8, clen);
    HoldsOfftin(patch, 16, dlen);
    HoldsOfftin(patch, 24, |d| + |e|);
    assert patch[0..8] == patch[..8] == MAGIC;
    var c := bz.expand(patch[32..32 + clen]).data;
    HoldsOfftin(c, 0, |d|);
    HoldsOfftin(c, 8, |e|);
    HoldsOfftin(c, 16, seek);
    RebuildsOne(src, c, d, e, seek);
  }

  lemma RebuildsOne(src: bytes, c: bytes, d: bytes, e: bytes, seek: int)
    requires |c| == 24 && ReadCtrl(c) == Ctrl(|d|, |e|, seek) && |d| + |e| > 0
    ensures var r := Rebuild(src, |d| + |e|, c, d, e, WHOLE, 0, []); r.Done? && Assembled(src, d, e, r.value)
  {
    hide AddOld, ByteAdd, ReadCtrl, IsSum;
    assert d[..|d|] == d && e[..|e|] == e;
    var out := [] + AddOld(src, 0, d) + e;
    assert [] + AddOld(src, 0, d) == AddOld(src, 0, d);
    assert Rebuild(src, |d| + |e|, c, d, e, WHOLE, 0, []) == Done(out);
    forall i | 0 <= i < |d| ensures IsSum(out[i], d[i], ByteAt(src, i)) { AddedIs(src, 0, d, i); }
  }

  /** A patch of one triple with as many zero differences as the old file has bytes gives back the old file. */
  lemma UnchangedFile(bz: Bzip2, src: bytes, patch: bytes, clen: nat, dlen: nat, d: bytes)
    requires src != [] && |d| == |src| && forall i :: 0 <= i < |d| ==> d[i] == 0
    requires HasHeader(patch, clen, dlen, |src|) && OneTriple(bz.expand(patch[32..32 + clen]), |src|, 0, 0)
    requires bz.expand(patch[32 + clen..32 + clen + dlen]) == Expanded(d, true)
    requires bz.expand(patch[32 + clen + dlen..]) == Expanded([], true)
    ensures ApplyMem(bz, src, patch, 0) == Done(src)
  {
    hide HasHeader, OneTriple, ApplyMem;
    AppliesOne(bz, src, patch, clen, dlen, 0, d, []);
    var out := ApplyMem(bz, src, patch, 0).value;
    forall i | 0 <= i < |src| ensures out[i] == src[i] { assert IsSum(out[i], d[i], ByteAt(src, i)); }
    assert out == src;
  }

  lemma HoldsTriple(c: bytes, k: nat, x: int, y: int, z: int)
    requires k + 24 <= |c| && Holds8(c, k, x) && Holds8(c, k + 8, y) && Holds8(c, k + 16, z)
    ensures ReadCtrl(c[k..]) == Ctrl(x, y, z)
  {
    hide Holds8, Offtin;
    HoldsOfftin(c, k, x);
    HoldsOfftin(c, k + 8, y);
    HoldsOfftin(c, k + 16, z);
    assert c[k..][0..8] == c[k..k + 8] && c[k..][8..16] == c[k + 8..k + 16];
    assert c[k..][16..24] == c[k + 16..k + 24];
  }

  /** With two triples, the second goes on in the old file where the first ended, plus its seek. */
  lemma SeeksOn(src: bytes, c: bytes, d: bytes, x: nat, y: nat, seek: int, last: int)
    requires |c| == 48 && Holds8(c, 0, x) && Holds8(c, 8, 0) && Holds8(c, 16, seek)
    requires Holds8(c, 24, y) && Holds8(c, 32, 0) && Holds8(c, 40, last) && 0 < y && |d| == x + y
    ensures var r := Rebuild(src, x + y, c, d, [], WHOLE, 0, []);
            && r.Done? && |r.value| == x + y
            && (forall i :: 0 <= i < x ==> IsSum(r.value[i], d[i], ByteAt(src, i)))
            && (forall i :: x <= i < x + y ==> IsSum(r.value[i], d[i], ByteAt(src, i + seek)))
  {
    hide AddOld, ByteAdd, Holds8, IsSum, ReadCtrl, ByteAt, Rebuild;
    HoldsTriple(c, 0, x, 0, seek);
    HoldsTriple(c, 24, y, 0, last);
    var c2, d1, d2 := c[24..], d[..x], d[x..];
    assert c[0..] == c;
    var out1 := AddOld(src, 0, d1);
    var out := out1 + AddOld(src, x + seek, d2);
    assert [] + out1 + [] == out1 && out + [] == out && d2[..y] == d2;
    var none: bytes := [];
    assert none[..0] == none && none[0..] == none;
    RebuildStep(src, x + y, c, d, [], WHOLE, 0, []);
    RebuildStep(src, x + y, c2, d2, [], WHOLE, x + seek, out1);
    RebuildFull(src, x + y, c2[24..], d2[y..], [], WHOLE, x + seek + y + last, out);
    forall i | 0 <= i < x ensures IsSum(out[i], d[i], ByteAt(src, i)) { AddedIs(src, 0, d1, i); }
    forall i | x <= i < x + y ensures IsSum(out[i], d[i], ByteAt(src, i + seek)) { AddedIs(src, x + seek, d2, i - x); }
  }
}
