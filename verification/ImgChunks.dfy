/** Cutting an image into chunks (applypatch/imgdiff.c).

    zlib is a pair of functions.  `inflate` gives how much of its input a raw deflate stream
    takes up and what it expands to, or nothing if no stream ends there.  `deflate` gives the
    compressed stream, or nothing if the parameters are refused. */
module ImgChunks {
  import opened Suffixes
  import opened ImgCodec

  datatype Option<+T> = None | Some(value: T)

  datatype Inflated = Inflated(consumed: nat, output: bytes)

  datatype Params = Params(level: int, compression: int, windowBits: int, memLevel: int, strategy: int)

  datatype Zlib = Zlib(inflate: bytes -> Option<Inflated>, deflate: (Params, bytes) -> Option<bytes>) {
    /** Where a stream ends and what it holds is decided by its own bytes alone, and the levels imgdiff tries are
        accepted. */
    ghost predicate Sound() {
      && (forall s: bytes :: inflate(s).Some? ==>
            inflate(s).value.consumed <= |s| && inflate(s[..inflate(s).value.consumed]) == inflate(s))
      && (forall s: bytes :: deflate(EncoderLevel(6), s).Some? && deflate(EncoderLevel(9), s).Some?)
    }
  }

  /** The parameters imgdiff tries: zlib's raw format with the default window, memory level and strategy. */
  function EncoderLevel(level: int): (p: Params) { Params(level, 8, -15, 8, 0) }

  const GZIP_HEADER_LEN: nat := 10
  const GZIP_FOOTER_LEN: nat := 8
  const GZIP_MAGIC: bytes := [0x1f, 0x8b, 0x08, 0x00]
  const PADDING: bytes := [0, 0, 0, 0]

  /** `data` is where the data of a normal chunk begins in the image; the data of a deflate
      chunk is the expanded content, `len` its length, and the stream itself is deflateLen bytes. */
  datatype Chunk =
    | Normal(start: nat, len: nat, data: nat)
    | Deflate(start: nat, len: nat, content: bytes, deflateLen: nat, params: Params)

  /** How many bytes of the image a chunk stands for. */
  function Extent(c: Chunk): nat {
    if c.Normal? then c.len else c.deflateLen
  }

  /** The chunks from index i on follow each other without gaps from `from` to `end`. */
  ghost predicate Tiles(cs: seq<Chunk>, from: nat, end: nat)
    decreases |cs|
  {
    if cs == [] then from == end
    else cs[0].start == from && from + Extent(cs[0]) <= end && Tiles(cs[1..], from + Extent(cs[0]), end)
  }

  /** A chunk is what the image `img` (of `size` bytes, then padding) holds at its place. */
  ghost predicate Valid(z: Zlib, img: bytes, size: nat, c: Chunk) {
    match c
    case Normal(start, len, data) => data == start && start + len <= |img|
    case Deflate(start, len, content, dlen, _) =>
      && start + dlen <= size <= |img| && len == |content| < TWO31
      && z.inflate(img[start..size]) == Some(Inflated(dlen, content))
  }

  // ----- ReadImage -----

  /** Stuck stands for a loop that never ends. */
  datatype ReadResult = Chunks(chunks: seq<Chunk>) | BadFooter | Stuck | OutOfBounds

  predicate GzipAt(img: bytes, p: nat) {
    p + 4 <= |img| && img[p..p + 4] == GZIP_MAGIC
  }

  /** How far from pos the next gzip magic is, or the end of the file. */
  function ScanLen(img: bytes, size: nat, pos: nat): (n: nat)
    requires pos <= size
    ensures pos + n <= size
    ensures pos + n < size ==> GzipAt(img, pos + n)
    ensures forall k :: pos <= k < pos + n ==> !GzipAt(img, k)
    decreases size - pos
  {
    if pos == size || GzipAt(img, pos) then 0 else 1 + ScanLen(img, size, pos + 1)
  }

  const NO_PARAMS: Params := Params(0, 0, 0, 0, 0)

  /** One round of the loop of `ReadImage`: either it ends the program or it adds chunks and moves on. */
  datatype Step = Halt(result: ReadResult) | Piece(chunks: seq<Chunk>, next: nat)

  function NextPiece(z: Zlib, img: bytes, size: nat, pos: nat): (s: Step)
    requires |img| == size + 4 && pos < size
    ensures s.Piece? ==> pos < s.next <= |img|
    ensures s.Halt? ==> !s.result.Chunks?
  {
    if size - pos >= 4 && GzipAt(img, pos) then
      var p := pos + GZIP_HEADER_LEN;
      if p > size then Halt(OutOfBounds)
      else match z.inflate(img[p..size])
        case None => Halt(Stuck)
        case Some(i) =>
          var f := p + i.consumed;
          if f > size || f + GZIP_FOOTER_LEN > |img| then Halt(OutOfBounds)
          else if Read4(img[f + 4..f + 8]) != |i.output| then Halt(BadFooter)
          else Piece([Normal(pos, GZIP_HEADER_LEN, pos),
                      Deflate(p, |i.output|, i.output, i.consumed, NO_PARAMS),
                      Normal(f, GZIP_FOOTER_LEN, f)], f + GZIP_FOOTER_LEN)
    else
      var n := ScanLen(img, size, pos);
      if n == 0 then Halt(Stuck) else Piece([Normal(pos, n, pos)], pos + n)
  }

  /** What `ReadImage` does from position pos of the file, whose bytes are followed by four zeros in img. */
  function ReadFrom(z: Zlib, img: bytes, size: nat, pos: nat): (r: ReadResult)
    requires |img| == size + 4
    decreases size - pos
  {
    if pos >= size then Chunks([])
    else match NextPiece(z, img, size, pos)
      case Halt(r) => r
      case Piece(cs, next) => Prepend(cs, ReadFrom(z, img, size, next))
  }

  function Prepend(cs: seq<Chunk>, r: ReadResult): (r': ReadResult) {
    if r.Chunks? then Chunks(cs + r.chunks) else r
  }

  /** The end of the last chunk. */
  ghost function EndOf(cs: seq<Chunk>, from: nat): (e: nat)
    decreases |cs|
  {
    if cs == [] then from else EndOf(cs[1..], from + Extent(cs[0]))
  }

  ghost predicate AllValid(z: Zlib, img: bytes, size: nat, cs: seq<Chunk>) {
    forall i :: 0 <= i < |cs| ==> Valid(z, img, size, cs[i])
  }

  lemma {:induction false} TilesAppend(a: seq<Chunk>, b: seq<Chunk>, from: nat, mid: nat, end: nat)
    requires Tiles(a, from, mid) && Tiles(b, mid, end) && mid <= end
    ensures Tiles(a + b, from, end)
    decreases |a|
  {
    if a == [] {
      assert a + b == b;
    } else {
      assert (a + b)[1..] == a[1..] + b;
      TilesAppend(a[1..], b, from + Extent(a[0]), mid, end);
    }
  }

  lemma PieceTiles(z: Zlib, img: bytes, size: nat, pos: nat)
    requires z.Sound() && |img| == size + 4 && pos < size && NextPiece(z, img, size, pos).Piece?
    ensures var s := NextPiece(z, img, size, pos);
            Tiles(s.chunks, pos, s.next) && AllValid(z, img, size, s.chunks)
  {
    hide Read4, GzipAt, ScanLen;
    var s := NextPiece(z, img, size, pos);
    if |s.chunks| == 1 {
      OneTile(s.chunks[0]);
    } else {
      HeadTiles(s.chunks[0], s.chunks[1], s.chunks[2], pos);
    }
  }

  /** The chunks of an image tile it, reach its end, and run over it by no more than the padding. */
  lemma {:induction false} ReadTiles(z: Zlib, img: bytes, size: nat, pos: nat) returns (end: nat)
    requires z.Sound() && |img| == size + 4 && pos <= |img| && ReadFrom(z, img, size, pos).Chunks?
    ensures pos <= end && size <= end <= |img|
    ensures Tiles(ReadFrom(z, img, size, pos).chunks, pos, end)
    ensures AllValid(z, img, size, ReadFrom(z, img, size, pos).chunks)
    decreases size - pos
  {
    hide NextPiece, Tiles, Valid;
    if pos >= size {
      end := pos;
      NoTiles(pos);
    } else {
      var s := NextPiece(z, img, size, pos);
      end := ReadTiles(z, img, size, s.next);
      PieceTiles(z, img, size, pos);
      TilesAppend(s.chunks, ReadFrom(z, img, size, s.next).chunks, pos, s.next, end);
    }
  }

  lemma NoTiles(pos: nat)
    ensures Tiles([], pos, pos)
  {
  }

  lemma OneTile(c: Chunk)
    ensures Tiles([c], c.start, c.start + Extent(c))
  {
  }

  lemma HeadTiles(a: Chunk, b: Chunk, c: Chunk, pos: nat)
    requires a.start == pos && b.start == pos + Extent(a) && c.start == b.start + Extent(b)
    ensures Tiles([a, b, c], pos, c.start + Extent(c))
  {
    assert [a, b, c][1..] == [b, c] && [b, c][1..] == [c];
    OneTile(c);
  }

  /** The scan finds no normal bytes exactly at a file tail of 1f 8b 08, which the padding completes to a magic. */
  lemma ScanStuck(file: bytes, pos: nat)
    requires pos < |file| && !(|file| - pos >= 4 && GzipAt(file + PADDING, pos))
    ensures ScanLen(file + PADDING, |file|, pos) == 0 <==> file[pos..] == [0x1f, 0x8b, 0x08]
  {
    hide GzipAt, ScanLen;
    var img := file + PADDING;
    ScanAgain(img, |file|, pos);
    MagicBytes(img, pos);
    TailThree(file, pos);
    assert forall k :: |file| <= k < |img| ==> img[k] == 0;
  }

  lemma TailThree(file: bytes, pos: nat)
    requires pos <= |file|
    ensures file[pos..] == [0x1f, 0x8b, 0x08] <==>
            |file| == pos + 3 && file[pos] == 0x1f && file[pos + 1] == 0x8b && file[pos + 2] == 0x08
  {
    if |file| == pos + 3 { assert file[pos..] == [file[pos], file[pos + 1], file[pos + 2]]; }
  }

  /** Where the scan of a file without a complete magic ends. */
  lemma PlainScan(file: bytes)
    requires file != [] && forall p :: 0 <= p <= |file| - 4 ==> !GzipAt(file + PADDING, p)
    ensures var n := ScanLen(file + PADDING, |file|, 0);
            if EndsInMagic(file) then n == |file| - 3 else n == |file|
  {
    hide GzipAt, ScanLen, EndsInMagic;
    var img, size := file + PADDING, |file|;
    var n := ScanLen(img, size, 0);
    if n < size {
      ScanAgain(img, size, n);
      LastMagic(file, n);
    } else {
      NoLastMagic(file);
    }
  }

  lemma LastMagic(file: bytes, n: nat)
    requires n < |file| && GzipAt(file + PADDING, n) && !(|file| - n >= 4)
    ensures EndsInMagic(file) && n == |file| - 3
  {
    hide GzipAt;
    MagicBytes(file + PADDING, n);
    assert forall k :: |file| <= k < |file| + 4 ==> (file + PADDING)[k] == 0;
    TailThree(file, n);
  }

  lemma NoLastMagic(file: bytes)
    requires |file| >= 3 ==> !GzipAt(file + PADDING, |file| - 3)
    ensures !EndsInMagic(file)
  {
    hide GzipAt;
    if |file| >= 3 {
      MagicBytes(file + PADDING, |file| - 3);
      TailThree(file, |file| - 3);
    }
  }

  predicate EndsInMagic(file: bytes) {
    |file| >= 3 && file[|file| - 3..] == [0x1f, 0x8b, 0x08]
  }

  lemma ScanAgain(img: bytes, size: nat, n: nat)
    requires n < size
    ensures ScanLen(img, size, n) == 0 <==> GzipAt(img, n)
  {
  }

  /** A file without a complete magic is one chunk, unless it ends in 1f 8b 08: then reading it never ends. */
  lemma PlainImage(z: Zlib, file: bytes)
    requires file != [] && forall p :: 0 <= p <= |file| - 4 ==> !GzipAt(file + PADDING, p)
    ensures ReadFrom(z, file + PADDING, |file|, 0) ==
            if EndsInMagic(file) then Stuck else Chunks([Normal(0, |file|, 0)])
  {
    hide NextPiece, GzipAt, ScanLen, EndsInMagic;
    var img, size := file + PADDING, |file|;
    PlainScan(file);
    PlainPiece(z, img, size, 0);
    var n := ScanLen(img, size, 0);
    if n < size {
      ScanAgain(img, size, n);
      PlainPiece(z, img, size, n);
    }
  }

  lemma PlainPiece(z: Zlib, img: bytes, size: nat, pos: nat)
    requires |img| == size + 4 && pos < size && !(size - pos >= 4 && GzipAt(img, pos))
    ensures var n := ScanLen(img, size, pos);
            NextPiece(z, img, size, pos) == if n == 0 then Halt(Stuck) else Piece([Normal(pos, n, pos)], pos + n)
  {
  }

  // ----- the positions the loop reaches -----

  /** The loop, standing at pos, comes to p. */
  ghost predicate Reached(z: Zlib, img: bytes, size: nat, pos: nat, p: nat)
    requires |img| == size + 4
    decreases size - pos
  {
    && pos < size
    && (p == pos || var s := NextPiece(z, img, size, pos); s.Piece? && Reached(z, img, size, s.next, p))
  }

  lemma {:induction false} ReachedBounds(z: Zlib, img: bytes, size: nat, pos: nat, p: nat)
    requires |img| == size + 4 && Reached(z, img, size, pos, p)
    ensures pos <= p < size
    decreases size - pos
  {
    hide NextPiece;
    if p != pos { ReachedBounds(z, img, size, NextPiece(z, img, size, pos).next, p); }
  }

  ghost predicate HaltsAt(z: Zlib, img: bytes, size: nat, p: nat, r: ReadResult)
    requires |img| == size + 4
  {
    p < size && NextPiece(z, img, size, p) == Halt(r)
  }

  /** Reading ends in r, other than with a list of chunks, if and only if the loop comes to a place where it halts
      so. */
  lemma {:induction false} ReadHalts(z: Zlib, img: bytes, size: nat, pos: nat, r: ReadResult)
    requires |img| == size + 4 && !r.Chunks?
    ensures ReadFrom(z, img, size, pos) == r <==>
            exists p: nat :: Reached(z, img, size, pos, p) && HaltsAt(z, img, size, p, r)
    decreases size - pos
  {
    hide NextPiece;
    if pos < size {
      var s := NextPiece(z, img, size, pos);
      if s.Halt? {
        if s.result == r { assert Reached(z, img, size, pos, pos) && HaltsAt(z, img, size, pos, r); }
      } else {
        ReadHalts(z, img, size, s.next, r);
        if ReadFrom(z, img, size, s.next) == r {
          var p: nat :| Reached(z, img, size, s.next, p) && HaltsAt(z, img, size, p, r);
          assert Reached(z, img, size, pos, p);
        }
      }
    }
  }

  /** A gzip member begins at p. */
  predicate Member(file: bytes, p: nat) {
    p + 4 <= |file| && file[p..p + 4] == GZIP_MAGIC
  }

  /** What inflating the member at p gives, if its header is complete. */
  function StreamAt(z: Zlib, file: bytes, p: nat): (i: Option<Inflated>) {
    if p + GZIP_HEADER_LEN <= |file| then z.inflate(file[p + GZIP_HEADER_LEN..]) else None
  }

  /** Where the trailer of the member at p ends. */
  function TrailerEnd(z: Zlib, file: bytes, p: nat): (n: nat) {
    var s := StreamAt(z, file, p);
    if s.Some? then p + GZIP_HEADER_LEN + s.value.consumed + GZIP_FOOTER_LEN else 0
  }

  lemma MemberAt(file: bytes, p: nat)
    ensures Member(file, p) <==> |file| - p >= 4 && GzipAt(file + PADDING, p)
  {
    if p + 4 <= |file| { assert (file + PADDING)[p..p + 4] == file[p..p + 4]; }
  }

  /** Why the loop makes no progress at p: three bytes are left that look like a member, or the member has a complete
      header but no stream. */
  ghost predicate NoProgress(z: Zlib, file: bytes, p: nat) {
    || (p <= |file| && file[p..] == [0x1f, 0x8b, 0x08])
    || (Member(file, p) && p + GZIP_HEADER_LEN <= |file| && StreamAt(z, file, p).None?)
  }

  /** The member at p runs over the end of the padded image. */
  ghost predicate OverEnd(z: Zlib, file: bytes, p: nat) {
    && Member(file, p)
    && (|| p + GZIP_HEADER_LEN > |file|
        || (StreamAt(z, file, p).Some? && TrailerEnd(z, file, p) > |file| + 4))
  }

  lemma HaltReasons(z: Zlib, file: bytes, p: nat)
    requires z.Sound() && p < |file|
    ensures HaltsAt(z, file + PADDING, |file|, p, Stuck) <==> NoProgress(z, file, p)
    ensures HaltsAt(z, file + PADDING, |file|, p, OutOfBounds) <==> OverEnd(z, file, p)
  {
    hide ScanLen, Read4, GzipAt, Member;
    var img := file + PADDING;
    MemberAt(file, p);
    if Member(file, p) {
      assert |file| - p >= 4;
      if p + GZIP_HEADER_LEN <= |file| { assert img[p + GZIP_HEADER_LEN..|file|] == file[p + GZIP_HEADER_LEN..]; }
    } else {
      ScanStuck(file, p);
    }
  }

  /** Reading an image never ends if and only if the loop comes to a place where it makes no progress. */
  lemma NeverEnds(z: Zlib, file: bytes)
    requires z.Sound()
    ensures ReadFrom(z, file + PADDING, |file|, 0) == Stuck <==>
            exists p: nat :: Reached(z, file + PADDING, |file|, 0, p) && NoProgress(z, file, p)
  {
    hide ReadFrom, NoProgress, HaltsAt;
    var img := file + PADDING;
    ReadHalts(z, img, |file|, 0, Stuck);
    forall p: nat | Reached(z, img, |file|, 0, p)
      ensures HaltsAt(z, img, |file|, p, Stuck) <==> NoProgress(z, file, p)
    {
      ReachedBounds(z, img, |file|, 0, p);
      HaltReasons(z, file, p);
    }
  }

  /** It leaves the buffer if and only if the loop comes to a member that runs over the end of the padded image. */
  lemma LeavesBuffer(z: Zlib, file: bytes)
    requires z.Sound()
    ensures ReadFrom(z, file + PADDING, |file|, 0) == OutOfBounds <==>
            exists p: nat :: Reached(z, file + PADDING, |file|, 0, p) && OverEnd(z, file, p)
  {
    hide ReadFrom, OverEnd, HaltsAt;
    var img := file + PADDING;
    ReadHalts(z, img, |file|, 0, OutOfBounds);
    forall p: nat | Reached(z, img, |file|, 0, p)
      ensures HaltsAt(z, img, |file|, p, OutOfBounds) <==> OverEnd(z, file, p)
    {
      ReachedBounds(z, img, |file|, 0, p);
      HaltReasons(z, file, p);
    }
  }

  /** A file of nothing but a gzip magic is one. */
  lemma BareMagic(z: Zlib)
    ensures ReadFrom(z, GZIP_MAGIC + PADDING, 4, 0) == OutOfBounds
  {
    assert (GZIP_MAGIC + PADDING)[0..4] == GZIP_MAGIC;
    assert NextPiece(z, GZIP_MAGIC + PADDING, 4, 0) == Halt(OutOfBounds);
  }

  // ----- complete trailers -----

  /** Every gzip member the loop comes to from pos on has all of its trailer in the file. */
  ghost predicate TrailersComplete(z: Zlib, file: bytes, pos: nat) {
    forall p: nat :: Reached(z, file + PADDING, |file|, pos, p) && Member(file, p) ==> TrailerEnd(z, file, p) <= |file|
  }

  lemma TrailersFrom(z: Zlib, file: bytes, pos: nat)
    requires pos < |file| && NextPiece(z, file + PADDING, |file|, pos).Piece?
    ensures TrailersComplete(z, file, pos) <==>
            (Member(file, pos) ==> TrailerEnd(z, file, pos) <= |file|)
            && TrailersComplete(z, file, NextPiece(z, file + PADDING, |file|, pos).next)
  {
    hide NextPiece, Member, TrailerEnd;
    var img := file + PADDING;
    var next := NextPiece(z, img, |file|, pos).next;
    assert forall p: nat :: Reached(z, img, |file|, pos, p) <==> p == pos || Reached(z, img, |file|, next, p);
  }

  lemma PieceEnd(z: Zlib, file: bytes, pos: nat)
    requires pos < |file| && NextPiece(z, file + PADDING, |file|, pos).Piece?
    ensures var next := NextPiece(z, file + PADDING, |file|, pos).next;
            if Member(file, pos) then next == TrailerEnd(z, file, pos) else next <= |file|
  {
    hide ScanLen, Read4, GzipAt, Member;
    MemberAt(file, pos);
    if Member(file, pos) {
      var h := pos + GZIP_HEADER_LEN;
      if h <= |file| { assert (file + PADDING)[h..|file|] == file[h..]; }
    }
  }

  /** The chunks end where the file ends if and only if all trailers are complete. */
  lemma {:induction false} EndsExactly(z: Zlib, file: bytes, pos: nat, end: nat)
    requires z.Sound() && pos <= |file| && ReadFrom(z, file + PADDING, |file|, pos).Chunks?
    requires Tiles(ReadFrom(z, file + PADDING, |file|, pos).chunks, pos, end)
    ensures end == |file| <==> TrailersComplete(z, file, pos)
    decreases |file| - pos
  {
    hide NextPiece, Tiles, Valid, Member, TrailerEnd, TrailersComplete;
    var img, size := file + PADDING, |file|;
    if pos == size {
      NoTilesEnd(pos, end);
      NothingReached(z, file, pos);
    } else {
      var s := NextPiece(z, img, size, pos);
      var rest := ReadFrom(z, img, size, s.next).chunks;
      PieceTiles(z, img, size, pos);
      var e := ReadTiles(z, img, size, s.next);
      TilesAppend(s.chunks, rest, pos, s.next, e);
      TilesSame(s.chunks + rest, pos, e, end);
      TrailersFrom(z, file, pos);
      PieceEnd(z, file, pos);
      if s.next <= size {
        EndsExactly(z, file, s.next, e);
      } else {
        NothingReached(z, file, s.next);
      }
    }
  }

  lemma NoTilesEnd(pos: nat, end: nat)
    ensures Tiles([], pos, end) <==> pos == end
  {
  }

  lemma NothingReached(z: Zlib, file: bytes, pos: nat)
    requires pos >= |file|
    ensures TrailersComplete(z, file, pos)
  {
  }

  lemma {:induction false} TilesSame(cs: seq<Chunk>, from: nat, a: nat, b: nat)
    requires Tiles(cs, from, a) && Tiles(cs, from, b)
    ensures a == b
    decreases |cs|
  {
    if cs != [] { TilesSame(cs[1..], from + Extent(cs[0]), a, b); }
  }

  /** One round of the loop of `ReadImage`. */
  method ReadPiece(z: Zlib, img: bytes, size: nat, pos: nat) returns (s: Step)
    requires |img| == size + 4 && pos < size
    ensures s == NextPiece(z, img, size, pos)
  {
    hide ScanLen;
    if size - pos >= 4 && GzipAt(img, pos) {
      var p := pos + GZIP_HEADER_LEN;
      if p > size { return Halt(OutOfBounds); }
      var inflated := z.inflate(img[p..size]);
      if inflated.None? { return Halt(Stuck); }
      var i := inflated.value;
      var f := p + i.consumed;
      if f > size || f + GZIP_FOOTER_LEN > |img| { return Halt(OutOfBounds); }
      if Read4(img[f + 4..f + 8]) != |i.output| { return Halt(BadFooter); }
      return Piece([Normal(pos, GZIP_HEADER_LEN, pos),
                    Deflate(p, |i.output|, i.output, i.consumed, NO_PARAMS),
                    Normal(f, GZIP_FOOTER_LEN, f)], f + GZIP_FOOTER_LEN);
    }
    var n := Scan(img, size, pos);
    if n == 0 { return Halt(Stuck); }
    return Piece([Normal(pos, n, pos)], pos + n);
  }

  /** `ReadImage` */
  method ReadImage(z: Zlib, file: bytes) returns (r: ReadResult)
    ensures r == ReadFrom(z, file + PADDING, |file|, 0)
  {
    hide NextPiece;
    var img := file + PADDING;
    var size := |file|;
    var pos := 0;
    var chunks := [];
    ghost var goal := ReadFrom(z, img, size, 0);
    PrependNone(goal);
    while pos < size
      invariant Prepend(chunks, ReadFrom(z, img, size, pos)) == goal
      decreases size - pos
    {
      var s := ReadPiece(z, img, size, pos);
      if s.Halt? { return s.result; }
      PrependTwice(chunks, s.chunks, ReadFrom(z, img, size, s.next));
      chunks := chunks + s.chunks;
      pos := s.next;
    }
    assert chunks + [] == chunks;
    return Chunks(chunks);
  }

  lemma PrependNone(r: ReadResult)
    ensures Prepend([], r) == r
  {
  }

  lemma PrependTwice(a: seq<Chunk>, b: seq<Chunk>, r: ReadResult)
    ensures Prepend(a, Prepend(b, r)) == Prepend(a + b, r)
  {
  }

  lemma MagicBytes(img: bytes, k: nat)
    requires k + 4 <= |img|
    ensures GzipAt(img, k) <==> img[k] == 0x1f && img[k + 1] == 0x8b && img[k + 2] == 0x08 && img[k + 3] == 0x00
  {
  }

  /** The loop that looks for the next gzip magic. */
  method Scan(img: bytes, size: nat, pos: nat) returns (n: nat)
    requires pos <= size && |img| == size + 4
    ensures n == ScanLen(img, size, pos)
  {
    hide GzipAt;
    n := 0;
    while n < size - pos
      invariant 0 <= n <= size - pos && n + ScanLen(img, size, pos + n) == ScanLen(img, size, pos)
    {
      var k := pos + n;
      MagicBytes(img, k);
      if img[k] == 0x1f && img[k + 1] == 0x8b && img[k + 2] == 0x08 && img[k + 3] == 0x00 { break; }
      n := n + 1;
    }
  }
}
