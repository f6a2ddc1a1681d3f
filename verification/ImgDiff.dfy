/** `main` of applypatch/imgdiff.c in image mode: from two images to a patch that turns one into the other. */
module ImgDiff {
  import opened Suffixes
  import opened BsPatch
  import opened BsDiff
  import opened ImgCodec
  import opened ImgChunks
  import opened ImgMerge
  import opened ImgPatch
  import opened ImgHeader

  // ----- recompression -----

  const BUFFER_SIZE: nat := 32768

  /** `TryReconstruction`: does compressing the content give back the stream, compared buffer by buffer? */
  method TryReconstruction(z: Zlib, content: bytes, stream: bytes, params: Params) returns (ok: bool)
    requires z.deflate(params, content).Some?
    ensures ok <==> z.deflate(params, content) == Some(stream)
  {
    var out := z.deflate(params, content).value;
    var p := 0;
    var more := true;
    while more
      invariant 0 <= p <= |out| && p <= |stream| && out[..p] == stream[..p]
      invariant !more ==> p == |out|
      decreases |out| - p, more
    {
      var have := if |out| - p < BUFFER_SIZE then |out| - p else BUFFER_SIZE;
      if p + have > |stream| || out[p..p + have] != stream[p..p + have] {
        return false;
      }
      assert out[..p + have] == out[..p] + out[p..p + have] && stream[..p + have] == stream[..p] + stream[p..p + have];
      p := p + have;
      more := p < |out|;
    }
    assert out[..p] == out;
    ok := p == |stream|;
    assert ok ==> stream[..p] == stream;
  }

  /** The first of the levels 6 and 9 that reproduces the stream. */
  ghost function FindLevel(z: Zlib, content: bytes, stream: bytes): (r: Option<Params>)
    ensures r.Some? ==> z.deflate(r.value, content) == Some(stream) && Fits(r.value)
    ensures r.None? ==> z.deflate(EncoderLevel(6), content) != Some(stream)
    ensures r.None? ==> z.deflate(EncoderLevel(9), content) != Some(stream)
  {
    if z.deflate(EncoderLevel(6), content) == Some(stream) then Some(EncoderLevel(6))
    else if z.deflate(EncoderLevel(9), content) == Some(stream) then Some(EncoderLevel(9))
    else None
  }

  /** `ReconstructDeflateChunk` */
  method ReconstructDeflateChunk(z: Zlib, content: bytes, stream: bytes) returns (r: Option<Params>)
    requires z.Sound()
    ensures r == FindLevel(z, content, stream)
  {
    var level := 6;
    while level <= 9
      invariant level == 6 || level == 9 || level == 12
      invariant level > 6 ==> z.deflate(EncoderLevel(6), content) != Some(stream)
      invariant level > 9 ==> z.deflate(EncoderLevel(9), content) != Some(stream)
    {
      var ok := TryReconstruction(z, content, stream, EncoderLevel(level));
      if ok { return Some(EncoderLevel(level)); }
      level := level + 3;
    }
    return None;
  }

  // ----- rewriting the chunk lists -----

  /** `ChangeDeflateChunkToNormal` */
  function ToNormal(c: Chunk): (c': Chunk)
    ensures c'.Normal? && c'.start == c.start && Extent(c') == Extent(c)
  {
    if c.Normal? then c else Normal(c.start, c.deflateLen, c.start)
  }

  function Stream(img: bytes, c: Chunk): (s: bytes)
    requires c.Deflate?
  {
    if c.start + c.deflateLen <= |img| then img[c.start..c.start + c.deflateLen] else []
  }

  /** What the loop over the target chunks does with one pair of chunks. */
  ghost function RewritePair(z: Zlib, simg: bytes, timg: bytes, s: Chunk, t: Chunk): (r: (Chunk, Chunk)) {
    if t.Normal? then (s, t)
    else match FindLevel(z, t.content, Stream(timg, t))
      case None => (ToNormal(s), ToNormal(t))
      case Some(params) =>
        if s.Deflate? && Stream(simg, s) == Stream(timg, t) then (ToNormal(s), ToNormal(t))
        else (s, t.(params := params))
  }

  /** The loop over the target chunks: streams that cannot be reproduced, and equal ones, become normal chunks. */
  method RewriteChunks(z: Zlib, simg: bytes, timg: bytes, srcs: array<Chunk>, tgts: array<Chunk>, num: nat)
    requires z.Sound() && srcs != tgts && num <= srcs.Length && num <= tgts.Length
    modifies srcs, tgts
    ensures forall i :: 0 <= i < num ==>
      (srcs[i], tgts[i]) == RewritePair(z, simg, timg, old(srcs[i]), old(tgts[i]))
  {
    hide FindLevel, Stream, ToNormal;
    var i := 0;
    while i < num
      invariant 0 <= i <= num
      invariant forall k :: 0 <= k < i ==>
        (srcs[k], tgts[k]) == RewritePair(z, simg, timg, old(srcs[k]), old(tgts[k]))
      invariant forall k :: i <= k < num ==> srcs[k] == old(srcs[k]) && tgts[k] == old(tgts[k])
    {
      if tgts[i].Deflate? {
        var level := ReconstructDeflateChunk(z, tgts[i].content, Stream(timg, tgts[i]));
        if level.None? || (srcs[i].Deflate? && Stream(simg, srcs[i]) == Stream(timg, tgts[i])) {
          tgts[i] := ToNormal(tgts[i]);
          srcs[i] := ToNormal(srcs[i]);
        } else {
          tgts[i] := tgts[i].(params := level.value);
        }
      }
      i := i + 1;
    }
  }

  /** Chunk lists of the two images that correspond to each other. */
  ghost predicate Parallel(z: Zlib, src: bytes, tgt: bytes, ss: seq<Chunk>, ts: seq<Chunk>, send: nat, tend: nat) {
    && SameKinds(ss, ts)
    && Tiles(ss, 0, send) && AllValid(z, src + PADDING, |src|, ss) && send <= |src| + 4
    && Tiles(ts, 0, tend) && AllValid(z, tgt + PADDING, |tgt|, ts) && tend <= |tgt| + 4
  }

  /** Every deflate chunk of the target can be reproduced with its parameters. */
  ghost predicate Reproducible(z: Zlib, timg: bytes, ts: seq<Chunk>) {
    forall i :: 0 <= i < |ts| && ts[i].Deflate? ==>
      Fits(ts[i].params) && z.deflate(ts[i].params, ts[i].content) == Some(Stream(timg, ts[i]))
  }

  /** Replacing chunks by chunks of the same extent keeps the tiling. */
  lemma {:induction false} TilesReplace(a: seq<Chunk>, b: seq<Chunk>, from: nat, end: nat)
    requires |a| == |b| && Tiles(a, from, end)
    requires forall i :: 0 <= i < |a| ==> b[i].start == a[i].start && Extent(b[i]) == Extent(a[i])
    ensures Tiles(b, from, end)
    decreases |a|
  {
    if a != [] { TilesReplace(a[1..], b[1..], from + Extent(a[0]), end); }
  }

  /** Rewriting keeps the lists parallel and makes the target reproducible. */
  lemma RewriteKeeps(z: Zlib, src: bytes, tgt: bytes, ss: seq<Chunk>, ts: seq<Chunk>, ss': seq<Chunk>, ts': seq<Chunk>,
                     send: nat, tend: nat)
    requires Parallel(z, src, tgt, ss, ts, send, tend) && |ss'| == |ts'| == |ss|
    requires forall i :: 0 <= i < |ss| ==>
               (ss'[i], ts'[i]) == RewritePair(z, src + PADDING, tgt + PADDING, ss[i], ts[i])
    ensures Parallel(z, src, tgt, ss', ts', send, tend) && Reproducible(z, tgt + PADDING, ts')
  {
    forall i | 0 <= i < |ss|
      ensures ss'[i].start == ss[i].start && Extent(ss'[i]) == Extent(ss[i]) && Valid(z, src + PADDING, |src|, ss'[i])
      ensures ts'[i].start == ts[i].start && Extent(ts'[i]) == Extent(ts[i]) && Valid(z, tgt + PADDING, |tgt|, ts'[i])
      ensures ss'[i].Normal? == ts'[i].Normal?
      ensures ts'[i].Deflate? ==>
                Fits(ts'[i].params) && z.deflate(ts'[i].params, ts'[i].content) == Some(Stream(tgt + PADDING, ts'[i]))
    {
      PairKeeps(z, src + PADDING, |src|, tgt + PADDING, |tgt|, ss[i], ts[i]);
    }
    hide Valid, RewritePair, Fits, Stream;
    TilesReplace(ss, ss', 0, send);
    TilesReplace(ts, ts', 0, tend);
  }

  lemma PairKeeps(z: Zlib, simg: bytes, ssize: nat, timg: bytes, tsize: nat, s: Chunk, t: Chunk)
    requires Valid(z, simg, ssize, s) && Valid(z, timg, tsize, t) && s.Normal? == t.Normal?
    ensures var (s', t') := RewritePair(z, simg, timg, s, t);
            && s'.start == s.start && Extent(s') == Extent(s) && Valid(z, simg, ssize, s')
            && t'.start == t.start && Extent(t') == Extent(t) && Valid(z, timg, tsize, t')
            && s'.Normal? == t'.Normal?
            && (t'.Deflate? ==> Fits(t'.params) && z.deflate(t'.params, t'.content) == Some(Stream(timg, t')))
  {
  }

  lemma {:induction false} MergedReproducible(z: Zlib, img: bytes, cs: seq<Chunk>, i: nat)
    requires Reproducible(z, img, cs) && i <= |cs|
    ensures Reproducible(z, img, Merged(cs, i))
    decreases |cs| - i
  {
    if i < |cs| {
      var j := RunEnd(cs, i);
      BlockKind(cs, i, j);
      RunOrder(cs, i);
      assert Block(cs, i, j).Deflate? ==> Block(cs, i, j) == cs[i];
      hide RunEnd, Block, Fits, Stream;
      MergedReproducible(z, img, cs, j);
    }
  }

  /** Merging both lists keeps them parallel: their numbers stay equal. */
  lemma MergeParallel(z: Zlib, src: bytes, tgt: bytes, ss: seq<Chunk>, ts: seq<Chunk>, send: nat, tend: nat)
    requires Parallel(z, src, tgt, ss, ts, send, tend)
    ensures Parallel(z, src, tgt, Merged(ss, 0), Merged(ts, 0), send, tend)
  {
    hide Merged, SameKinds, Tiles, AllValid;
    assert ss[0..] == ss && ts[0..] == ts;
    MergedTiles(ss, 0, 0, send);
    MergedTiles(ts, 0, 0, tend);
    MergedValid(z, src + PADDING, |src|, ss, 0, 0, send);
    MergedValid(z, tgt + PADDING, |tgt|, ts, 0, 0, tend);
    TilesSolid(z, src + PADDING, |src|, ss, 0, 0, send);
    TilesSolid(z, tgt + PADDING, |tgt|, ts, 0, 0, tend);
    MergeKeepsKinds(ss, ts, 0);
  }

  // ----- the patches -----

  /** The data of a chunk as the differ sees it. */
  function DataOf(img: bytes, c: Chunk): (d: bytes) {
    match c
    case Normal(_, len, data) => if data + len <= |img| then img[data..data + len] else []
    case Deflate(_, _, content, _, _) => content
  }

  /** The bytes of the image a chunk stands for. */
  ghost function PieceOf(img: bytes, c: Chunk): (d: bytes) {
    if c.start + Extent(c) <= |img| then img[c.start..c.start + Extent(c)] else []
  }

  /** `MakePatch`: sdata is the data of the source chunk, with the bonus data appended where there is any. */
  method MakePatch(z: Zlib, bz: Bzip2, ghost src: bytes, s: Chunk, sdata: bytes, timg: bytes, t: Chunk,
                   ghost bonus: bytes)
    returns (r: Record)
    requires bz.Lossless() && z.Sound() && |src| < TWO31 && |timg| < TWO31 && |bonus| < TWO31
    requires s.Normal? == t.Normal? && Valid(z, src + PADDING, |src|, s) && |timg| >= 4 && Valid(z, timg, |timg| - 4, t)
    requires sdata == DataOf(src + PADDING, s) + (if s.Deflate? then bonus else [])
    requires t.Deflate? ==> Fits(t.params) && z.deflate(t.params, t.content) == Some(Stream(timg, t))
    ensures |Body(r)| < LIMIT && !Overruns(src, r) ==> Makes(z, bz, src, bonus, r, PieceOf(timg, t))
    ensures r.DeflateRecord? <==> t.Deflate?
    ensures r.NormalRecord? ==> t.len > 160 && |r.patch| < t.len && r.srcStart == s.start && r.srcLen == s.len
  {
    hide PatchFor, SuffixArray, Makes, Valid, DataOf, PieceOf, Fits, Stream;
    DataBounds(z, src + PADDING, |src|, s);
    DataBounds(z, timg, |timg| - 4, t);
    var tdata := DataOf(timg, t);
    if t.Normal? {
      RawMakes(z, bz, src, bonus, timg, t);
      if t.len <= 160 { return RawRecord(tdata); }
    }
    var patch, I := BsDiff.BsDiff(bz, sdata, null, tdata);
    if t.Normal? {
      if t.len <= |patch| { return RawRecord(tdata); }
      r := NormalRecord(s.start, s.len, patch);
      if |patch| < LIMIT && s.start + s.len <= |src| { NormalMakes(z, bz, src, bonus, s, timg, t, patch); }
    } else {
      r := DeflateRecord(s.start, s.deflateLen, |sdata|, t.len, t.params, patch);
      if |patch| < LIMIT { DeflateMakes(z, bz, src, bonus, s, timg, t, patch); }
    }
  }

  lemma DataBounds(z: Zlib, img: bytes, size: nat, c: Chunk)
    requires Valid(z, img, size, c)
    ensures |DataOf(img, c)| <= |img| || |DataOf(img, c)| < TWO31
  {
  }

  lemma RawMakes(z: Zlib, bz: Bzip2, src: bytes, bonus: bytes, timg: bytes, t: Chunk)
    requires t.Normal? && |timg| >= 4 && Valid(z, timg, |timg| - 4, t) && |timg| < TWO31
    ensures Makes(z, bz, src, bonus, RawRecord(DataOf(timg, t)), PieceOf(timg, t))
  {
  }

  lemma NormalMakes(z: Zlib, bz: Bzip2, src: bytes, bonus: bytes, s: Chunk, timg: bytes, t: Chunk, patch: bytes)
    requires s.Normal? && t.Normal? && Valid(z, src + PADDING, |src|, s) && |timg| >= 4 && Valid(z, timg, |timg| - 4, t)
    requires PatchFor(bz, DataOf(src + PADDING, s) + [], DataOf(timg, t), patch)
    requires s.start + s.len <= |src| < TWO31
    ensures Makes(z, bz, src, bonus, NormalRecord(s.start, s.len, patch), PieceOf(timg, t))
  {
    hide PatchFor;
    assert DataOf(src + PADDING, s) + [] == src[s.start..s.start + s.len];
  }

  lemma DeflateMakes(z: Zlib, bz: Bzip2, src: bytes, bonus: bytes, s: Chunk, timg: bytes, t: Chunk, patch: bytes)
    requires s.Deflate? && t.Deflate? && Valid(z, src + PADDING, |src|, s) && |timg| >= 4
    requires Valid(z, timg, |timg| - 4, t)
    requires PatchFor(bz, DataOf(src + PADDING, s) + bonus, DataOf(timg, t), patch)
    requires Fits(t.params) && z.deflate(t.params, t.content) == Some(Stream(timg, t))
    requires z.Sound() && |src| < TWO31 && |bonus| < TWO31
    ensures Makes(z, bz, src, bonus,
                  DeflateRecord(s.start, s.deflateLen, |DataOf(src + PADDING, s) + bonus|, t.len, t.params, patch),
                  PieceOf(timg, t))
  {
    hide PatchFor, Fits;
    SourceInflates(z, src, s);
    assert PieceOf(timg, t) == Stream(timg, t) && DataOf(timg, t) == t.content by { StreamPiece(z, timg, t); }
    hide Valid, PieceOf, Stream, DataOf;
    assert PatchFor(bz, s.content + bonus, t.content, patch);
  }

  lemma StreamPiece(z: Zlib, timg: bytes, t: Chunk)
    requires t.Deflate? && |timg| >= 4 && Valid(z, timg, |timg| - 4, t)
    ensures PieceOf(timg, t) == Stream(timg, t) && DataOf(timg, t) == t.content
  {
  }

  /** Inflating just the stream of a source chunk gives the content found when the image was read. */
  lemma SourceInflates(z: Zlib, src: bytes, s: Chunk)
    requires z.Sound() && s.Deflate? && Valid(z, src + PADDING, |src|, s)
    ensures s.start + s.deflateLen <= |src|
    ensures z.inflate(src[s.start..s.start + s.deflateLen]) == Some(Inflated(s.deflateLen, s.content))
  {
    var rest := src[s.start..];
    assert (src + PADDING)[s.start..|src|] == rest;
    assert rest[..s.deflateLen] == src[s.start..s.start + s.deflateLen];
  }

  // ----- the whole program -----

  /** NoReturn: the program never ends.  Unsafe: it would use memory that is not its own. */
  datatype Result = Patch(file: bytes) | Error | NoReturn | Unsafe

  /** How far the chunks of a file reach: to its end, or a little into the padding. */
  ghost function Covered(z: Zlib, file: bytes): (n: nat) {
    match ReadFrom(z, file + PADDING, |file|, 0)
    case Chunks(cs) => EndOf(cs, 0)
    case _ => 0
  }

  ghost function Pieces(img: bytes, cs: seq<Chunk>): (ps: seq<bytes>)
    ensures |ps| == |cs|
  {
    seq(|cs|, i requires 0 <= i < |cs| => PieceOf(img, cs[i]))
  }

  lemma {:induction false} PiecesConcat(img: bytes, cs: seq<Chunk>, from: nat, end: nat)
    requires Tiles(cs, from, end) && from <= end <= |img|
    ensures Concat(Pieces(img, cs)) == img[from..end]
    decreases |cs|
  {
    if cs != [] {
      var mid := from + Extent(cs[0]);
      PiecesConcat(img, cs[1..], mid, end);
      assert Pieces(img, cs)[1..] == Pieces(img, cs[1..]);
      assert img[from..mid] + img[mid..end] == img[from..end];
    }
  }

  lemma {:induction false} TilesEnd(cs: seq<Chunk>, from: nat, end: nat)
    requires Tiles(cs, from, end)
    ensures EndOf(cs, from) == end
    decreases |cs|
  {
    if cs != [] { TilesEnd(cs[1..], from + Extent(cs[0]), end); }
  }

  /** No chunk reaches further than the last one. */
  lemma {:induction false} TilesWithin(cs: seq<Chunk>, from: nat, end: nat, i: nat)
    requires Tiles(cs, from, end) && i < |cs|
    ensures cs[i].start + Extent(cs[i]) <= end
    decreases |cs|
  {
    if i > 0 { TilesWithin(cs[1..], from + Extent(cs[0]), end, i - 1); }
  }

  lemma BodyWithin(rs: seq<Record>, i: nat)
    requires i < |rs|
    ensures |Body(rs[i])| <= |PatchBytes(rs)|
  {
    hide Body, Records, Sizes, Write4;
    var d := LocateBody(rs, i);
  }

  /** What a record has to do with its pair of chunks. */
  ghost predicate RecordFor(z: Zlib, bz: Bzip2, src: bytes, bonus: bytes, s: Chunk, timg: bytes, t: Chunk, r: Record) {
    && (|Body(r)| < LIMIT && !Overruns(src, r) ==> Makes(z, bz, src, bonus, r, PieceOf(timg, t)))
    && (r.NormalRecord? ==> s.Normal? && r.srcStart == s.start && r.srcLen == s.len)
  }

  ghost predicate RecordsFor(z: Zlib, bz: Bzip2, src: bytes, bonus: Option<bytes>, ss: seq<Chunk>, timg: bytes,
                             ts: seq<Chunk>, rs: seq<Record>) {
    && |rs| == |ts| == |ss|
    && forall i :: 0 <= i < |rs| ==> RecordFor(z, bz, src, BonusFor(bonus, i), ss[i], timg, ts[i], rs[i])
  }

  /** Some record has the patcher read more of the source than there is. */
  ghost predicate AnyOverrun(src: bytes, rs: seq<Record>) {
    exists i :: 0 <= i < |rs| && Overruns(src, rs[i])
  }

  lemma {:induction false} FirstOverrun(src: bytes, rs: seq<Record>, i: nat) returns (n: nat)
    requires i <= |rs| && forall k :: 0 <= k < i ==> !Overruns(src, rs[k])
    ensures n <= |rs| && (forall k :: 0 <= k < n ==> !Overruns(src, rs[k])) && (n < |rs| ==> Overruns(src, rs[n]))
    ensures n < |rs| <==> AnyOverrun(src, rs)
    decreases |rs| - i
  {
    hide Overruns;
    if i == |rs| || Overruns(src, rs[i]) { n := i; } else { n := FirstOverrun(src, rs, i + 1); }
  }

  /** The patches of two parallel lists, put together, make the part of the target the lists cover, unless one of them
      overruns the source. */
  lemma RecordsRebuild(z: Zlib, bz: Bzip2, src: bytes, tgt: bytes, bonus: Option<bytes>, ss: seq<Chunk>, ts: seq<Chunk>,
                       send: nat, tend: nat, rs: seq<Record>)
    requires Parallel(z, src, tgt, ss, ts, send, tend) && |ts| < TWO31 && |PatchBytes(rs)| < LIMIT && |src| < TWO31 - 4
    requires RecordsFor(z, bz, src, bonus, ss, tgt + PADDING, ts, rs)
    ensures ApplyImage(z, bz, src, PatchBytes(rs), bonus) ==
            if AnyOverrun(src, rs) then Undefined else Done((tgt + PADDING)[..tend])
  {
    hide Makes, PatchBytes, ApplyImage, Body, AllValid, Tiles, Concat, PieceOf, Overruns, AnyOverrun;
    var ps := Pieces(tgt + PADDING, ts);
    var n := FirstOverrun(src, rs, 0);
    forall i | 0 <= i < n
      ensures Makes(z, bz, src, BonusFor(bonus, i), rs[i], ps[i])
    {
      BodyWithin(rs, i);
      assert RecordFor(z, bz, src, BonusFor(bonus, i), ss[i], tgt + PADDING, ts[i], rs[i]);
    }
    if n < |rs| {
      assert RecordFor(z, bz, src, BonusFor(bonus, n), ss[n], tgt + PADDING, ts[n], rs[n]);
      TilesWithin(ss, 0, send, n);
      OverrunNormal(src, rs[n]);
    }
    PatchRebuilds(z, bz, src, bonus, rs, ps, n);
    PiecesConcat(tgt + PADDING, ts, 0, tend);
  }

  lemma OverrunNormal(src: bytes, r: Record)
    requires Overruns(src, r)
    ensures r.NormalRecord?
  {
  }

  /** Chunk i ends where the next one starts, and the last one where the list ends. */
  lemma {:induction false} TilesNext(cs: seq<Chunk>, from: nat, end: nat, i: nat)
    requires Tiles(cs, from, end) && i < |cs|
    ensures cs[i].start + Extent(cs[i]) == if i + 1 < |cs| then cs[i + 1].start else end
    decreases |cs|
  {
    if i > 0 { TilesNext(cs[1..], from + Extent(cs[0]), end, i - 1); }
  }

  /** Only the last chunk of the source may run over its end. */
  lemma EndsWithin(z: Zlib, src: bytes, ss: seq<Chunk>, send: nat, i: nat)
    requires Tiles(ss, 0, send) && AllValid(z, src + PADDING, |src|, ss) && Alternating(ss) && i < |ss|
    ensures i + 1 < |ss| || ss[i].Deflate? ==> ss[i].start + Extent(ss[i]) <= |src|
    ensures i + 1 == |ss| ==> ss[i].start + Extent(ss[i]) == send
  {
    hide Tiles;
    TilesNext(ss, 0, send, i);
    assert Valid(z, src + PADDING, |src|, ss[i]);
    if i + 1 < |ss| { assert Valid(z, src + PADDING, |src|, ss[i + 1]); }
  }

  /** A record overruns the source if and only if the source chunks do and the last record refers to them. */
  lemma OverrunsLast(z: Zlib, bz: Bzip2, src: bytes, tgt: bytes, bonus: Option<bytes>, ss: seq<Chunk>, ts: seq<Chunk>,
                     send: nat, tend: nat, rs: seq<Record>)
    requires Parallel(z, src, tgt, ss, ts, send, tend) && Alternating(ss)
    requires RecordsFor(z, bz, src, bonus, ss, tgt + PADDING, ts, rs)
    ensures AnyOverrun(src, rs) <==> send > |src| && LastNormal(rs)
  {
    hide Makes, Body, AllValid, Tiles, PieceOf, Alternating;
    forall i | 0 <= i < |rs|
      ensures Overruns(src, rs[i]) <==> i == |rs| - 1 && send > |src| && rs[i].NormalRecord?
    {
      assert RecordFor(z, bz, src, BonusFor(bonus, i), ss[i], tgt + PADDING, ts[i], rs[i]);
      EndsWithin(z, src, ss, send, i);
    }
    if rs != [] { assert Overruns(src, rs[|rs| - 1]) <==> send > |src| && LastNormal(rs); }
  }

  /** The last record is a bsdiff patch of source bytes. */
  ghost predicate LastNormal(rs: seq<Record>) {
    rs != [] && rs[|rs| - 1].NormalRecord?
  }

  /** The loop that makes a patch for every chunk. */
  method MakePatches(z: Zlib, bz: Bzip2, src: bytes, tgt: bytes, bonus: Option<bytes>, ss: seq<Chunk>, ts: seq<Chunk>,
                     ghost send: nat, ghost tend: nat)
    returns (rs: seq<Record>)
    requires bz.Lossless() && z.Sound() && |src| < TWO31 - 4 && |tgt| < TWO31 - 4
    requires bonus.Some? ==> |bonus.value| < TWO31
    requires Parallel(z, src, tgt, ss, ts, send, tend) && Reproducible(z, tgt + PADDING, ts)
    requires |ss| > 1 ==> ss[1].Deflate?
    ensures RecordsFor(z, bz, src, bonus, ss, tgt + PADDING, ts, rs)
  {
    hide Makes, PieceOf, Body, Tiles, Valid, Fits, Stream, DataOf, Overruns;
    var simg, timg := src + PADDING, tgt + PADDING;
    rs := [];
    var i := 0;
    while i < |ts|
      invariant 0 <= i <= |ts| && |rs| == i
      invariant forall k :: 0 <= k < i ==> RecordFor(z, bz, src, BonusFor(bonus, k), ss[k], timg, ts[k], rs[k])
    {
      var sdata := DataOf(simg, ss[i]);
      if i == 1 && bonus.Some? { sdata := sdata + bonus.value; }
      assert sdata == DataOf(simg, ss[i]) + (if ss[i].Deflate? then BonusFor(bonus, i) else []);
      var r := MakePatch(z, bz, src, ss[i], sdata, timg, ts[i], BonusFor(bonus, i));
      rs := rs + [r];
      i := i + 1;
    }
  }

  /** Every chunk takes at least a byte, so there are fewer than 2^31 of them. */
  lemma {:induction false} ReadCount(z: Zlib, img: bytes, size: nat, pos: nat)
    requires |img| == size + 4 && pos <= |img| && ReadFrom(z, img, size, pos).Chunks?
    ensures |ReadFrom(z, img, size, pos).chunks| <= |img| - pos
    decreases size - pos
  {
    if pos < size {
      var s := NextPiece(z, img, size, pos);
      assert |s.chunks| <= s.next - pos;
      hide NextPiece;
      ReadCount(z, img, size, s.next);
    }
  }

  lemma {:induction false} MergedCount(cs: seq<Chunk>, i: nat)
    requires i <= |cs|
    ensures |Merged(cs, i)| <= |cs| - i
    decreases |cs| - i
  {
    hide RunEnd, Block;
    if i < |cs| { MergedCount(cs, RunEnd(cs, i)); }
  }

  /** What reading the images and the first merge establish. */
  lemma FirstMerge(z: Zlib, src: bytes, tgt: bytes)
    requires z.Sound()
    requires ReadFrom(z, src + PADDING, |src|, 0).Chunks? && ReadFrom(z, tgt + PADDING, |tgt|, 0).Chunks?
    ensures var ss := Merged(ReadFrom(z, src + PADDING, |src|, 0).chunks, 0);
            var ts := Merged(ReadFrom(z, tgt + PADDING, |tgt|, 0).chunks, 0);
            && |ts| <= |tgt| + 4 && |src| <= Covered(z, src) && |tgt| <= Covered(z, tgt)
            && (SameKinds(ss, ts) ==> Parallel(z, src, tgt, ss, ts, Covered(z, src), Covered(z, tgt)))
  {
    hide Merged, Tiles, AllValid, SameKinds, ReadFrom;
    var a, b := ReadFrom(z, src + PADDING, |src|, 0).chunks, ReadFrom(z, tgt + PADDING, |tgt|, 0).chunks;
    var send := ReadTiles(z, src + PADDING, |src|, 0);
    var tend := ReadTiles(z, tgt + PADDING, |tgt|, 0);
    TilesEnd(a, 0, send);
    TilesEnd(b, 0, tend);
    ReadCount(z, tgt + PADDING, |tgt|, 0);
    MergedCount(b, 0);
    assert a[0..] == a && b[0..] == b;
    MergedTiles(a, 0, 0, send);
    MergedTiles(b, 0, 0, tend);
    MergedValid(z, src + PADDING, |src|, a, 0, 0, send);
    MergedValid(z, tgt + PADDING, |tgt|, b, 0, 0, tend);
  }

  /** The chunk lists after the rewriting and the second merge. */
  method PrepareChunks(z: Zlib, src: bytes, tgt: bytes, srcs: array<Chunk>, tgts: array<Chunk>, num: nat,
                       ghost send: nat, ghost tend: nat)
    returns (num': nat)
    requires z.Sound() && srcs != tgts && num <= srcs.Length && num <= tgts.Length
    requires Parallel(z, src, tgt, srcs[..num], tgts[..num], send, tend)
    modifies srcs, tgts
    ensures num' <= num && Parallel(z, src, tgt, srcs[..num'], tgts[..num'], send, tend)
    ensures Reproducible(z, tgt + PADDING, tgts[..num'])
    ensures Alternating(srcs[..num'])
    ensures old(num > 0 ==> srcs[0].Normal?) && num' > 1 ==> srcs[1].Deflate?
  {
    hide Merged, Parallel, Reproducible, RewritePair, Alternating;
    ghost var ss, ts := srcs[..num], tgts[..num];
    RewriteChunks(z, src + PADDING, tgt + PADDING, srcs, tgts, num);
    ghost var ss1, ts1 := srcs[..num], tgts[..num];
    RewriteKeeps(z, src, tgt, ss, ts, ss1, ts1, send, tend);
    MergedReproducible(z, tgt + PADDING, ts1, 0);
    MergeParallel(z, src, tgt, ss1, ts1, send, tend);
    SourceAlternates(z, src, tgt, ss1, ts1, send, tend);
    if num > 0 && ss[0].Normal? {
      FirstKept(z, src + PADDING, tgt + PADDING, ss[0], ts[0]);
      DeflateSecond(z, src, tgt, ss1, ts1, send, tend);
    }
    num' := MergeAdjacentNormalChunks(tgts, num);
    assert tgts[..num'] == Merged(ts1, 0) && srcs[..num] == ss1;
    var n := MergeAdjacentNormalChunks(srcs, num);
    assert tgts[..num'] == Merged(ts1, 0) && srcs[..n] == Merged(ss1, 0);
    // The program checks here that the numbers still agree and gives up if not: they always do.
    ParallelNumbers(z, src, tgt, srcs[..n], tgts[..num'], send, tend);
    assert n == num';
    assert num' > 1 ==> srcs[1] == Merged(ss1, 0)[1];
  }

  lemma FirstKept(z: Zlib, simg: bytes, timg: bytes, s: Chunk, t: Chunk)
    requires s.Normal?
    ensures RewritePair(z, simg, timg, s, t).0.Normal?
  {
  }

  /** A list that begins with a normal chunk is merged to one whose second chunk is a deflate chunk. */
  lemma SourceAlternates(z: Zlib, src: bytes, tgt: bytes, ss: seq<Chunk>, ts: seq<Chunk>, send: nat, tend: nat)
    requires Parallel(z, src, tgt, ss, ts, send, tend)
    ensures Alternating(Merged(ss, 0))
  {
    hide Merged, SameKinds, Tiles, AllValid;
    assert ss[0..] == ss;
    TilesSolid(z, src + PADDING, |src|, ss, 0, 0, send);
    MergedAlternates(ss, 0);
  }

  lemma DeflateSecond(z: Zlib, src: bytes, tgt: bytes, ss: seq<Chunk>, ts: seq<Chunk>, send: nat, tend: nat)
    requires Parallel(z, src, tgt, ss, ts, send, tend) && ss != [] && ss[0].Normal?
    ensures Merged(ss, 0) != [] && Merged(ss, 0)[0].Normal?
    ensures |Merged(ss, 0)| > 1 ==> Merged(ss, 0)[1].Deflate?
  {
    hide Merged, SameKinds, Tiles, AllValid;
    assert ss[0..] == ss;
    TilesSolid(z, src + PADDING, |src|, ss, 0, 0, send);
    MergedAlternates(ss, 0);
  }

  /** The first chunk of an image is a normal one. */
  lemma FirstNormal(z: Zlib, img: bytes, size: nat, pos: nat)
    requires |img| == size + 4 && ReadFrom(z, img, size, pos).Chunks?
    ensures ReadFrom(z, img, size, pos).chunks != [] ==> ReadFrom(z, img, size, pos).chunks[0].Normal?
  {
    if pos < size { assert NextPiece(z, img, size, pos).chunks[0].Normal?; }
  }

  lemma ParallelNumbers(z: Zlib, src: bytes, tgt: bytes, ss: seq<Chunk>, ts: seq<Chunk>, send: nat, tend: nat)
    requires Parallel(z, src, tgt, ss, ts, send, tend)
    ensures |ss| == |ts|
  {
  }

  /** What a patch for tgt rebuilds: tgt, followed by what the program read of the padding
      if tgt ends inside a gzip trailer. */
  ghost function Rebuilt(z: Zlib, tgt: bytes): (t: bytes) {
    if Covered(z, tgt) <= |tgt| + 4 then (tgt + PADDING)[..Covered(z, tgt)] else tgt + PADDING
  }

  /** What a patch rebuilds is exactly the target if and only if every gzip member that is met when the target is read
      has all of its trailer in the target. */
  lemma RebuiltExactly(z: Zlib, tgt: bytes)
    requires z.Sound() && ReadFrom(z, tgt + PADDING, |tgt|, 0).Chunks?
    ensures |tgt| <= Covered(z, tgt) <= |tgt| + 4
    ensures Covered(z, tgt) == |tgt| <==> TrailersComplete(z, tgt, 0)
    ensures Rebuilt(z, tgt) == tgt <==> TrailersComplete(z, tgt, 0)
  {
    hide ReadFrom, TrailersComplete;
    var end := ReadTiles(z, tgt + PADDING, |tgt|, 0);
    TilesEnd(ReadFrom(z, tgt + PADDING, |tgt|, 0).chunks, 0, end);
    EndsExactly(z, tgt, 0, end);
    assert Rebuilt(z, tgt) == (tgt + PADDING)[..end];
    assert (tgt + PADDING)[..|tgt|] == tgt;
  }

  /** From the chunk lists of the two images to the patch, and the records it holds. */
  method DiffChunks(z: Zlib, bz: Bzip2, src: bytes, tgt: bytes, bonus: Option<bytes>, a: seq<Chunk>, b: seq<Chunk>)
    returns (r: Result, ghost rs: seq<Record>)
    requires bz.Lossless() && z.Sound() && |src| < TWO31 - 4 && |tgt| < TWO31 - 4
    requires bonus.Some? ==> |bonus.value| < TWO31
    requires ReadFrom(z, src + PADDING, |src|, 0) == Chunks(a) && ReadFrom(z, tgt + PADDING, |tgt|, 0) == Chunks(b)
    ensures if SameKinds(Merged(a, 0), Merged(b, 0)) then r.Patch? else r.Error?
    ensures r.Patch? ==> r.file == PatchBytes(rs)
    ensures r.Patch? && |r.file| < LIMIT ==>
              ApplyImage(z, bz, src, r.file, bonus)
              == if Covered(z, src) > |src| && LastNormal(rs) then Undefined else Done(Rebuilt(z, tgt))
  {
    hide ReadFrom, Merged, Parallel, Reproducible, SameKinds, Covered, PatchBytes, ApplyImage, RecordsFor, AnyOverrun,
         LastNormal, Alternating;
    FirstMerge(z, src, tgt);
    FirstNormal(z, src + PADDING, |src|, 0);
    var tgts := new Chunk[|b|](i requires 0 <= i < |b| => b[i]);
    var srcs := new Chunk[|a|](i requires 0 <= i < |a| => a[i]);
    assert tgts[..|b|] == b && srcs[..|a|] == a;
    var tnum := MergeAdjacentNormalChunks(tgts, |b|);
    assert srcs[..|a|] == a;
    var snum := MergeAdjacentNormalChunks(srcs, |a|);
    assert tgts[..tnum] == Merged(b, 0);
    var same := CompareKinds(srcs, snum, tgts, tnum);
    if !same { return Error, []; }
    ghost var send, tend := Covered(z, src), Covered(z, tgt);
    MergedFirst(z, src, a);
    assert snum > 0 ==> srcs[0] == Merged(a, 0)[0];
    var num := PrepareChunks(z, src, tgt, srcs, tgts, tnum, send, tend);
    var ss, ts := srcs[..num], tgts[..num];
    var records := MakePatches(z, bz, src, tgt, bonus, ss, ts, send, tend);
    rs := records;
    var file := WritePatch(records);
    ParallelEnd(z, src, tgt, ss, ts, send, tend);
    RecordCount(z, bz, src, bonus, ss, tgt + PADDING, ts, records);
    OverrunsLast(z, bz, src, tgt, bonus, ss, ts, send, tend, records);
    if |file| < LIMIT { RecordsRebuild(z, bz, src, tgt, bonus, ss, ts, send, tend, records); }
    return Patch(file), records;
  }

  lemma RecordCount(z: Zlib, bz: Bzip2, src: bytes, bonus: Option<bytes>, ss: seq<Chunk>, timg: bytes, ts: seq<Chunk>,
                    rs: seq<Record>)
    requires RecordsFor(z, bz, src, bonus, ss, timg, ts, rs)
    ensures |rs| == |ts|
  {
  }

  lemma MergedFirst(z: Zlib, src: bytes, a: seq<Chunk>)
    requires z.Sound() && ReadFrom(z, src + PADDING, |src|, 0) == Chunks(a)
    ensures Merged(a, 0) != [] ==> Merged(a, 0)[0].Normal?
  {
    hide ReadFrom, Merged, Tiles, AllValid;
    FirstNormal(z, src + PADDING, |src|, 0);
    var send := ReadTiles(z, src + PADDING, |src|, 0);
    assert a[0..] == a;
    TilesSolid(z, src + PADDING, |src|, a, 0, 0, send);
    MergedAlternates(a, 0);
    if a == [] { MergedNone(a); }
  }

  lemma MergedNone(a: seq<Chunk>)
    requires a == []
    ensures Merged(a, 0) == []
  {
  }

  /** `main` in image mode.  It makes a patch exactly if both images can be read and have the same structure.
      Applied to the source, the patch rebuilds the target as far as it was read, which is exactly the target if and
      only if no gzip trailer of it is cut off; and it refers to bytes outside the source if and only if a gzip
      trailer of that is cut off and the last record is a bsdiff patch of source bytes. */
  method ImgDiff(z: Zlib, bz: Bzip2, src: bytes, tgt: bytes, bonus: Option<bytes>)
    returns (r: Result, ghost rs: seq<Record>)
    requires bz.Lossless() && z.Sound() && |src| < TWO31 - 4 && |tgt| < TWO31 - 4
    requires bonus.Some? ==> |bonus.value| < TWO31
    ensures var a, b := ReadFrom(z, src + PADDING, |src|, 0), ReadFrom(z, tgt + PADDING, |tgt|, 0);
            && (r.NoReturn? <==> a.Stuck? || (a.Chunks? && b.Stuck?))
            && (r.Unsafe? <==> a.OutOfBounds? || (a.Chunks? && b.OutOfBounds?))
            && (r.Patch? <==> a.Chunks? && b.Chunks? && SameKinds(Merged(a.chunks, 0), Merged(b.chunks, 0)))
    ensures r.Patch? ==> r.file == PatchBytes(rs)
    ensures r.Patch? && |r.file| < LIMIT ==>
              ApplyImage(z, bz, src, r.file, bonus)
              == if !TrailersComplete(z, src, 0) && LastNormal(rs) then Undefined else Done(Rebuilt(z, tgt))
    ensures r.Patch? && |r.file| < LIMIT ==>
              (ApplyImage(z, bz, src, r.file, bonus) == Done(tgt) <==>
               TrailersComplete(z, tgt, 0) && (TrailersComplete(z, src, 0) || !LastNormal(rs)))
  {
    hide ReadFrom, Merged, SameKinds, Covered, Rebuilt, ApplyImage, TrailersComplete, LastNormal, PatchBytes;
    rs := [];
    var a := ReadImage(z, src);
    if !a.Chunks? { return if a.Stuck? then NoReturn else if a.BadFooter? then Error else Unsafe, []; }
    var b := ReadImage(z, tgt);
    if !b.Chunks? { return if b.Stuck? then NoReturn else if b.BadFooter? then Error else Unsafe, []; }
    r, rs := DiffChunks(z, bz, src, tgt, bonus, a.chunks, b.chunks);
    RebuiltExactly(z, src);
    RebuiltExactly(z, tgt);
  }

  lemma ParallelEnd(z: Zlib, src: bytes, tgt: bytes, ss: seq<Chunk>, ts: seq<Chunk>, send: nat, tend: nat)
    requires Parallel(z, src, tgt, ss, ts, send, tend)
    ensures tend <= |tgt| + 4
  {
  }

  /** The checks that both images have the same structure. */
  method CompareKinds(srcs: array<Chunk>, snum: nat, tgts: array<Chunk>, tnum: nat) returns (same: bool)
    requires snum <= srcs.Length && tnum <= tgts.Length
    ensures same <==> SameKinds(srcs[..snum], tgts[..tnum])
    ensures same ==> snum == tnum
  {
    if snum != tnum { return false; }
    var i := 0;
    while i < snum
      invariant 0 <= i <= snum && forall k :: 0 <= k < i ==> srcs[k].Normal? == tgts[k].Normal?
    {
      if srcs[i].Normal? != tgts[i].Normal? {
        assert srcs[..snum][i].Normal? != tgts[..tnum][i].Normal?;
        return false;
      }
      i := i + 1;
    }
    return true;
  }

  // ----- a trailer that is cut off -----

  /** The empty deflate stream 03 00 is taken as such, whatever follows it. */
  ghost predicate TakesEmpty(z: Zlib) {
    forall tail: bytes :: z.inflate([3, 0] + tail) == Some(Inflated(2, []))
  }

  /** A gzip member that holds nothing. */
  const EMPTY_MEMBER: bytes := [0x1f, 0x8b, 0x08, 0, 0, 0, 0, 0, 0, 0, 3, 0, 0, 0, 0, 0, 0, 0, 0, 0]

  function EmptyChunks(): (cs: seq<Chunk>) {
    [Normal(0, 10, 0), Deflate(10, 0, [], 2, NO_PARAMS), Normal(12, 8, 12)]
  }

  lemma ZeroReads()
    ensures Read4([0, 0, 0, 0]) == 0
  {
  }

  /** With up to four bytes of its trailer missing, the padding completes the member. */
  lemma CutMember(file: bytes, cut: nat)
    requires cut <= 4 && file == EMPTY_MEMBER[..20 - cut]
    ensures |file| == 20 - cut && GzipAt(file + PADDING, 0) && Member(file, 0)
    ensures (file + PADDING)[10..|file|] == [3, 0] + file[12..] && file[10..] == [3, 0] + file[12..]
    ensures (file + PADDING)[16..20] == [0, 0, 0, 0]
  {
    hide GzipAt, Member;
    var img := file + PADDING;
    MagicBytes(img, 0);
    assert GzipAt(img, 0);
    MemberAt(file, 0);
    assert img[10..|file|] == file[10..];
    assert file[10] == 3 && file[11] == 0;
    assert forall k :: 16 <= k < 20 ==> img[k] == 0;
  }

  lemma ReadsEmptyMember(z: Zlib, cut: nat)
    requires TakesEmpty(z) && cut <= 4
    ensures var file := EMPTY_MEMBER[..20 - cut];
            && ReadFrom(z, file + PADDING, |file|, 0) == Chunks(EmptyChunks())
            && (TrailersComplete(z, file, 0) <==> cut == 0)
  {
    hide Read4, GzipAt, Member, TrailersComplete, ScanLen;
    var file := EMPTY_MEMBER[..20 - cut];
    CutMember(file, cut);
    EmptyPiece(z, file, cut);
    ReadsOne(z, file + PADDING, |file|, EmptyChunks(), 20);
    assert Reached(z, file + PADDING, |file|, 0, 0);
    NothingReached(z, file, 20);
    TrailersFrom(z, file, 0);
  }

  lemma EmptyPiece(z: Zlib, file: bytes, cut: nat)
    requires TakesEmpty(z) && cut <= 4 && file == EMPTY_MEMBER[..20 - cut]
    ensures NextPiece(z, file + PADDING, |file|, 0) == Piece(EmptyChunks(), 20)
  {
    hide Read4, GzipAt;
    CutMember(file, cut);
    assert z.inflate((file + PADDING)[10..|file|]) == Some(Inflated(2, []));
    ZeroReads();
  }

  /** A file that is one piece. */
  lemma ReadsOne(z: Zlib, img: bytes, size: nat, cs: seq<Chunk>, next: nat)
    requires |img| == size + 4 && 0 < size <= next && NextPiece(z, img, size, 0) == Piece(cs, next)
    ensures ReadFrom(z, img, size, 0) == Chunks(cs)
  {
    hide NextPiece;
    assert cs + [] == cs;
  }

  /** Whatever zlib does otherwise, for a target that ends one to four bytes early in the trailer of an empty member the
      patch rebuilds the whole member, not the target. */
  method TruncatedTrailer(z: Zlib, bz: Bzip2, cut: nat) returns (file: bytes, ghost src: bytes, ghost tgt: bytes)
    requires bz.Lossless() && z.Sound() && TakesEmpty(z) && 1 <= cut <= 4
    ensures src == EMPTY_MEMBER && tgt == EMPTY_MEMBER[..20 - cut]
    ensures |file| < LIMIT ==> ApplyImage(z, bz, src, file, None) == Done(src) && src != tgt
  {
    hide ReadFrom, TrailersComplete, ApplyImage, Merged, LastNormal, PatchBytes, TakesEmpty;
    ReadsEmptyMember(z, 0);
    ReadsEmptyMember(z, cut);
    assert EMPTY_MEMBER[..20] == EMPTY_MEMBER;
    var r, rs := ImgDiff(z, bz, EMPTY_MEMBER, EMPTY_MEMBER[..20 - cut], None);
    src, tgt := EMPTY_MEMBER, EMPTY_MEMBER[..20 - cut];
    assert SameKinds(Merged(EmptyChunks(), 0), Merged(EmptyChunks(), 0));
    file := r.file;
    EmptyRebuilt(z, cut);
  }

  lemma EmptyRebuilt(z: Zlib, cut: nat)
    requires TakesEmpty(z) && cut <= 4
    ensures Rebuilt(z, EMPTY_MEMBER[..20 - cut]) == EMPTY_MEMBER
  {
    hide ReadFrom, TakesEmpty, TrailersComplete;
    var tgt := EMPTY_MEMBER[..20 - cut];
    ReadsEmptyMember(z, cut);
    var cs := EmptyChunks();
    HeadTiles(cs[0], cs[1], cs[2], 0);
    TilesEnd(cs, 0, 20);
    assert (tgt + PADDING)[..20] == EMPTY_MEMBER;
  }

  // ----- parameters that zlib refuses -----

  /** For all parameters that zlib refuses, level 100 for one, there is a patch of one record, of the empty stream
      03 00, on which the patcher never returns. */
  method RefusedParameters(z: Zlib, bz: Bzip2, params: Params) returns (file: bytes, ghost src: bytes)
    requires bz.Lossless() && TakesEmpty(z) && Fits(params) && z.deflate(params, []).None?
    ensures src == [3, 0] && (|file| < LIMIT ==> ApplyImage(z, bz, src, file, None) == Hangs)
  {
    hide PatchFor, SuffixArray, PatchBytes, ApplyImage, Fits;
    var patch, I := BsDiff.BsDiff(bz, [], null, []);
    var r := DeflateRecord(0, 2, 0, 0, params, patch);
    file := WritePatch([r]);
    src := [3, 0];
    if |file| < LIMIT {
      BodyWithin([r], 0);
      assert [3, 0] + [] == src && src[0..2] == src;
      RefusedHangs(z, bz, src, None, r, []);
    }
  }
}
