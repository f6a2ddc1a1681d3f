/** The layout of an image patch: the header `main` of applypatch/imgdiff.c writes, and that the
    parser of applypatch/imgpatch.c takes it apart again. */
module ImgHeader {
  import opened Suffixes
  import opened BsPatch
  import opened BsDiff
  import opened ImgCodec
  import opened ImgChunks
  import opened ImgPatch

  /** One chunk of the target with the patch that makes it. */
  datatype Record =
    | NormalRecord(srcStart: nat, srcLen: nat, patch: bytes)
    | DeflateRecord(srcStart: nat, srcLen: nat, expandedLen: nat, targetLen: nat, params: Params, patch: bytes)
    | RawRecord(data: bytes)

  /** The size of the header record of a chunk. */
  function RecordSize(r: Record): nat {
    match r
    case NormalRecord(_, _, _) => 4 + 8 * 3
    case DeflateRecord(_, _, _, _, _, _) => 4 + 8 * 5 + 4 * 5
    case RawRecord(d) => 4 + 4 + |d|
  }

  /** What is appended for a chunk after the header. */
  function Body(r: Record): bytes {
    if r.RawRecord? then [] else r.patch
  }

  function RecordBytes(r: Record, offset: int): (b: bytes)
    ensures |b| == RecordSize(r)
  {
    match r
    case NormalRecord(start, len, _) => Write4(CHUNK_NORMAL) + Triple(start, len, offset)
    case DeflateRecord(start, len, elen, tlen, p, _) =>
      Write4(CHUNK_DEFLATE) + Triple(start, len, offset) + (Write8(elen) + Write8(tlen)) + Encoder(p)
    case RawRecord(d) => Write4(CHUNK_RAW) + Write4(|d|) + d
  }

  function Triple(start: int, len: int, offset: int): (b: bytes)
    ensures |b| == 24
  {
    Write8(start) + Write8(len) + Write8(offset)
  }

  function Encoder(p: Params): (b: bytes)
    ensures |b| == 20
  {
    Write4(p.level) + Write4(p.compression) + Write4(p.windowBits) + Write4(p.memLevel) + Write4(p.strategy)
  }

  ghost function Sizes(rs: seq<Record>): nat {
    if rs == [] then 0 else RecordSize(rs[0]) + Sizes(rs[1..])
  }

  ghost function Records(rs: seq<Record>, offset: int): (b: bytes)
    ensures |b| == Sizes(rs)
  {
    if rs == [] then [] else RecordBytes(rs[0], offset) + Records(rs[1..], offset + |Body(rs[0])|)
  }

  ghost function Bodies(rs: seq<Record>): (b: bytes) {
    if rs == [] then [] else Body(rs[0]) + Bodies(rs[1..])
  }

  /** The whole patch file. */
  ghost function PatchBytes(rs: seq<Record>): (b: bytes) {
    IMG_MAGIC + Write4(|rs|) + Records(rs, 12 + Sizes(rs)) + Bodies(rs)
  }

  lemma {:induction false} BodiesSplit(a: seq<Record>, b: seq<Record>)
    ensures Bodies(a + b) == Bodies(a) + Bodies(b) && Sizes(a + b) == Sizes(a) + Sizes(b)
    decreases |a|
  {
    hide Body, RecordSize;
    if a == [] {
      assert a + b == b;
    } else {
      assert (a + b)[1..] == a[1..] + b;
      BodiesSplit(a[1..], b);
    }
  }

  lemma RecordsStep(rs: seq<Record>, offset: int)
    requires rs != []
    ensures Records(rs, offset) == RecordBytes(rs[0], offset) + Records(rs[1..], offset + |Body(rs[0])|)
    ensures Bodies(rs) == Body(rs[0]) + Bodies(rs[1..])
  {
  }

  lemma NoRecords(offset: int)
    ensures Records([], offset) == [] && Bodies([]) == [] && Sizes([]) == 0
  {
  }

  lemma {:induction false} RecordsSplit(a: seq<Record>, b: seq<Record>, offset: int)
    ensures Records(a + b, offset) == Records(a, offset) + Records(b, offset + |Bodies(a)|)
    decreases |a|
  {
    hide RecordBytes, Body, Records, Bodies;
    if a == [] {
      NoRecords(offset);
      assert a + b == b;
    } else {
      RecordsStep(a, offset);
      RecordsStep(a + b, offset);
      assert (a + b)[1..] == a[1..] + b;
      RecordsSplit(a[1..], b, offset + |Body(a[0])|);
    }
  }

  lemma SizesMore(rs: seq<Record>, r: Record)
    ensures Sizes(rs + [r]) == Sizes(rs) + RecordSize(r)
    ensures Bodies(rs + [r]) == Bodies(rs) + Body(r)
  {
    hide Body, RecordSize;
    BodiesSplit(rs, [r]);
    assert [r][1..] == [];
  }

  lemma RecordsMore(rs: seq<Record>, r: Record, offset: int)
    ensures Records(rs + [r], offset) == Records(rs, offset) + RecordBytes(r, offset + |Bodies(rs)|)
  {
    hide RecordBytes, Body, Records, Bodies;
    var o := offset + |Bodies(rs)|;
    RecordsSplit(rs, [r], offset);
    RecordsStep([r], o);
    NoRecords(o + |Body(r)|);
    assert [r][1..] == [];
  }

  /** The loop that adds up the size of the header. */
  method HeaderSize(rs: seq<Record>) returns (total: nat)
    ensures total == 12 + Sizes(rs)
  {
    total := 12;
    var i := 0;
    while i < |rs|
      invariant 0 <= i <= |rs| && total == 12 + Sizes(rs[..i])
    {
      SizesMore(rs[..i], rs[i]);
      assert rs[..i + 1] == rs[..i] + [rs[i]];
      total := total + RecordSize(rs[i]);
      i := i + 1;
    }
    assert rs[..i] == rs;
  }

  /** The last part of `main`: write the header with the running offset, then the patches in order. */
  method WritePatch(rs: seq<Record>) returns (file: bytes)
    ensures file == PatchBytes(rs)
  {
    hide RecordBytes, RecordSize, Body, Records, Bodies, Sizes;
    NoRecords(12 + Sizes(rs));
    var total := HeaderSize(rs);
    var offset := total;
    var header := [];
    var i := 0;
    while i < |rs|
      invariant 0 <= i <= |rs| && offset == total + |Bodies(rs[..i])| && header == Records(rs[..i], total)
    {
      SizesMore(rs[..i], rs[i]);
      RecordsMore(rs[..i], rs[i], total);
      assert rs[..i + 1] == rs[..i] + [rs[i]];
      header := header + RecordBytes(rs[i], offset);
      offset := offset + |Body(rs[i])|;
      i := i + 1;
    }
    var bodies := [];
    i := 0;
    while i < |rs|
      invariant 0 <= i <= |rs| && bodies == Bodies(rs[..i])
    {
      SizesMore(rs[..i], rs[i]);
      assert rs[..i + 1] == rs[..i] + [rs[i]];
      bodies := bodies + Body(rs[i]);
      i := i + 1;
    }
    assert rs[..i] == rs;
    file := IMG_MAGIC + Write4(|rs|) + header + bodies;
  }

  // ----- reading it back -----

  ghost predicate Fits(p: Params) {
    && -TWO31 <= p.level < TWO31 && -TWO31 <= p.compression < TWO31 && -TWO31 <= p.windowBits < TWO31
    && -TWO31 <= p.memLevel < TWO31 && -TWO31 <= p.strategy < TWO31
  }

  /** Applied to the source image, the record makes the piece. */
  ghost predicate Makes(z: Zlib, bz: Bzip2, src: bytes, bonus: bytes, r: Record, piece: bytes) {
    match r
    case NormalRecord(start, len, patch) =>
      start + len <= |src| < TWO63 && PatchFor(bz, src[start..start + len], piece, patch)
    case RawRecord(d) => d == piece && |d| < TWO31
    case DeflateRecord(start, len, elen, tlen, params, patch) =>
      && start + len <= |src| < TWO63 && elen < TWO63 && tlen < TWO63 && Fits(params)
      && z.inflate(src[start..start + len]).Some?
      && |z.inflate(src[start..start + len]).value.output| + |bonus| == elen
      && exists content :: PatchFor(bz, z.inflate(src[start..start + len]).value.output + bonus, content, patch)
                           && z.deflate(params, content) == Some(piece)
  }

  /** Where record i lies in the header. */
  lemma LocateRecord(rs: seq<Record>, i: nat, offset: int) returns (a: bytes, b: bytes)
    requires i < |rs|
    ensures |a| == Sizes(rs[..i]) && Records(rs, offset) == a + RecordBytes(rs[i], offset + |Bodies(rs[..i])|) + b
  {
    hide RecordBytes, Body, RecordSize;
    var x, r, y := rs[..i], rs[i], rs[i + 1..];
    assert rs == x + ([r] + y) && ([r] + y)[1..] == y;
    RecordsSplit(x, [r] + y, offset);
    a, b := Records(x, offset), Records(y, offset + |Bodies(x)| + |Body(r)|);
    assert a + (RecordBytes(r, offset + |Bodies(x)|) + b) == a + RecordBytes(r, offset + |Bodies(x)|) + b;
  }

  /** Where the patch of record i lies after the header. */
  lemma LocateBody(rs: seq<Record>, i: nat) returns (d: bytes)
    requires i < |rs|
    ensures Bodies(rs) == Bodies(rs[..i]) + Body(rs[i]) + d
  {
    hide Body;
    var x, r, y := rs[..i], rs[i], rs[i + 1..];
    assert rs == x + ([r] + y) && ([r] + y)[1..] == y;
    BodiesSplit(x, [r] + y);
    d := Bodies(y);
  }

  /** Where record i and its patch lie in the file. */
  lemma Locate(rs: seq<Record>, i: nat) returns (a: bytes, b: bytes, c: bytes, d: bytes)
    requires i < |rs|
    ensures |a| == 12 + Sizes(rs[..i]) && |c| == 12 + Sizes(rs) + |Bodies(rs[..i])|
    ensures PatchBytes(rs) == a + RecordBytes(rs[i], |c|) + b && PatchBytes(rs) == c + Body(rs[i]) + d
    ensures Sizes(rs[..i + 1]) == Sizes(rs[..i]) + RecordSize(rs[i])
  {
    hide RecordBytes, Body, RecordSize, Write4, Records, Bodies, Sizes;
    var total := 12 + Sizes(rs);
    var top := IMG_MAGIC + Write4(|rs|);
    var a0, b0 := LocateRecord(rs, i, total);
    d := LocateBody(rs, i);
    a, b, c := top + a0, b0 + Bodies(rs), top + Records(rs, total) + Bodies(rs[..i]);
    var h := RecordBytes(rs[i], |c|);
    assert top + (a0 + h + b0) + Bodies(rs) == a + h + b;
    assert top + Records(rs, total) + (Bodies(rs[..i]) + Body(rs[i]) + d) == c + Body(rs[i]) + d;
    SizesMore(rs[..i], rs[i]);
    assert rs[..i + 1] == rs[..i] + [rs[i]];
  }

  lemma Field8At(a: bytes, v: int, b: bytes, blob: bytes, at: nat)
    requires blob == a + Write8(v) + b && at == |a| && -TWO63 <= v < TWO63
    ensures at + 8 <= |blob| && Field8(blob, at) == v
  {
    hide Write8, Read8;
    RoundTrip8(v);
    assert blob[at..at + 8] == Write8(v);
  }

  lemma Field4At(a: bytes, v: int, b: bytes, blob: bytes, at: nat)
    requires blob == a + Write4(v) + b && at == |a| && -TWO31 <= v < TWO31
    ensures at + 4 <= |blob| && Field4(blob, at) == v
  {
    hide Write4, Read4;
    RoundTrip4(v);
    assert blob[at..at + 4] == Write4(v);
  }

  lemma TripleAt(a: bytes, start: int, len: int, offset: int, b: bytes, blob: bytes, at: nat)
    requires blob == a + Triple(start, len, offset) + b && at == |a|
    requires 0 <= start < TWO63 && 0 <= len < TWO63 && 0 <= offset < TWO63
    ensures at + 24 <= |blob| && Field8(blob, at) == start && Field8(blob, at + 8) == len
    ensures Field8(blob, at + 16) == offset
  {
    hide Write8, Field8;
    var s, l, o := Write8(start), Write8(len), Write8(offset);
    assert blob == a + s + (l + o + b);
    Field8At(a, start, l + o + b, blob, at);
    assert blob == (a + s) + l + (o + b);
    Field8At(a + s, len, o + b, blob, at + 8);
    assert blob == (a + s + l) + o + b;
    Field8At(a + s + l, offset, b, blob, at + 16);
  }

  lemma EncoderAt(a: bytes, p: Params, b: bytes, blob: bytes, at: nat)
    requires blob == a + Encoder(p) + b && at == |a| && Fits(p)
    ensures at + 20 <= |blob|
    ensures Params(Field4(blob, at), Field4(blob, at + 4), Field4(blob, at + 8), Field4(blob, at + 12),
                   Field4(blob, at + 16)) == p
  {
    hide Write4, Field4;
    var v, w, x, y, t :=
        Write4(p.level), Write4(p.compression), Write4(p.windowBits), Write4(p.memLevel), Write4(p.strategy);
    assert blob == a + v + (w + x + y + t + b);
    Field4At(a, p.level, w + x + y + t + b, blob, at);
    assert blob == (a + v) + w + (x + y + t + b);
    Field4At(a + v, p.compression, x + y + t + b, blob, at + 4);
    assert blob == (a + v + w) + x + (y + t + b);
    Field4At(a + v + w, p.windowBits, y + t + b, blob, at + 8);
    assert blob == (a + v + w + x) + y + (t + b);
    Field4At(a + v + w + x, p.memLevel, t + b, blob, at + 12);
    assert blob == (a + v + w + x + y) + t + b;
    Field4At(a + v + w + x + y, p.strategy, b, blob, at + 16);
  }

  lemma NormalFields(blob: bytes, a: bytes, b: bytes, r: Record, offset: int)
    requires r.NormalRecord? && blob == a + RecordBytes(r, offset) + b
    requires r.srcStart < TWO63 && r.srcLen < TWO63 && 0 <= offset < TWO63
    ensures |a| + 28 <= |blob| && Field4(blob, |a|) == CHUNK_NORMAL
    ensures Field8(blob, |a| + 4) == r.srcStart && Field8(blob, |a| + 12) == r.srcLen
    ensures Field8(blob, |a| + 20) == offset
  {
    hide Write4, Field4, Field8, Triple;
    var k, t := Write4(CHUNK_NORMAL), Triple(r.srcStart, r.srcLen, offset);
    assert blob == a + k + (t + b);
    Field4At(a, CHUNK_NORMAL, t + b, blob, |a|);
    assert blob == (a + k) + t + b;
    TripleAt(a + k, r.srcStart, r.srcLen, offset, b, blob, |a| + 4);
  }

  lemma RawFields(blob: bytes, a: bytes, b: bytes, r: Record, offset: int)
    requires r.RawRecord? && blob == a + RecordBytes(r, offset) + b && |r.data| < TWO31
    ensures |a| + 8 + |r.data| <= |blob| && Field4(blob, |a|) == CHUNK_RAW && Field4(blob, |a| + 4) == |r.data|
    ensures blob[|a| + 8..|a| + 8 + |r.data|] == r.data
  {
    hide Write4, Field4;
    var k, n, d := Write4(CHUNK_RAW), Write4(|r.data|), r.data;
    RawLayout(blob, a, k, n, d, b);
    Field4At(a, CHUNK_RAW, n + d + b, blob, |a|);
    Field4At(a + k, |r.data|, d + b, blob, |a| + 4);
  }

  lemma RawLayout(blob: bytes, a: bytes, k: bytes, n: bytes, d: bytes, b: bytes)
    requires blob == a + (k + n + d) + b && |k| == 4 && |n| == 4
    ensures blob == a + k + (n + d + b) && blob == (a + k) + n + (d + b)
    ensures |blob| == |a| + 8 + |d| + |b| && blob[|a| + 8..|a| + 8 + |d|] == d
  {
  }

  lemma DeflateFields(blob: bytes, a: bytes, b: bytes, r: Record, offset: int)
    requires r.DeflateRecord? && blob == a + RecordBytes(r, offset) + b && Fits(r.params)
    requires r.srcStart < TWO63 && r.srcLen < TWO63 && r.expandedLen < TWO63 && r.targetLen < TWO63
    requires 0 <= offset < TWO63
    ensures |a| + 64 <= |blob| && Field4(blob, |a|) == CHUNK_DEFLATE
    ensures Field8(blob, |a| + 4) == r.srcStart && Field8(blob, |a| + 12) == r.srcLen
    ensures Field8(blob, |a| + 20) == offset
    ensures Field8(blob, |a| + 28) == r.expandedLen && Field8(blob, |a| + 36) == r.targetLen
    ensures Params(Field4(blob, |a| + 44), Field4(blob, |a| + 48), Field4(blob, |a| + 52),
                   Field4(blob, |a| + 56), Field4(blob, |a| + 60)) == r.params
  {
    hide Write4, Write8, Field4, Field8, Triple, Encoder, Fits;
    var k, t, e, l, n := Write4(CHUNK_DEFLATE), Triple(r.srcStart, r.srcLen, offset), Write8(r.expandedLen),
                         Write8(r.targetLen), Encoder(r.params);
    var rest := n + b;
    assert blob == a + (k + t + (e + l)) + rest;
    DeflateHead(blob, a, rest, r.srcStart, r.srcLen, offset, r.expandedLen, r.targetLen);
    var h := a + (k + t + (e + l));
    assert blob == h + n + b;
    EncoderAt(h, r.params, b, blob, |a| + 44);
  }

  lemma DeflateHead(blob: bytes, a: bytes, b: bytes, start: int, len: int, offset: int, elen: int, tlen: int)
    requires blob == a + (Write4(CHUNK_DEFLATE) + Triple(start, len, offset) + (Write8(elen) + Write8(tlen))) + b
    requires 0 <= start < TWO63 && 0 <= len < TWO63 && 0 <= offset < TWO63 && 0 <= elen < TWO63 && 0 <= tlen < TWO63
    ensures |a| + 44 <= |blob| && Field4(blob, |a|) == CHUNK_DEFLATE
    ensures Field8(blob, |a| + 4) == start && Field8(blob, |a| + 12) == len && Field8(blob, |a| + 20) == offset
    ensures Field8(blob, |a| + 28) == elen && Field8(blob, |a| + 36) == tlen
  {
    hide Write4, Write8, Field4, Field8, Triple;
    var k, t, e, l := Write4(CHUNK_DEFLATE), Triple(start, len, offset), Write8(elen), Write8(tlen);
    assert blob == a + k + (t + e + l + b);
    Field4At(a, CHUNK_DEFLATE, t + e + l + b, blob, |a|);
    assert blob == (a + k) + t + (e + l + b);
    TripleAt(a + k, start, len, offset, e + l + b, blob, |a| + 4);
    assert blob == (a + k + t) + e + (l + b);
    Field8At(a + k + t, elen, l + b, blob, |a| + 28);
    assert blob == (a + k + t + e) + l + b;
    Field8At(a + k + t + e, tlen, b, blob, |a| + 36);
  }

  /** The parser recovers record i and makes its piece. */
  lemma RecordEffect(z: Zlib, bz: Bzip2, src: bytes, bonus: Option<bytes>, blob: bytes, i: int, r: Record, piece: bytes,
                     a: bytes, b: bytes, c: bytes, d: bytes)
    requires Makes(z, bz, src, BonusFor(bonus, i), r, piece)
    requires blob == a + RecordBytes(r, |c|) + b && blob == c + Body(r) + d && |blob| < TWO63
    ensures ChunkEffect(z, bz, src, blob, bonus, i, |a|) == Send(piece, |a| + RecordSize(r))
  {
    hide RecordBytes, Field4, Field8, ApplyMem;
    match r
    case NormalRecord(start, len, patch) =>
      NormalFields(blob, a, b, r, |c|);
      assert ApplyMem(bz, src[start..start + len], c + patch + d, |c|) == Done(piece);
    case RawRecord(data) =>
      RawFields(blob, a, b, r, |c|);
    case DeflateRecord(start, len, elen, tlen, params, patch) =>
      DeflateFields(blob, a, b, r, |c|);
      var out := z.inflate(src[start..start + len]).value.output + BonusFor(bonus, i);
      var content :| PatchFor(bz, out, content, patch) && z.deflate(params, content) == Some(piece);
      assert ApplyMem(bz, out, c + patch + d, |c|) == Done(content);
  }

  /** A deflate record in order, except that zlib refuses its parameters for what its patch makes. */
  ghost predicate Refused(z: Zlib, bz: Bzip2, src: bytes, bonus: bytes, r: Record, content: bytes) {
    && r.DeflateRecord? && r.srcStart + r.srcLen <= |src| < TWO63 && r.expandedLen < TWO63 && r.targetLen < TWO63
    && Fits(r.params) && z.inflate(src[r.srcStart..r.srcStart + r.srcLen]).Some?
    && var out := z.inflate(src[r.srcStart..r.srcStart + r.srcLen]).value.output + bonus;
       |out| == r.expandedLen && PatchFor(bz, out, content, r.patch) && z.deflate(r.params, content).None?
  }

  /** A patch that consists of such a record makes the patcher compress for ever. */
  lemma RefusedHangs(z: Zlib, bz: Bzip2, src: bytes, bonus: Option<bytes>, r: Record, content: bytes)
    requires Refused(z, bz, src, BonusFor(bonus, 0), r, content) && |PatchBytes([r])| < TWO63
    ensures ApplyImage(z, bz, src, PatchBytes([r]), bonus) == Hangs
  {
    hide RecordBytes, Field4, Field8, ApplyMem, PatchBytes, Write4, Read4, Sizes, Bodies, ChunkEffect;
    var blob := PatchBytes([r]);
    var a, b, c, d := Locate([r], 0);
    RefusedEffect(z, bz, src, bonus, blob, r, content, a, b, c, d);
    PatchHead([r]);
    NoSizes([r]);
  }

  lemma RefusedEffect(z: Zlib, bz: Bzip2, src: bytes, bonus: Option<bytes>, blob: bytes, r: Record, content: bytes,
                      a: bytes, b: bytes, c: bytes, d: bytes)
    requires Refused(z, bz, src, BonusFor(bonus, 0), r, content)
    requires blob == a + RecordBytes(r, |c|) + b && blob == c + Body(r) + d && |blob| < TWO63
    ensures ChunkEffect(z, bz, src, blob, bonus, 0, |a|) == Stop(Hangs)
  {
    hide RecordBytes, Field4, Field8, ApplyMem;
    DeflateFields(blob, a, b, r, |c|);
    var out := z.inflate(src[r.srcStart..r.srcStart + r.srcLen]).value.output + BonusFor(bonus, 0);
    assert ApplyMem(bz, out, c + r.patch + d, |c|) == Done(content);
  }

  /** A normal record whose bsdiff patch does not begin with "BSDIFF40" makes nothing, and the patcher goes on. */
  lemma BadMagicSkipped(z: Zlib, bz: Bzip2, src: bytes, bonus: Option<bytes>, r: Record)
    requires r.NormalRecord? && r.srcStart + r.srcLen <= |src| < TWO63 && |PatchBytes([r])| < TWO63
    requires |r.patch| >= 32 && r.patch[..8] != [0x42, 0x53, 0x44, 0x49, 0x46, 0x46, 0x34, 0x30]
    ensures ApplyImage(z, bz, src, PatchBytes([r]), bonus) == Done([])
  {
    hide RecordBytes, Field4, Field8, PatchBytes, Write4, Read4, Sizes, Bodies, ChunkEffect;
    var blob := PatchBytes([r]);
    var a, b, c, d := Locate([r], 0);
    BadMagicEffect(z, bz, src, bonus, blob, r, a, b, c, d);
    PatchHead([r]);
    NoSizes([r]);
    var none: bytes := [];
    assert none + none == none;
    assert ApplyFrom(z, bz, src, blob, bonus, 1, 1, |a| + RecordSize(r), none) == Done(none);
  }

  lemma BadMagicEffect(z: Zlib, bz: Bzip2, src: bytes, bonus: Option<bytes>, blob: bytes, r: Record,
                       a: bytes, b: bytes, c: bytes, d: bytes)
    requires r.NormalRecord? && r.srcStart + r.srcLen <= |src| < TWO63 && |r.patch| >= 32
    requires r.patch[..8] != [0x42, 0x53, 0x44, 0x49, 0x46, 0x46, 0x34, 0x30]
    requires blob == a + RecordBytes(r, |c|) + b && blob == c + Body(r) + d && |blob| < TWO63
    ensures ChunkEffect(z, bz, src, blob, bonus, 0, |a|) == Send([], |a| + RecordSize(r))
  {
    hide RecordBytes, Field4, Field8, ApplyMem;
    NormalFields(blob, a, b, r, |c|);
    assert Body(r) == r.patch && blob[|c|..|c| + 8] == r.patch[..8];
    BadMagicFails(bz, src[r.srcStart..r.srcStart + r.srcLen], blob, |c|);
    assert RecordSize(r) == 28;
  }

  lemma BadMagicFails(bz: Bzip2, src: bytes, patch: bytes, offset: nat)
    requires offset + 32 <= |patch|
    requires patch[offset..offset + 8] != [0x42, 0x53, 0x44, 0x49, 0x46, 0x46, 0x34, 0x30]
    ensures ApplyMem(bz, src, patch, offset) == Failed
  {
  }

  lemma PatchHead(rs: seq<Record>)
    requires |rs| < TWO31
    ensures var blob := PatchBytes(rs);
            |blob| >= 12 && blob[..8] == IMG_MAGIC && Read4(blob[8..12]) == |rs|
  {
    hide Write4, Read4, Records, Bodies, Sizes;
    RoundTrip4(|rs|);
    var blob := PatchBytes(rs);
    assert blob[..8] == IMG_MAGIC && blob[8..12] == Write4(|rs|);
  }

  lemma NoSizes(rs: seq<Record>)
    ensures Sizes(rs[..0]) == 0
  {
  }

  ghost function Concat(ps: seq<bytes>): (s: bytes) {
    if ps == [] then [] else ps[0] + Concat(ps[1..])
  }

  /** Carrying out the records from i to n. */
  lemma {:induction false} ApplyRecords(z: Zlib, bz: Bzip2, src: bytes, bonus: Option<bytes>, rs: seq<Record>,
                                        ps: seq<bytes>,
                                        i: nat, n: nat, out: bytes)
    requires |ps| == |rs| && i <= n <= |rs| && |PatchBytes(rs)| < TWO63
    requires forall k :: 0 <= k < n ==> Makes(z, bz, src, BonusFor(bonus, k), rs[k], ps[k])
    ensures ApplyFrom(z, bz, src, PatchBytes(rs), bonus, |rs|, i, 12 + Sizes(rs[..i]), out) ==
            ApplyFrom(z, bz, src, PatchBytes(rs), bonus, |rs|, n, 12 + Sizes(rs[..n]), out + Concat(ps[i..n]))
    decreases n - i
  {
    hide PatchBytes, ChunkEffect, Makes, RecordBytes, Body, RecordSize, Sizes, ApplyFrom, Bodies;
    if i == n {
      assert ps[i..n] == [] && out + [] == out;
    } else {
      var a, b, c, d := Locate(rs, i);
      RecordEffect(z, bz, src, bonus, PatchBytes(rs), i, rs[i], ps[i], a, b, c, d);
      ApplyStep(z, bz, src, PatchBytes(rs), bonus, |rs|, i, |a|, out, ps[i], |a| + RecordSize(rs[i]));
      ApplyRecords(z, bz, src, bonus, rs, ps, i + 1, n, out + ps[i]);
      assert ps[i..n][1..] == ps[i + 1..n];
      assert out + (ps[i] + Concat(ps[i + 1..n])) == (out + ps[i]) + Concat(ps[i + 1..n]);
    }
  }

  lemma ApplyStep(z: Zlib, bz: Bzip2, src: bytes, patch: bytes, bonus: Option<bytes>, num: int, i: int, pos: nat,
                  out: bytes,
                  piece: bytes, next: nat)
    requires i < num && ChunkEffect(z, bz, src, patch, bonus, i, pos) == Send(piece, next)
    ensures ApplyFrom(z, bz, src, patch, bonus, num, i, pos, out) ==
            ApplyFrom(z, bz, src, patch, bonus, num, i + 1, next, out + piece)
  {
    hide ChunkEffect;
  }

  /** A record that has the patcher read more of the source than there is. */
  predicate Overruns(src: bytes, r: Record) {
    r.NormalRecord? && r.srcStart + r.srcLen > |src|
  }

  lemma OverrunEffect(z: Zlib, bz: Bzip2, src: bytes, bonus: Option<bytes>, blob: bytes, i: int, r: Record,
                      a: bytes, b: bytes, c: bytes)
    requires Overruns(src, r) && r.srcStart < TWO63 && r.srcLen < TWO63
    requires blob == a + RecordBytes(r, |c|) + b && |c| < TWO63
    ensures ChunkEffect(z, bz, src, blob, bonus, i, |a|) == Stop(Undefined)
  {
    hide RecordBytes, Field4, Field8, ApplyMem, DeflateEffect, RawEffect;
    NormalFields(blob, a, b, r, |c|);
  }

  /** The records before n make their pieces, and n is all of them or the first that overruns the source. */
  ghost predicate MakesUpTo(z: Zlib, bz: Bzip2, src: bytes, bonus: Option<bytes>, rs: seq<Record>, ps: seq<bytes>,
                            n: nat) {
    && n <= |rs| == |ps|
    && (forall k :: 0 <= k < n ==> Makes(z, bz, src, BonusFor(bonus, k), rs[k], ps[k]))
    && (n < |rs| ==> Overruns(src, rs[n]) && rs[n].srcStart < TWO63 && rs[n].srcLen < TWO63)
  }

  /** A patch file made of such records rebuilds the pieces in order; if a record overruns the source, the patcher
      reads outside it. */
  lemma PatchRebuilds(z: Zlib, bz: Bzip2, src: bytes, bonus: Option<bytes>, rs: seq<Record>, ps: seq<bytes>, n: nat)
    requires |rs| < TWO31 && |PatchBytes(rs)| < TWO63 && MakesUpTo(z, bz, src, bonus, rs, ps, n)
    ensures ApplyImage(z, bz, src, PatchBytes(rs), bonus) == if n == |rs| then Done(Concat(ps)) else Undefined
  {
    hide Makes, Write4, Read4, Records, Bodies, Sizes, RecordBytes, Body, ChunkEffect, Overruns;
    var blob := PatchBytes(rs);
    PatchHead(rs);
    ApplyRecords(z, bz, src, bonus, rs, ps, 0, n, []);
    NoRecords(0);
    assert rs[..0] == [] && [] + Concat(ps[0..n]) == Concat(ps[0..n]);
    if n == |rs| {
      assert ps[0..n] == ps;
    } else {
      var a, b, c, d := Locate(rs, n);
      OverrunEffect(z, bz, src, bonus, blob, n, rs[n], a, b, c);
    }
  }
}
