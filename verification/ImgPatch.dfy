/** Applying an image patch (applypatch/imgpatch.c). */
module ImgPatch {
  import opened Suffixes
  import opened BsPatch
  import opened ImgCodec
  import opened ImgChunks

  const CHUNK_NORMAL: int := 0
  const CHUNK_DEFLATE: int := 2
  const CHUNK_RAW: int := 3

  const IMG_MAGIC: bytes := [0x49, 0x4d, 0x47, 0x44, 0x49, 0x46, 0x46, 0x32]  // "IMGDIFF2"

  /** What one chunk record of the patch does: end the program, or send bytes to the sink and move on. */
  datatype Effect = Stop(outcome: Outcome<bytes>) | Send(output: bytes, next: nat)

  function Field8(patch: bytes, at: nat): (v: int)
    requires at + 8 <= |patch|
  {
    Read8(patch[at..at + 8])
  }

  function Field4(patch: bytes, at: nat): (v: int)
    requires at + 4 <= |patch|
  {
    Read4(patch[at..at + 4])
  }

  predicate InSource(src: bytes, start: int, len: int) {
    0 <= start && 0 <= len && start + len <= |src|
  }

  /** A normal chunk.  The program ignores a failure of the patch: the chunk then contributes nothing. */
  function NormalEffect(bz: Bzip2, src: bytes, patch: bytes, p: nat): (e: Effect) {
    if p + 24 > |patch| then Stop(Failed)
    else
      var start, len, offset := Field8(patch, p), Field8(patch, p + 8), Field8(patch, p + 16);
      if !InSource(src, start, len) then Stop(Undefined)
      else match ApplyMem(bz, src[start..start + len], patch, offset)
        case Undefined => Stop(Undefined)
        case Hangs => Stop(Hangs)
        case Failed => Send([], p + 24)
        case Done(b) => Send(b, p + 24)
  }

  function RawEffect(patch: bytes, p: nat): (e: Effect) {
    if p + 4 > |patch| then Stop(Failed)
    else
      var len := Field4(patch, p);
      if len < 0 then Stop(Undefined)
      else if p + 4 + len > |patch| then Stop(Failed)
      else Send(patch[p + 4..p + 4 + len], p + 4 + len)
  }

  function DeflateEffect(z: Zlib, bz: Bzip2, src: bytes, patch: bytes, bonus: bytes, p: nat): (e: Effect) {
    if p + 60 > |patch| then Stop(Failed)
    else
      var start, len, offset := Field8(patch, p), Field8(patch, p + 8), Field8(patch, p + 16);
      var expanded := Field8(patch, p + 24);
      var params := Params(Field4(patch, p + 40), Field4(patch, p + 44), Field4(patch, p + 48),
                           Field4(patch, p + 52), Field4(patch, p + 56));
      if expanded < 0 then Stop(Failed)
      else if !InSource(src, start, len) then Stop(Undefined)
      else match z.inflate(src[start..start + len])
        case None => Stop(Failed)
        case Some(i) =>
          if |i.output| + |bonus| != expanded then Stop(Failed)
          else match ApplyMem(bz, i.output + bonus, patch, offset)
            case Undefined => Stop(Undefined)
            case Hangs => Stop(Hangs)
            case Failed => Stop(Failed)
            case Done(b) =>
              // the result of deflateInit2 is ignored, and a stream that was not set up never ends
              if z.deflate(params, b).Some? then Send(z.deflate(params, b).value, p + 60) else Stop(Hangs)
  }

  /** The bonus data goes to chunk 1 and no other. */
  function BonusFor(bonus: Option<bytes>, i: int): (b: bytes) {
    if i == 1 && bonus.Some? then bonus.value else []
  }

  function ChunkEffect(z: Zlib, bz: Bzip2, src: bytes, patch: bytes, bonus: Option<bytes>, i: int, pos: nat)
    : (e: Effect)
  {
    if pos + 4 > |patch| then Stop(Failed)
    else
      var kind := Field4(patch, pos);
      if kind == CHUNK_NORMAL then NormalEffect(bz, src, patch, pos + 4)
      else if kind == CHUNK_RAW then RawEffect(patch, pos + 4)
      else if kind == CHUNK_DEFLATE then DeflateEffect(z, bz, src, patch, BonusFor(bonus, i), pos + 4)
      else Stop(Failed)
  }

  /** The records from i on, with the output so far. */
  function ApplyFrom(z: Zlib, bz: Bzip2, src: bytes, patch: bytes, bonus: Option<bytes>,
                     num: int, i: int, pos: nat, out: bytes): (r: Outcome<bytes>)
    decreases num - i
  {
    if i >= num then Done(out)
    else match ChunkEffect(z, bz, src, patch, bonus, i, pos)
      case Stop(r) => r
      case Send(b, next) => ApplyFrom(z, bz, src, patch, bonus, num, i + 1, next, out + b)
  }

  function ApplyImage(z: Zlib, bz: Bzip2, src: bytes, patch: bytes, bonus: Option<bytes>): (r: Outcome<bytes>) {
    if |patch| < 12 then Failed
    else if patch[..8] != IMG_MAGIC then Failed
    else ApplyFrom(z, bz, src, patch, bonus, Read4(patch[8..12]), 0, 12, [])
  }

  // ----- when the patcher never returns -----

  /** Record i of the patch is met at position `at`, when the loop stands at (j, pos). */
  ghost predicate Meets(z: Zlib, bz: Bzip2, src: bytes, patch: bytes, bonus: Option<bytes>, num: int, j: int, pos: nat,
                        i: int, at: nat)
    decreases num - j
  {
    && j < num
    && ((i == j && at == pos)
        || var e := ChunkEffect(z, bz, src, patch, bonus, j, pos);
           e.Send? && Meets(z, bz, src, patch, bonus, num, j + 1, e.next, i, at))
  }

  /** The parameters in the deflate record at p. */
  function ParamsAt(patch: bytes, p: nat): (r: Params)
    requires p + 64 <= |patch|
  {
    Params(Field4(patch, p + 44), Field4(patch, p + 48), Field4(patch, p + 52), Field4(patch, p + 56),
           Field4(patch, p + 60))
  }

  /** The bsdiff patch never comes to an end, or what it makes is to be compressed with parameters that are refused. */
  ghost predicate NeverCompressed(z: Zlib, made: Outcome<bytes>, params: Params) {
    made == Hangs || (made.Done? && z.deflate(params, made.value).None?)
  }

  /** The record at p is never done with: its bsdiff patch, which is applied to the source bytes or to what they
      expand to, never comes to an end, or zlib refuses its parameters. */
  ghost predicate RecordHangs(z: Zlib, bz: Bzip2, src: bytes, patch: bytes, bonus: bytes, p: nat) {
    && p + 28 <= |patch|
    && var kind, start, len := Field4(patch, p), Field8(patch, p + 4), Field8(patch, p + 12);
       && InSource(src, start, len)
       && var data, offset := src[start..start + len], Field8(patch, p + 20);
          || (kind == CHUNK_NORMAL && ApplyMem(bz, data, patch, offset) == Hangs)
          || (&& kind == CHUNK_DEFLATE && p + 64 <= |patch| && Field8(patch, p + 28) >= 0
              && z.inflate(data).Some? && |z.inflate(data).value.output| + |bonus| == Field8(patch, p + 28)
              && NeverCompressed(z, ApplyMem(bz, z.inflate(data).value.output + bonus, patch, offset),
                                 ParamsAt(patch, p)))
  }

  lemma ChunkHangs(z: Zlib, bz: Bzip2, src: bytes, patch: bytes, bonus: Option<bytes>, i: int, pos: nat)
    ensures ChunkEffect(z, bz, src, patch, bonus, i, pos) == Stop(Hangs) <==>
            RecordHangs(z, bz, src, patch, BonusFor(bonus, i), pos)
  {
    hide ApplyMem, Field8, Field4, BonusFor;
  }

  /** `ApplyImagePatch` never returns if and only if the loop meets a record that is never done with. */
  lemma {:induction false} ImageHangs(z: Zlib, bz: Bzip2, src: bytes, patch: bytes, bonus: Option<bytes>,
                                      num: int, j: int, pos: nat, out: bytes)
    ensures ApplyFrom(z, bz, src, patch, bonus, num, j, pos, out) == Hangs <==>
            exists i, at :: Meets(z, bz, src, patch, bonus, num, j, pos, i, at)
                            && RecordHangs(z, bz, src, patch, BonusFor(bonus, i), at)
    decreases num - j
  {
    hide ChunkEffect, RecordHangs, BonusFor;
    ChunkHangs(z, bz, src, patch, bonus, j, pos);
    if j < num {
      var e := ChunkEffect(z, bz, src, patch, bonus, j, pos);
      assert Meets(z, bz, src, patch, bonus, num, j, pos, j, pos);
      if e.Send? {
        ImageHangs(z, bz, src, patch, bonus, num, j + 1, e.next, out + e.output);
        if i, at :| Meets(z, bz, src, patch, bonus, num, j + 1, e.next, i, at)
                    && RecordHangs(z, bz, src, patch, BonusFor(bonus, i), at) {
          assert Meets(z, bz, src, patch, bonus, num, j, pos, i, at);
        }
      }
    }
  }

  // ----- the program -----

  /** The NORMAL branch of the loop. */
  method DoNormal(bz: Bzip2, src: bytes, patch: bytes, p: nat) returns (e: Effect)
    ensures e == NormalEffect(bz, src, patch, p)
  {
    hide ApplyMem;
    if p + 24 > |patch| { return Stop(Failed); }
    var start, len, offset := Field8(patch, p), Field8(patch, p + 8), Field8(patch, p + 16);
    if !InSource(src, start, len) { return Stop(Undefined); }
    var r := ApplyBSDiffPatchMem(bz, src[start..start + len], patch, offset);
    if r.Undefined? || r.Hangs? { return Stop(r); }
    if r.Failed? { return Send([], p + 24); }
    return Send(r.value, p + 24);
  }

  /** The DEFLATE branch of the loop. */
  method DoDeflate(z: Zlib, bz: Bzip2, src: bytes, patch: bytes, bonus: bytes, p: nat) returns (e: Effect)
    ensures e == DeflateEffect(z, bz, src, patch, bonus, p)
  {
    hide ApplyMem;
    if p + 60 > |patch| { return Stop(Failed); }
    var start, len, offset := Field8(patch, p), Field8(patch, p + 8), Field8(patch, p + 16);
    var expanded := Field8(patch, p + 24);
    var params := Params(Field4(patch, p + 40), Field4(patch, p + 44), Field4(patch, p + 48),
                         Field4(patch, p + 52), Field4(patch, p + 56));
    if expanded < 0 { return Stop(Failed); }
    if !InSource(src, start, len) { return Stop(Undefined); }
    var inflated := z.inflate(src[start..start + len]);
    if inflated.None? { return Stop(Failed); }
    if |inflated.value.output| + |bonus| != expanded { return Stop(Failed); }
    var r := ApplyBSDiffPatchMem(bz, inflated.value.output + bonus, patch, offset);
    if !r.Done? { return Stop(r); }
    var compressed := z.deflate(params, r.value);
    if compressed.None? { return Stop(Hangs); }
    return Send(compressed.value, p + 60);
  }

  /** `ApplyImagePatch`, with a sink that takes everything. */
  method ApplyImagePatch(z: Zlib, bz: Bzip2, src: bytes, patch: bytes, bonus: Option<bytes>) returns (r: Outcome<bytes>)
    ensures r == ApplyImage(z, bz, src, patch, bonus)
  {
    hide NormalEffect, DeflateEffect, RawEffect, Field4;
    if |patch| < 12 { return Failed; }
    if patch[..8] != IMG_MAGIC { return Failed; }
    var num := Read4(patch[8..12]);
    var i := 0;
    var pos: nat := 12;
    var out := [];
    ghost var goal := ApplyFrom(z, bz, src, patch, bonus, num, 0, 12, []);
    while i < num
      invariant 0 <= i && ApplyFrom(z, bz, src, patch, bonus, num, i, pos, out) == goal
    {
      if pos + 4 > |patch| { return Failed; }
      var kind := Field4(patch, pos);
      var e: Effect;
      if kind == CHUNK_NORMAL {
        e := DoNormal(bz, src, patch, pos + 4);
      } else if kind == CHUNK_RAW {
        e := RawEffect(patch, pos + 4);
      } else if kind == CHUNK_DEFLATE {
        e := DoDeflate(z, bz, src, patch, BonusFor(bonus, i), pos + 4);
      } else {
        return Failed;
      }
      assert e == ChunkEffect(z, bz, src, patch, bonus, i, pos);
      if e.Stop? { return e.outcome; }
      out := out + e.output;
      pos := e.next;
      i := i + 1;
    }
    return Done(out);
  }
}
