/** `MergeAdjacentNormalChunks` of applypatch/imgdiff.c. */
module ImgMerge {
  import opened Suffixes
  import opened ImgChunks

  /** b is a normal chunk that continues the normal chunk a in the image and in memory. */
  predicate Continues(a: Chunk, b: Chunk) {
    a.Normal? && b.Normal? && b.start == a.start + a.len && b.data == a.data + a.len
  }

  /** How many chunks from i on form one solid block. */
  function RunEnd(cs: seq<Chunk>, i: nat): (j: nat)
    requires i < |cs|
    ensures i < j <= |cs|
    decreases |cs| - i
  {
    if i + 1 < |cs| && Continues(cs[i], cs[i + 1]) then RunEnd(cs, i + 1) else i + 1
  }

  /** The chunk that replaces the run [i, j). */
  function Block(cs: seq<Chunk>, i: nat, j: nat): (c: Chunk)
    requires i < j <= |cs|
  {
    if j == i + 1 || !cs[i].Normal? || cs[j - 1].start < cs[i].start then cs[i]
    else Normal(cs[i].start, cs[j - 1].len + (cs[j - 1].start - cs[i].start), cs[i].data)
  }

  function Merged(cs: seq<Chunk>, i: nat): (r: seq<Chunk>)
    requires i <= |cs|
    decreases |cs| - i
  {
    if i == |cs| then [] else [Block(cs, i, RunEnd(cs, i))] + Merged(cs, RunEnd(cs, i))
  }

  lemma {:induction false} RunOrder(cs: seq<Chunk>, i: nat)
    requires i < |cs|
    ensures RunEnd(cs, i) > i + 1 ==> cs[i].Normal? && cs[RunEnd(cs, i) - 1].Normal?
    ensures cs[i].start <= cs[RunEnd(cs, i) - 1].start
    decreases |cs| - i
  {
    if i + 1 < |cs| && Continues(cs[i], cs[i + 1]) { RunOrder(cs, i + 1); }
  }

  /** The search for the end of a run. */
  method FindRunEnd(chunks: array<Chunk>, num: nat, in_start: nat) returns (in_end: nat)
    requires in_start < num <= chunks.Length
    ensures in_end == RunEnd(chunks[..num], in_start)
  {
    in_end := in_start + 1;
    if chunks[in_start].Normal? {
      while in_end < num && chunks[in_end].Normal? && chunks[in_end - 1].Normal?
            && chunks[in_end].start == chunks[in_end - 1].start + chunks[in_end - 1].len
            && chunks[in_end].data == chunks[in_end - 1].data + chunks[in_end - 1].len
        invariant in_start < in_end <= num
        invariant RunEnd(chunks[..num], in_end - 1) == RunEnd(chunks[..num], in_start)
      {
        in_end := in_end + 1;
      }
    }
  }

  /** Move the run [in_start, in_end) to slot out, as one chunk. */
  method PutBlock(chunks: array<Chunk>, out: nat, in_start: nat, in_end: nat, ghost cs: seq<Chunk>)
    requires out <= in_start < in_end <= |cs| <= chunks.Length && in_end == RunEnd(cs, in_start)
    requires forall k :: in_start <= k < |cs| ==> chunks[k] == cs[k]
    modifies chunks
    ensures chunks[..out + 1] == old(chunks[..out]) + [Block(cs, in_start, in_end)]
    ensures forall k :: in_end <= k < |cs| ==> chunks[k] == cs[k]
  {
    hide RunEnd;
    RunOrder(cs, in_start);
    if in_end == in_start + 1 {
      if out != in_start { chunks[out] := chunks[in_start]; }
    } else {
      chunks[out] := Normal(chunks[in_start].start,
                            chunks[in_end - 1].len + (chunks[in_end - 1].start - chunks[in_start].start),
                            chunks[in_start].data);
    }
  }

  /** `MergeAdjacentNormalChunks`: the list is compacted in place. */
  method MergeAdjacentNormalChunks(chunks: array<Chunk>, num: nat) returns (out: nat)
    requires num <= chunks.Length
    modifies chunks
    ensures out <= num && chunks[..out] == Merged(old(chunks[..num]), 0)
  {
    hide RunEnd, Block, Merged;
    ghost var cs := chunks[..num];
    out := 0;
    var in_start := 0;
    while in_start < num
      invariant 0 <= out <= in_start <= num
      invariant forall k :: in_start <= k < num ==> chunks[k] == cs[k]
      invariant chunks[..out] + Merged(cs, in_start) == Merged(cs, 0)
    {
      RunSame(chunks[..num], cs, in_start);
      var in_end := FindRunEnd(chunks, num, in_start);
      ghost var done, block := chunks[..out], Block(cs, in_start, in_end);
      PutBlock(chunks, out, in_start, in_end, cs);
      MergedStep(cs, in_start);
      assert done + ([block] + Merged(cs, in_end)) == (done + [block]) + Merged(cs, in_end);
      out := out + 1;
      in_start := in_end;
    }
    MergedEnd(cs);
    assert chunks[..out] + [] == chunks[..out];
  }

  lemma MergedStep(cs: seq<Chunk>, i: nat)
    requires i < |cs|
    ensures Merged(cs, i) == [Block(cs, i, RunEnd(cs, i))] + Merged(cs, RunEnd(cs, i))
  {
  }

  lemma MergedEnd(cs: seq<Chunk>)
    ensures Merged(cs, |cs|) == []
  {
  }

  /** The end of a run depends on the chunks from its start on only. */
  lemma {:induction false} RunSame(a: seq<Chunk>, b: seq<Chunk>, i: nat)
    requires |a| == |b| && i < |a| && forall k :: i <= k < |a| ==> a[k] == b[k]
    ensures RunEnd(a, i) == RunEnd(b, i)
    decreases |a| - i
  {
    if i + 1 < |a| { RunSame(a, b, i + 1); }
  }

  // ----- what merging keeps -----

  /** Neighbouring normal chunks always continue each other. */
  ghost predicate Solid(cs: seq<Chunk>) {
    forall i :: 0 <= i < |cs| - 1 && cs[i].Normal? && cs[i + 1].Normal? ==> Continues(cs[i], cs[i + 1])
  }

  ghost predicate SameKinds(a: seq<Chunk>, b: seq<Chunk>) {
    |a| == |b| && forall i :: 0 <= i < |a| ==> a[i].Normal? == b[i].Normal?
  }

  lemma TilesStep(cs: seq<Chunk>, i: nat, from: nat, end: nat)
    requires i < |cs| && Tiles(cs[i..], from, end)
    ensures cs[i].start == from && from + Extent(cs[i]) <= end && Tiles(cs[i + 1..], from + Extent(cs[i]), end)
  {
  }

  /** Chunks that tile an image and point to their own place in it are solid. */
  lemma {:induction false} TilesSolid(z: Zlib, img: bytes, size: nat, cs: seq<Chunk>, i: nat, from: nat, end: nat)
    requires i <= |cs| && Tiles(cs[i..], from, end) && AllValid(z, img, size, cs)
    ensures forall k :: i <= k < |cs| - 1 && cs[k].Normal? && cs[k + 1].Normal? ==> Continues(cs[k], cs[k + 1])
    decreases |cs| - i
  {
    if i < |cs| {
      TilesStep(cs, i, from, end);
      TilesSolid(z, img, size, cs, i + 1, from + Extent(cs[i]), end);
      if i + 1 < |cs| {
        TilesStep(cs, i + 1, from + Extent(cs[i]), end);
        assert Valid(z, img, size, cs[i]) && Valid(z, img, size, cs[i + 1]);
      }
    }
  }

  /** A run takes up what its chunks took up. */
  lemma {:induction false} RunTiles(cs: seq<Chunk>, i: nat, from: nat, end: nat)
    requires i < |cs| && Tiles(cs[i..], from, end)
    ensures var j := RunEnd(cs, i);
            var c := Block(cs, i, j);
            && c.start == from && from + Extent(c) <= end && Tiles(cs[j..], from + Extent(c), end)
            && cs[j - 1].start + Extent(cs[j - 1]) == from + Extent(c)
    decreases |cs| - i
  {
    TilesStep(cs, i, from, end);
    RunOrder(cs, i);
    if i + 1 < |cs| && Continues(cs[i], cs[i + 1]) {
      RunTiles(cs, i + 1, from + Extent(cs[i]), end);
    }
  }

  lemma {:induction false} MergedTiles(cs: seq<Chunk>, i: nat, from: nat, end: nat)
    requires i <= |cs| && Tiles(cs[i..], from, end)
    ensures Tiles(Merged(cs, i), from, end)
    decreases |cs| - i
  {
    hide RunEnd, Block;
    if i < |cs| {
      RunTiles(cs, i, from, end);
      var j := RunEnd(cs, i);
      var c := Block(cs, i, j);
      MergedTiles(cs, j, from + Extent(c), end);
      assert ([c] + Merged(cs, j))[1..] == Merged(cs, j);
    }
  }

  lemma BlockValid(z: Zlib, img: bytes, size: nat, cs: seq<Chunk>, i: nat, from: nat, end: nat)
    requires i < |cs| && Tiles(cs[i..], from, end) && AllValid(z, img, size, cs) && end <= |img|
    ensures Valid(z, img, size, Block(cs, i, RunEnd(cs, i)))
  {
    RunTiles(cs, i, from, end);
    assert Valid(z, img, size, cs[i]);
  }

  lemma {:induction false} MergedValid(z: Zlib, img: bytes, size: nat, cs: seq<Chunk>, i: nat, from: nat, end: nat)
    requires i <= |cs| && Tiles(cs[i..], from, end) && AllValid(z, img, size, cs) && end <= |img|
    ensures AllValid(z, img, size, Merged(cs, i))
    decreases |cs| - i
  {
    hide RunEnd, Block, Valid;
    if i < |cs| {
      RunTiles(cs, i, from, end);
      var j := RunEnd(cs, i);
      var c := Block(cs, i, j);
      BlockValid(z, img, size, cs, i, from, end);
      MergedValid(z, img, size, cs, j, from + Extent(c), end);
    }
  }

  /** In a solid list a run of normal chunks goes on to the next deflate chunk. */
  lemma {:induction false} RunKinds(a: seq<Chunk>, b: seq<Chunk>, i: nat)
    requires Solid(a) && Solid(b) && SameKinds(a, b) && i < |a|
    ensures RunEnd(a, i) == RunEnd(b, i)
    ensures var j := RunEnd(a, i); a[i].Normal? ==> j == |a| || !a[j].Normal?
    decreases |a| - i
  {
    if i + 1 < |a| { RunKinds(a, b, i + 1); }
  }

  lemma BlockKind(cs: seq<Chunk>, i: nat, j: nat)
    requires i < j <= |cs|
    ensures Block(cs, i, j).Normal? == cs[i].Normal?
  {
  }

  /** Two solid lists of the same kinds merge to lists of the same kinds, hence of the same number. */
  lemma {:induction false} MergeKeepsKinds(a: seq<Chunk>, b: seq<Chunk>, i: nat)
    requires Solid(a) && Solid(b) && SameKinds(a, b) && i <= |a|
    ensures SameKinds(Merged(a, i), Merged(b, i))
    decreases |a| - i
  {
    hide RunEnd, Block, Continues;
    if i < |a| {
      RunKinds(a, b, i);
      var j := RunEnd(a, i);
      BlockKind(a, i, j);
      BlockKind(b, i, j);
      MergeKeepsKinds(a, b, j);
    }
  }

  /** No two normal chunks are neighbours. */
  ghost predicate Alternating(cs: seq<Chunk>) {
    forall i :: 0 <= i < |cs| - 1 ==> !(cs[i].Normal? && cs[i + 1].Normal?)
  }

  lemma {:induction false} MergedAlternates(cs: seq<Chunk>, i: nat)
    requires Solid(cs) && i <= |cs|
    ensures Alternating(Merged(cs, i))
    ensures i < |cs| ==> Merged(cs, i) != [] && Merged(cs, i)[0].Normal? == cs[i].Normal?
    decreases |cs| - i
  {
    hide RunEnd, Block, Continues;
    if i < |cs| {
      RunKinds(cs, cs, i);
      var j := RunEnd(cs, i);
      BlockKind(cs, i, j);
      MergedAlternates(cs, j);
      var m := Merged(cs, j);
      assert forall k :: 1 <= k < |m| + 1 ==> ([Block(cs, i, j)] + m)[k] == m[k - 1];
    }
  }

  lemma {:induction false} AlternatingFixed(cs: seq<Chunk>, i: nat)
    requires Alternating(cs) && i <= |cs|
    ensures Merged(cs, i) == cs[i..]
    decreases |cs| - i
  {
    if i < |cs| {
      AlternatingFixed(cs, i + 1);
      assert cs[i..] == [cs[i]] + cs[i + 1..];
    }
  }

  /** Merging twice is merging once. */
  lemma MergeIdempotent(cs: seq<Chunk>)
    requires Solid(cs)
    ensures Merged(Merged(cs, 0), 0) == Merged(cs, 0)
  {
    MergedAlternates(cs, 0);
    AlternatingFixed(Merged(cs, 0), 0);
    assert Merged(cs, 0)[0..] == Merged(cs, 0);
  }

  /** The bytes of the image a list of chunks stands for. */
  ghost function Content(img: bytes, cs: seq<Chunk>): (s: bytes)
    decreases |cs|
  {
    if cs == [] then []
    else
      var a, e := cs[0].start, Extent(cs[0]);
      (if a + e <= |img| then img[a..a + e] else []) + Content(img, cs[1..])
  }

  /** Chunks that tile a stretch of the image stand for exactly its bytes. */
  lemma {:induction false} TilesContent(img: bytes, cs: seq<Chunk>, from: nat, end: nat)
    requires Tiles(cs, from, end) && end <= |img| && from <= end
    ensures Content(img, cs) == img[from..end]
    decreases |cs|
  {
    if cs != [] {
      var mid := from + Extent(cs[0]);
      TilesContent(img, cs[1..], mid, end);
      assert img[from..mid] + img[mid..end] == img[from..end];
    }
  }

  /** Merging does not change what a list stands for. */
  lemma MergeKeepsContent(img: bytes, cs: seq<Chunk>, end: nat)
    requires Tiles(cs, 0, end) && end <= |img|
    ensures Content(img, Merged(cs, 0)) == Content(img, cs)
  {
    assert cs[0..] == cs;
    MergedTiles(cs, 0, 0, end);
    TilesContent(img, cs, 0, end);
    TilesContent(img, Merged(cs, 0), 0, end);
  }
}
