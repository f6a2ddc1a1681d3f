/** `bsdiff` of applypatch/bsdiff.c: the control, difference and extra streams, and the patch file. */
module BsDiff {
  import opened Suffixes
  import opened SuffixSearch
  import opened Offsets
  import opened BsPatch
  import opened DiffScan
  import opened GreedyScan
  import QSufSort

  const LIMIT: int := 0x8000_0000_0000_0000

  predicate Representable(t: Ctrl) {
    -LIMIT < t.diff < LIMIT && -LIMIT < t.extra < LIMIT && -LIMIT < t.seek < LIMIT
  }

  ghost function Encode(cs: seq<Ctrl>): (c: bytes) {
    if cs == [] then [] else WriteCtrl(cs[0]) + Encode(cs[1..])
  }

  /** Reading the triples cs with the streams d and e takes the patcher from (pos, acc) to (pos', acc'),
      and it does not stop before the last of them. */
  ghost predicate Follows(src: bytes, size: nat, cs: seq<Ctrl>, d: bytes, e: bytes,
                          pos: int, acc: bytes, pos': int, acc': bytes)
    decreases |cs|
  {
    if cs == [] then d == [] && e == [] && pos' == pos && acc' == acc
    else
      var t := cs[0];
      && Representable(t) && |acc| < size
      && 0 <= t.diff <= |d| && 0 <= t.extra <= |e| && |acc| + t.diff + t.extra <= size
      && Follows(src, size, cs[1..], d[t.diff..], e[t.extra..], pos + t.diff + t.seek,
                 acc + AddOld(src, pos, d[..t.diff]) + e[..t.extra], pos', acc')
  }

  lemma CtrlRoundTrip(t: Ctrl, rest: bytes)
    requires Representable(t)
    ensures ReadCtrl(WriteCtrl(t) + rest) == t
  {
    hide Offtin, Offtout;
    OffsetRoundTrip(t.diff);
    OffsetRoundTrip(t.extra);
    OffsetRoundTrip(t.seek);
    var b := WriteCtrl(t) + rest;
    assert b[0..8] == Offtout(t.diff) && b[8..16] == Offtout(t.extra) && b[16..24] == Offtout(t.seek);
  }

  lemma {:induction false} FollowsLengths(src: bytes, size: nat, cs: seq<Ctrl>, d: bytes, e: bytes,
                                          pos: int, acc: bytes, pos': int, acc': bytes)
    requires Follows(src, size, cs, d, e, pos, acc, pos', acc')
    ensures |acc'| == |acc| + |d| + |e|
    decreases |cs|
  {
    if cs != [] {
      var t := cs[0];
      hide AddOld;
      FollowsLengths(src, size, cs[1..], d[t.diff..], e[t.extra..], pos + t.diff + t.seek,
                     acc + AddOld(src, pos, d[..t.diff]) + e[..t.extra], pos', acc');
    }
  }

  lemma FollowsFirst(src: bytes, size: nat, u: Ctrl, cs: seq<Ctrl>, d: bytes, e: bytes,
                     pos: int, acc: bytes, pos': int, acc': bytes)
    requires Representable(u) && |acc| < size
    requires 0 <= u.diff <= |d| && 0 <= u.extra <= |e| && |acc| + u.diff + u.extra <= size
    requires Follows(src, size, cs, d[u.diff..], e[u.extra..], pos + u.diff + u.seek,
                     acc + AddOld(src, pos, d[..u.diff]) + e[..u.extra], pos', acc')
    ensures Follows(src, size, [u] + cs, d, e, pos, acc, pos', acc')
  {
    hide AddOld, Representable;
    assert ([u] + cs)[0] == u && ([u] + cs)[1..] == cs;
  }

  /** One more triple. */
  lemma {:induction false} FollowsMore(src: bytes, size: nat, cs: seq<Ctrl>, d: bytes, e: bytes,
                                       pos: int, acc: bytes, pos': int, acc': bytes, t: Ctrl, d1: bytes, e1: bytes)
    requires Follows(src, size, cs, d, e, pos, acc, pos', acc')
    requires Representable(t) && |acc'| < size && t.diff == |d1| && t.extra == |e1| && |acc'| + |d1| + |e1| <= size
    ensures Follows(src, size, cs + [t], d + d1, e + e1, pos, acc,
                    pos' + t.diff + t.seek, acc' + AddOld(src, pos', d1) + e1)
    decreases |cs|
  {
    hide AddOld, Representable, Follows;
    FollowsParts(src, size, cs, d, e, pos, acc, pos', acc');
    if cs == [] {
      assert d + d1 == d1 && e + e1 == e1 && cs + [t] == [t] + [];
      assert d1[..|d1|] == d1 && e1[..|e1|] == e1 && d1[|d1|..] == [] && e1[|e1|..] == [];
      FollowsNone(src, size, pos' + t.diff + t.seek, acc' + AddOld(src, pos', d1) + e1);
      FollowsFirst(src, size, t, [], d1, e1, pos, acc, pos' + t.diff + t.seek, acc' + AddOld(src, pos', d1) + e1);
    } else {
      var u := cs[0];
      var acc1 := acc + AddOld(src, pos, d[..u.diff]) + e[..u.extra];
      FollowsMore(src, size, cs[1..], d[u.diff..], e[u.extra..], pos + u.diff + u.seek, acc1, pos', acc', t, d1, e1);
      assert (d + d1)[..u.diff] == d[..u.diff] && (d + d1)[u.diff..] == d[u.diff..] + d1;
      assert (e + e1)[..u.extra] == e[..u.extra] && (e + e1)[u.extra..] == e[u.extra..] + e1;
      FollowsFirst(src, size, u, cs[1..] + [t], d + d1, e + e1, pos, acc,
                   pos' + t.diff + t.seek, acc' + AddOld(src, pos', d1) + e1);
      assert [u] + (cs[1..] + [t]) == cs + [t];
    }
  }

  lemma FollowsNone(src: bytes, size: nat, pos: int, acc: bytes)
    ensures Follows(src, size, [], [], [], pos, acc, pos, acc)
  {
  }

  lemma FollowsParts(src: bytes, size: nat, cs: seq<Ctrl>, d: bytes, e: bytes,
                     pos: int, acc: bytes, pos': int, acc': bytes)
    requires Follows(src, size, cs, d, e, pos, acc, pos', acc')
    ensures cs == [] ==> d == [] && e == [] && pos' == pos && acc' == acc
    ensures cs != [] ==>
              var t := cs[0];
              && Representable(t) && |acc| < size
              && 0 <= t.diff <= |d| && 0 <= t.extra <= |e| && |acc| + t.diff + t.extra <= size
              && Follows(src, size, cs[1..], d[t.diff..], e[t.extra..], pos + t.diff + t.seek,
                         acc + AddOld(src, pos, d[..t.diff]) + e[..t.extra], pos', acc')
  {
  }

  /** The patcher does what Follows says. */
  lemma {:induction false} FollowsRebuild(src: bytes, size: nat, cs: seq<Ctrl>, d: bytes, e: bytes, w: Cuts,
                                          pos: int, acc: bytes, pos': int, acc': bytes)
    requires Follows(src, size, cs, d, e, pos, acc, pos', acc') && |acc'| == size
    ensures Rebuild(src, size, Encode(cs), d, e, w, pos, acc) == Done(acc')
    decreases |cs|
  {
    hide AddOld, ReadCtrl, WriteCtrl, Rebuild, Representable;
    if cs == [] {
      RebuildFull(src, size, [], d, e, w, pos, acc);
    } else {
      var t := cs[0];
      var rest := Encode(cs[1..]);
      CtrlRoundTrip(t, rest);
      assert (WriteCtrl(t) + rest)[24..] == rest;
      RebuildStep(src, size, Encode(cs), d, e, w, pos, acc);
      FollowsRebuild(src, size, cs[1..], d[t.diff..], e[t.extra..], w, pos + t.diff + t.seek,
                     acc + AddOld(src, pos, d[..t.diff]) + e[..t.extra], pos', acc');
    }
  }

  lemma {:induction false} EncodeMore(cs: seq<Ctrl>, t: Ctrl)
    ensures Encode(cs + [t]) == Encode(cs) + WriteCtrl(t)
    decreases |cs|
  {
    hide WriteCtrl;
    if cs == [] {
      assert cs + [t] == [t] && [t][1..] == [];
    } else {
      EncodeMore(cs[1..], t);
      assert (cs + [t])[1..] == cs[1..] + [t];
    }
  }

  /** The bytes bsdiff writes to the difference stream. */
  function Differences(src: bytes, pos: int, new_bytes: bytes): (d: bytes)
    requires 0 <= pos && pos + |new_bytes| <= |src|
    ensures |d| == |new_bytes|
  {
    seq(|new_bytes|, i requires 0 <= i < |new_bytes| => ByteSub(new_bytes[i], src[pos + i]))
  }

  lemma DifferencesAdd(src: bytes, pos: int, n: bytes)
    requires 0 <= pos && pos + |n| <= |src|
    ensures AddOld(src, pos, Differences(src, pos, n)) == n
  {
  }

  /** The differences of lenf new and old bytes are appended to the diff buffer. */
  method WriteDifferences(db: array<byte>, dblen: nat, src: bytes, tgt: bytes, lastscan: int, lastpos: int, lenf: int)
    requires 0 <= lenf && dblen + lenf <= db.Length
    requires 0 <= lastscan && lastscan + lenf <= |tgt| && 0 <= lastpos && lastpos + lenf <= |src|
    modifies db
    ensures db[..dblen + lenf] == old(db[..dblen]) + Differences(src, lastpos, tgt[lastscan..lastscan + lenf])
  {
    var i := 0;
    while i < lenf
      invariant 0 <= i <= lenf
      invariant forall k :: 0 <= k < dblen ==> db[k] == old(db[k])
      invariant forall k :: dblen <= k < dblen + i ==>
                  db[k] == ByteSub(tgt[lastscan + k - dblen], src[lastpos + k - dblen])
    {
      db[dblen + i] := ByteSub(tgt[lastscan + i], src[lastpos + i]);
      i := i + 1;
    }
  }

  /** The new bytes from `from` on are appended to the extra buffer. */
  method WriteExtra(eb: array<byte>, eblen: nat, tgt: bytes, from: int, count: int)
    requires 0 <= count && eblen + count <= eb.Length && 0 <= from && from + count <= |tgt|
    modifies eb
    ensures eb[..eblen + count] == old(eb[..eblen]) + tgt[from..from + count]
  {
    var i := 0;
    while i < count
      invariant 0 <= i <= count
      invariant forall k :: 0 <= k < eblen ==> eb[k] == old(eb[k])
      invariant forall k :: eblen <= k < eblen + i ==> eb[k] == tgt[from + k - eblen]
    {
      eb[eblen + i] := tgt[from + i];
      i := i + 1;
    }
  }

  /** How much of tgt[lastscan..scan) goes to the last match (lenf) and how much to the next one (lenb). */
  method Extents(src: bytes, tgt: bytes, lastscan: int, lastpos: int, scan: int, pos: int)
    returns (lenf: int, lenb: int, ghost f: int, ghost b: int)
    requires 0 <= lastscan <= scan <= |tgt| && 0 <= lastpos <= |src| && 0 <= pos <= |src|
    ensures Divides(src, tgt, lastscan, lastpos, scan, pos, f, b, lenf, lenb)
    ensures 0 <= lenf <= f && 0 <= lenb <= b && lastscan + lenf <= scan - lenb
    ensures lastpos + lenf <= |src| && lenb <= pos && (scan == |tgt| ==> lenb == 0)
  {
    hide Gain, GainBack, Lead;
    lenf := ExtendForward(src, tgt, lastscan, lastpos, scan);
    lenb := 0;
    if scan < |tgt| { lenb := ExtendBackward(src, tgt, lastscan, scan, pos); }
    f, b := lenf, lenb;
    if lastscan + lenf > scan - lenb {
      var overlap := (lastscan + lenf) - (scan - lenb);
      var lens := CutOverlap(src, tgt, lastpos - lastscan, pos - scan, scan - lenb, overlap);
      lenf := lenf + lens - overlap;
      lenb := lenb - lens;
    }
  }

  /** After the triples cs the patcher stands at (lastpos, tgt[..lastscan]), having used up db and eb. */
  ghost predicate Emitted(src: bytes, tgt: bytes, cs: seq<Ctrl>, ctrl: bytes, db: bytes, eb: bytes, lastscan: int,
                          lastpos: int) {
    && 0 <= lastscan <= |tgt| && ctrl == Encode(cs) && |db| + |eb| == lastscan
    && Follows(src, |tgt|, cs, db, eb, 0, [], lastpos, tgt[..lastscan])
  }

  lemma EmittedMore(src: bytes, tgt: bytes, cs: seq<Ctrl>, ctrl: bytes, db: bytes, eb: bytes, lastscan: int,
                    lastpos: int,
                    lenf: int, extra: int, seek: int)
    requires Emitted(src, tgt, cs, ctrl, db, eb, lastscan, lastpos) && lastscan < |tgt|
    requires 0 <= lenf && 0 <= extra && lastscan + lenf + extra <= |tgt| && 0 <= lastpos && lastpos + lenf <= |src|
    requires Representable(Ctrl(lenf, extra, seek))
    ensures var t := Ctrl(lenf, extra, seek);
            var m, n := lastscan + lenf, lastscan + lenf + extra;
            Emitted(src, tgt, cs + [t], ctrl + WriteCtrl(t), db + Differences(src, lastpos, tgt[lastscan..m]),
                    eb + tgt[m..n], n, lastpos + lenf + seek)
  {
    hide Follows, AddOld, Differences, Representable, WriteCtrl, Encode;
    var t := Ctrl(lenf, extra, seek);
    var m, n := lastscan + lenf, lastscan + lenf + extra;
    var d, e := Differences(src, lastpos, tgt[lastscan..m]), tgt[m..n];
    EncodeMore(cs, t);
    FollowsMore(src, |tgt|, cs, db, eb, 0, [], lastpos, tgt[..lastscan], t, d, e);
    DifferencesAdd(src, lastpos, tgt[lastscan..m]);
    assert tgt[..lastscan] + tgt[lastscan..m] + tgt[m..n] == tgt[..n];
  }

  /** Write one control triple and its pieces of the other two streams. */
  method Emit(db: array<byte>, dblen: nat, eb: array<byte>, eblen: nat, src: bytes, tgt: bytes,
              lastscan: int, lastpos: int, lenf: int, extra: int, seek: int, ctrl: bytes, ghost cs: seq<Ctrl>)
    returns (ctrl': bytes)
    requires db != eb && dblen <= db.Length == |tgt| + 1 && eblen <= eb.Length == |tgt| + 1
    requires Emitted(src, tgt, cs, ctrl, db[..dblen], eb[..eblen], lastscan, lastpos) && lastscan < |tgt|
    requires 0 <= lenf && 0 <= extra && lastscan + lenf + extra <= |tgt| && 0 <= lastpos && lastpos + lenf <= |src|
    requires Representable(Ctrl(lenf, extra, seek))
    modifies db, eb
    ensures dblen + lenf <= db.Length && eblen + extra <= eb.Length
    ensures Emitted(src, tgt, cs + [Ctrl(lenf, extra, seek)], ctrl', db[..dblen + lenf], eb[..eblen + extra],
                    lastscan + lenf + extra, lastpos + lenf + seek)
  {
    hide Emitted, Differences, Representable;
    EmittedLengths(src, tgt, cs, ctrl, db[..dblen], eb[..eblen], lastscan, lastpos);
    ghost var d0, e0 := db[..dblen], eb[..eblen];
    EmittedMore(src, tgt, cs, ctrl, d0, e0, lastscan, lastpos, lenf, extra, seek);
    WriteDifferences(db, dblen, src, tgt, lastscan, lastpos, lenf);
    ghost var d1 := db[..dblen + lenf];
    assert eb[..eblen] == e0;
    WriteExtra(eb, eblen, tgt, lastscan + lenf, extra);
    assert db[..dblen + lenf] == d1;
    ctrl' := ctrl + Offtout(lenf) + Offtout(extra) + Offtout(seek);
    assert ctrl' == ctrl + WriteCtrl(Ctrl(lenf, extra, seek));
  }

  lemma EmittedLengths(src: bytes, tgt: bytes, cs: seq<Ctrl>, ctrl: bytes, db: bytes, eb: bytes, lastscan: int,
                       lastpos: int)
    requires Emitted(src, tgt, cs, ctrl, db, eb, lastscan, lastpos)
    ensures |db| + |eb| == lastscan <= |tgt|
  {
  }

  lemma EmittedNone(src: bytes, tgt: bytes)
    ensures Emitted(src, tgt, [], [], [], [], 0, 0)
  {
  }

  /** When everything has been emitted, the patcher rebuilds tgt and reads every triple. */
  lemma EmittedAll(src: bytes, tgt: bytes, cs: seq<Ctrl>, ctrl: bytes, db: bytes, eb: bytes, lastpos: int)
    requires Emitted(src, tgt, cs, ctrl, db, eb, |tgt|, lastpos)
    ensures Rebuild(src, |tgt|, ctrl, db, eb, WHOLE, 0, []) == Done(tgt)
  {
    assert tgt[..|tgt|] == tgt;
    FollowsRebuild(src, |tgt|, cs, db, eb, WHOLE, 0, [], lastpos, tgt);
  }

  /** What FindStop and Extents promise is a round that writes one triple. */
  lemma WritesRound(I: seq<int>, src: bytes, tgt: bytes, s: Scan, scan: int, len: nat, pos: int,
                    f: int, b: int, lenf: int, lenb: int)
    requires s.scan < |tgt| && StopsNext(I, src, tgt, s, scan, len, pos) && Writes(I, src, tgt, s, scan, len)
    requires Divides(src, tgt, s.lastscan, s.lastpos, scan, pos, f, b, lenf, lenb)
    ensures ScanRound(I, src, tgt, s, Scan(scan, len, pos, scan - lenb, pos - lenb, pos - scan),
                  [Ctrl(lenf, (scan - lenb) - (s.lastscan + lenf), (pos - lenb) - (s.lastpos + lenf))])
  {
    hide StopsNext, Writes, Divides;
  }

  lemma QuietRound(I: seq<int>, src: bytes, tgt: bytes, s: Scan, scan: int, len: nat, pos: int)
    requires s.scan < |tgt| && StopsNext(I, src, tgt, s, scan, len, pos) && !Writes(I, src, tgt, s, scan, len)
    ensures ScanRound(I, src, tgt, s, s.(scan := scan, len := len, pos := pos), [])
  {
    hide StopsNext, Writes;
  }

  /** The main loop of `bsdiff`. */
  method DiffStreams(I: array<int>, src: bytes, tgt: bytes)
    returns (ctrl: bytes, d: bytes, e: bytes, ghost cs: seq<Ctrl>, ghost ss: seq<Scan>, ghost end: int)
    requires SuffixArray(src, I[..]) && |src| < LIMIT && |tgt| < LIMIT
    ensures Rebuild(src, |tgt|, ctrl, d, e, WHOLE, 0, []) == Done(tgt) && |d| + |e| == |tgt|
    ensures Emitted(src, tgt, cs, ctrl, d, e, |tgt|, end)
    ensures Greedy(I[..], src, tgt, ss, cs)
  {
    hide Rebuild, SuffixArray, Emitted, StopsAt, OldScore, Found, BestForward, BestBackward, BestCut, Scanned,
         ScanRound, StopsNext, Writes, Divides, Follows, Encode, Search, Agreements, Front;
    ArrayIndexes(src, I[..]);
    var db, eb := new byte[|tgt| + 1], new byte[|tgt| + 1];
    var dblen, eblen := 0, 0;
    var scan, len, pos := 0, 0, 0;
    var lastscan, lastpos, lastoffset := 0, 0, 0;
    ctrl, cs, ss := [], [], [BEGIN];
    EmittedNone(src, tgt);
    ScannedNone(I[..], src, tgt);
    assert db[..0] == [] && eb[..0] == [];
    while scan < |tgt|
      invariant 0 <= lastscan <= scan <= |tgt| && (scan == |tgt| ==> lastscan == |tgt|)
      invariant 0 <= len && (scan < |tgt| ==> scan + len <= |tgt|) && 0 <= scan + lastoffset
      invariant 0 <= lastpos <= |src| && 0 <= pos <= |src|
      invariant 0 <= dblen <= db.Length && 0 <= eblen <= eb.Length
      invariant Emitted(src, tgt, cs, ctrl, db[..dblen], eb[..eblen], lastscan, lastpos)
      invariant ss != [] && ss[|ss| - 1] == Scan(scan, len, pos, lastscan, lastpos, lastoffset)
      invariant Scanned(I[..], src, tgt, ss, cs)
      decreases |tgt| - scan - len
    {
      var oldscore;
      ghost var s := Scan(scan, len, pos, lastscan, lastpos, lastoffset);
      scan, len, pos, oldscore := FindStop(I, src, tgt, scan + len, lastoffset, len, pos);
      NextStop(I[..], src, tgt, s, s.scan + s.len, scan, len, pos, oldscore);
      ghost var ts: seq<Ctrl> := [];
      if len != oldscore || scan == |tgt| {
        var lenf, lenb, f, b := Extents(src, tgt, lastscan, lastpos, scan, pos);
        WritesRound(I[..], src, tgt, s, scan, len, pos, f, b, lenf, lenb);
        ts := [Ctrl(lenf, (scan - lenb) - (lastscan + lenf), (pos - lenb) - (lastpos + lenf))];
        ctrl := Emit(db, dblen, eb, eblen, src, tgt, lastscan, lastpos, lenf, (scan - lenb) - (lastscan + lenf),
                     (pos - lenb) - (lastpos + lenf), ctrl, cs);
        dblen := dblen + lenf;
        eblen := eblen + ((scan - lenb) - (lastscan + lenf));
        lastscan := scan - lenb;
        lastpos := pos - lenb;
        lastoffset := pos - scan;
      } else {
        QuietRound(I[..], src, tgt, s, scan, len, pos);
        assert cs + ts == cs;
      }
      ghost var s' := Scan(scan, len, pos, lastscan, lastpos, lastoffset);
      ScannedMore(I[..], src, tgt, ss, cs, s', ts);
      cs, ss := cs + ts, ss + [s'];
    }
    d, e, end := db[..dblen], eb[..eblen], lastpos;
    EmittedAll(src, tgt, cs, ctrl, d, e, end);
    EmittedLengths(src, tgt, cs, ctrl, d, e, |tgt|, end);
  }

  /** What FindStop promises, as the end of a round. */
  lemma NextStop(I: seq<int>, src: bytes, tgt: bytes, s: Scan, start: int, scan: int, len: nat, pos: int,
                 oldscore: int)
    requires Indexes(src, I) && start == s.scan + s.len && 0 <= start <= scan <= |tgt|
    requires forall t :: start <= t < scan ==> !StopsAt(I, src, tgt, start, s.lastoffset, t)
    requires scan < |tgt| ==> StopsAt(I, src, tgt, start, s.lastoffset, scan)
    requires scan < |tgt| ==> Match(len, pos) == Found(I, src, tgt, scan)
    requires scan < |tgt| ==> oldscore == OldScore(I, src, tgt, start, s.lastoffset, scan)
    requires scan == |tgt| && start < |tgt| ==> Match(len, pos) == Found(I, src, tgt, |tgt| - 1)
    requires start == |tgt| ==> len == s.len && pos == s.pos
    ensures StopsNext(I, src, tgt, s, scan, len, pos)
    ensures Writes(I, src, tgt, s, scan, len) <==> len != oldscore || scan == |tgt|
    ensures scan < |tgt| ==> len >= 1 && scan + len <= |tgt| && pos + len <= |src|
  {
    hide OldScore, Found;
    if scan < |tgt| { FoundBounds(I, src, tgt, scan); }
  }

  lemma ArrayIndexes(src: bytes, I: seq<int>)
    requires SuffixArray(src, I)
    ensures Indexes(src, I)
  {
  }

  // ----- the patch file -----

  function PatchFile(bz: Bzip2, size: nat, ctrl: bytes, d: bytes, e: bytes): (patch: bytes) {
    var c, d, e := bz.compress(ctrl), bz.compress(d), bz.compress(e);
    MAGIC + Offtout(|c|) + Offtout(|d|) + Offtout(size) + c + d + e
  }

  /** Wherever the patch lies in a larger blob, applying it there to src gives tgt. */
  ghost predicate PatchFor(bz: Bzip2, src: bytes, tgt: bytes, patch: bytes) {
    forall pre: bytes, post: bytes :: ApplyMem(bz, src, pre + patch + post, |pre|) == Done(tgt)
  }

  lemma PatchFileHeader(bz: Bzip2, size: nat, ctrl: bytes, d: bytes, e: bytes, pre: bytes, post: bytes)
    requires size < LIMIT && |PatchFile(bz, size, ctrl, d, e)| < LIMIT
    ensures var c', d', e' := bz.compress(ctrl), bz.compress(d), bz.compress(e);
            var blob := pre + PatchFile(bz, size, ctrl, d, e) + post;
            var o := |pre|;
            && |blob| == o + 32 + |c'| + |d'| + |e'| + |post|
            && blob[o..o + 8] == MAGIC && Offtin(blob[o + 8..o + 16]) == |c'|
            && Offtin(blob[o + 16..o + 24]) == |d'| && Offtin(blob[o + 24..o + 32]) == size
            && blob[o + 32..o + 32 + |c'|] == c' && blob[o + 32 + |c'|..o + 32 + |c'| + |d'|] == d'
            && blob[o + 32 + |c'| + |d'|..] == e' + post
  {
    hide Offtin, Offtout;
    var c', d', e' := bz.compress(ctrl), bz.compress(d), bz.compress(e);
    OffsetRoundTrip(|c'|);
    OffsetRoundTrip(|d'|);
    OffsetRoundTrip(size);
    var blob := pre + PatchFile(bz, size, ctrl, d, e) + post;
    var o := |pre|;
    assert blob[o + 8..o + 16] == Offtout(|c'|);
    assert blob[o + 16..o + 24] == Offtout(|d'|);
    assert blob[o + 24..o + 32] == Offtout(size);
  }

  lemma PatchFileApplies(bz: Bzip2, src: bytes, tgt: bytes, ctrl: bytes, d: bytes, e: bytes)
    requires bz.Lossless() && |tgt| < LIMIT && |PatchFile(bz, |tgt|, ctrl, d, e)| < LIMIT
    requires Rebuild(src, |tgt|, ctrl, d, e, WHOLE, 0, []) == Done(tgt)
    ensures PatchFor(bz, src, tgt, PatchFile(bz, |tgt|, ctrl, d, e))
  {
    hide PatchFile, Rebuild, Offtin;
    forall pre: bytes, post: bytes
      ensures ApplyMem(bz, src, pre + PatchFile(bz, |tgt|, ctrl, d, e) + post, |pre|) == Done(tgt)
    {
      PatchFileHeader(bz, |tgt|, ctrl, d, e, pre, post);
      assert bz.expand(bz.compress(ctrl) + []) == Expanded(ctrl, true) && bz.compress(ctrl) + [] == bz.compress(ctrl);
      assert bz.expand(bz.compress(d) + []) == Expanded(d, true) && bz.compress(d) + [] == bz.compress(d);
      assert bz.expand(bz.compress(e) + post) == Expanded(e, true);
    }
  }

  /** The patch file holds the streams of the greedy scan with the suffix array I. */
  ghost predicate GreedyPatch(bz: Bzip2, I: seq<int>, src: bytes, tgt: bytes, patch: bytes) {
    exists ctrl, d, e, cs, ss, end ::
      patch == PatchFile(bz, |tgt|, ctrl, d, e) && GreedyStreams(I, src, tgt, ctrl, d, e, cs, ss, end)
  }

  /** The streams are those of the triples cs of the greedy scan. */
  ghost predicate GreedyStreams(I: seq<int>, src: bytes, tgt: bytes, ctrl: bytes, d: bytes, e: bytes, cs: seq<Ctrl>,
                                ss: seq<Scan>, end: int) {
    Greedy(I, src, tgt, ss, cs) && Emitted(src, tgt, cs, ctrl, d, e, |tgt|, end)
  }

  /** `bsdiff`: the suffix array of src is computed unless the caller still has it; the patch turns src into tgt. */
  method BsDiff(bz: Bzip2, src: bytes, IP: array?<int>, tgt: bytes) returns (patch: bytes, I: array<int>)
    requires IP != null ==> SuffixArray(src, IP[..])
    requires bz.Lossless() && |src| < LIMIT && |tgt| < LIMIT
    ensures SuffixArray(src, I[..]) && (IP != null ==> I == IP)
    ensures |patch| < LIMIT ==> PatchFor(bz, src, tgt, patch)
    ensures GreedyPatch(bz, I[..], src, tgt, patch)
  {
    hide SuffixArray, Emitted, PatchFor, PatchFile, Rebuild, Greedy;
    if IP == null {
      I := new int[|src| + 1];
      var V := new int[|src| + 1];
      QSufSort.QSufSort(I, V, src);
    } else {
      I := IP;
    }
    var ctrl, d, e, cs, ss, end := DiffStreams(I, src, tgt);
    patch := PatchFile(bz, |tgt|, ctrl, d, e);
    assert GreedyStreams(I[..], src, tgt, ctrl, d, e, cs, ss, end);
    if |patch| < LIMIT { PatchFileApplies(bz, src, tgt, ctrl, d, e); }
  }

  // ----- one patch for two files -----

  lemma AddOldOnce(src: bytes, pos: int, d1: bytes, d2: bytes)
    requires AddOld(src, pos, d1) == AddOld(src, pos, d2)
    ensures d1 == d2
  {
    forall i | 0 <= i < |d1|
      ensures d1[i] == d2[i]
    {
      hide AddOld;
      AddedIs(src, pos, d1, i);
      AddedIs(src, pos, d2, i);
    }
  }

  lemma {:induction false} FollowsExtends(src: bytes, size: nat, cs: seq<Ctrl>, d: bytes, e: bytes,
                                          pos: int, acc: bytes, pos': int, acc': bytes)
    requires Follows(src, size, cs, d, e, pos, acc, pos', acc')
    ensures acc <= acc'
    decreases |cs|
  {
    hide AddOld, Follows, Representable;
    FollowsParts(src, size, cs, d, e, pos, acc, pos', acc');
    if cs != [] {
      var t := cs[0];
      FollowsExtends(src, size, cs[1..], d[t.diff..], e[t.extra..], pos + t.diff + t.seek,
                     acc + AddOld(src, pos, d[..t.diff]) + e[..t.extra], pos', acc');
    }
  }

  /** The triples and the new file give the other two streams. */
  lemma {:induction false} FollowsOnce(src: bytes, size: nat, cs: seq<Ctrl>, d1: bytes, e1: bytes, d2: bytes, e2: bytes,
                                       pos: int, acc: bytes, pos1: int, pos2: int, acc': bytes)
    requires Follows(src, size, cs, d1, e1, pos, acc, pos1, acc')
    requires Follows(src, size, cs, d2, e2, pos, acc, pos2, acc')
    ensures d1 == d2 && e1 == e2
    decreases |cs|
  {
    hide AddOld, Follows, Representable;
    FollowsParts(src, size, cs, d1, e1, pos, acc, pos1, acc');
    FollowsParts(src, size, cs, d2, e2, pos, acc, pos2, acc');
    if cs != [] {
      var t := cs[0];
      var a1, a2 := AddOld(src, pos, d1[..t.diff]), AddOld(src, pos, d2[..t.diff]);
      var x1, x2 := e1[..t.extra], e2[..t.extra];
      FollowsExtends(src, size, cs[1..], d1[t.diff..], e1[t.extra..], pos + t.diff + t.seek, acc + a1 + x1, pos1, acc');
      FollowsExtends(src, size, cs[1..], d2[t.diff..], e2[t.extra..], pos + t.diff + t.seek, acc + a2 + x2, pos2, acc');
      SameParts(acc, a1, x1, a2, x2, acc');
      AddOldOnce(src, pos, d1[..t.diff], d2[..t.diff]);
      FollowsOnce(src, size, cs[1..], d1[t.diff..], e1[t.extra..], d2[t.diff..], e2[t.extra..],
                  pos + t.diff + t.seek, acc + a1 + x1, pos1, pos2, acc');
      assert d1 == d1[..t.diff] + d1[t.diff..] && d2 == d2[..t.diff] + d2[t.diff..];
      assert e1 == e1[..t.extra] + e1[t.extra..] && e2 == e2[..t.extra] + e2[t.extra..];
    }
  }

  lemma SameParts(acc: bytes, a1: bytes, x1: bytes, a2: bytes, x2: bytes, whole: bytes)
    requires acc + a1 + x1 <= whole && acc + a2 + x2 <= whole && |a1| == |a2| && |x1| == |x2|
    ensures a1 == a2 && x1 == x2
  {
    var m, n := |acc| + |a1|, |acc| + |a1| + |x1|;
    assert a1 == whole[|acc|..m] && a2 == whole[|acc|..m];
    assert x1 == whole[m..n] && x2 == whole[m..n];
  }

  /** With one suffix array of src there is one patch file: its triples, and so its streams, are determined. */
  lemma OnePatch(bz: Bzip2, I: seq<int>, src: bytes, tgt: bytes, patch1: bytes, patch2: bytes)
    requires GreedyPatch(bz, I, src, tgt, patch1) && GreedyPatch(bz, I, src, tgt, patch2)
    ensures patch1 == patch2
  {
    hide Greedy, Follows, Encode, PatchFile;
    var ctrl1, d1, e1, cs1, ss1, end1 :|
      patch1 == PatchFile(bz, |tgt|, ctrl1, d1, e1) && GreedyStreams(I, src, tgt, ctrl1, d1, e1, cs1, ss1, end1);
    var ctrl2, d2, e2, cs2, ss2, end2 :|
      patch2 == PatchFile(bz, |tgt|, ctrl2, d2, e2) && GreedyStreams(I, src, tgt, ctrl2, d2, e2, cs2, ss2, end2);
    GreedyOnce(I, src, tgt, ss1, cs1, ss2, cs2);
    FollowsOnce(src, |tgt|, cs1, d1, e1, d2, e2, 0, [], end1, end2, tgt[..|tgt|]);
  }
}
