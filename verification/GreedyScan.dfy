/** The greedy scan of `bsdiff` in applypatch/bsdiff.c, said of its states: where a round stops, how it divides the new
    bytes it has passed, and that this leaves no choice. */
module GreedyScan {
  import opened Suffixes
  import opened SuffixSearch
  import opened BsPatch
  import opened DiffScan

  /** The variables of the main loop. */
  datatype Scan = Scan(scan: int, len: int, pos: int, lastscan: int, lastpos: int, lastoffset: int)

  const BEGIN := Scan(0, 0, 0, 0, 0, 0)

  /** The round from s ends at (scan, len, pos): at the first position after the last match where the scan stops, or at
      the end of the new file with the last match that was looked up. */
  ghost predicate StopsNext(I: seq<int>, src: bytes, tgt: bytes, s: Scan, scan: int, len: int, pos: int) {
    var start := s.scan + s.len;
    && Indexes(src, I) && 0 <= start <= scan <= |tgt| && 0 <= len
    && (forall t :: start <= t < scan ==> !StopsAt(I, src, tgt, start, s.lastoffset, t))
    && (scan < |tgt| ==> StopsAt(I, src, tgt, start, s.lastoffset, scan))
    && (if scan < |tgt| then Found(I, src, tgt, scan) == Match(len, pos)
        else if start < |tgt| then Found(I, src, tgt, |tgt| - 1) == Match(len, pos)
        else len == s.len && pos == s.pos)
  }

  /** A round that ended at `scan` writes a triple unless its match only repeats the last offset. */
  ghost predicate Writes(I: seq<int>, src: bytes, tgt: bytes, s: Scan, scan: int, len: int)
    requires Indexes(src, I) && 0 <= s.scan + s.len <= scan <= |tgt|
  {
    scan == |tgt| || len != OldScore(I, src, tgt, s.scan + s.len, s.lastoffset, scan)
  }

  /** Of the new bytes between the last match and the next, lenf go to the last and lenb to the next: the best extension
      of each, and where these overlap, the best cut. */
  ghost predicate Divides(src: bytes, tgt: bytes, lastscan: int, lastpos: int, scan: int, pos: int,
                          f: int, b: int, lenf: int, lenb: int) {
    && BestForward(src, tgt, lastpos - lastscan, lastscan, Min(scan - lastscan, |src| - lastpos), f)
    && (if scan < |tgt| then BestBackward(src, tgt, pos - scan, scan, Min(scan - lastscan, pos), b) else b == 0)
    && (if lastscan + f <= scan - b then lenf == f && lenb == b
        else
          && lastscan + lenf == scan - lenb
          && BestCut(src, tgt, lastpos - lastscan, pos - scan, scan - b, lastscan + f - (scan - b), b - lenb))
  }

  /** The round goes from s to s', and writes the triple t. */
  ghost predicate WritesTriple(src: bytes, tgt: bytes, s: Scan, s': Scan, t: Ctrl) {
    exists f, b, lenf, lenb ::
      && Divides(src, tgt, s.lastscan, s.lastpos, s'.scan, s'.pos, f, b, lenf, lenb)
      && s'.lastscan == s'.scan - lenb && s'.lastpos == s'.pos - lenb && s'.lastoffset == s'.pos - s'.scan
      && t == Ctrl(lenf, s'.lastscan - (s.lastscan + lenf), s'.lastpos - (s.lastpos + lenf))
  }

  /** The round goes from s to s', and writes ts. */
  ghost predicate ScanRound(I: seq<int>, src: bytes, tgt: bytes, s: Scan, s': Scan, ts: seq<Ctrl>) {
    && s.scan < |tgt| && StopsNext(I, src, tgt, s, s'.scan, s'.len, s'.pos)
    && if Writes(I, src, tgt, s, s'.scan, s'.len) then |ts| == 1 && WritesTriple(src, tgt, s, s', ts[0])
       else ts == [] && s'.lastscan == s.lastscan && s'.lastpos == s.lastpos && s'.lastoffset == s.lastoffset
  }

  /** The loop passes through the states ss, and has then written the triples cs. */
  ghost predicate Scanned(I: seq<int>, src: bytes, tgt: bytes, ss: seq<Scan>, cs: seq<Ctrl>)
    decreases |ss|
  {
    if |ss| <= 1 then ss == [BEGIN] && cs == []
    else exists early, ts ::
        && cs == early + ts
        && Scanned(I, src, tgt, ss[..|ss| - 1], early)
        && ScanRound(I, src, tgt, ss[|ss| - 2], ss[|ss| - 1], ts)
  }

  /** The whole loop. */
  ghost predicate Greedy(I: seq<int>, src: bytes, tgt: bytes, ss: seq<Scan>, cs: seq<Ctrl>) {
    Scanned(I, src, tgt, ss, cs) && ss != [] && ss[|ss| - 1].scan == |tgt|
  }

  lemma ScannedNone(I: seq<int>, src: bytes, tgt: bytes)
    ensures Scanned(I, src, tgt, [BEGIN], [])
  {
  }

  lemma ScannedMore(I: seq<int>, src: bytes, tgt: bytes, ss: seq<Scan>, cs: seq<Ctrl>, s: Scan, ts: seq<Ctrl>)
    requires Scanned(I, src, tgt, ss, cs) && ss != [] && ScanRound(I, src, tgt, ss[|ss| - 1], s, ts)
    ensures Scanned(I, src, tgt, ss + [s], cs + ts)
  {
    hide ScanRound;
    assert (ss + [s])[..|ss|] == ss;
  }

  // ----- the scan leaves no choice -----

  lemma StopsOnce(I: seq<int>, src: bytes, tgt: bytes, s: Scan, n1: int, len1: int, pos1: int,
                  n2: int, len2: int, pos2: int)
    requires StopsNext(I, src, tgt, s, n1, len1, pos1) && StopsNext(I, src, tgt, s, n2, len2, pos2)
    ensures n1 == n2 && len1 == len2 && pos1 == pos2
  {
    hide StopsAt, Found;
  }

  lemma DividesOnce(src: bytes, tgt: bytes, lastscan: int, lastpos: int, scan: int, pos: int,
                    f1: int, b1: int, lenf1: int, lenb1: int, f2: int, b2: int, lenf2: int, lenb2: int)
    requires Divides(src, tgt, lastscan, lastpos, scan, pos, f1, b1, lenf1, lenb1)
    requires Divides(src, tgt, lastscan, lastpos, scan, pos, f2, b2, lenf2, lenb2)
    ensures lenf1 == lenf2 && lenb1 == lenb2
  {
    hide BestForward, BestBackward, BestCut;
    var off, limit := lastpos - lastscan, Min(scan - lastscan, |src| - lastpos);
    ForwardOnce(src, tgt, off, lastscan, limit, f1, f2);
    if scan < |tgt| { BackwardOnce(src, tgt, pos - scan, scan, Min(scan - lastscan, pos), b1, b2); }
    if lastscan + f1 > scan - b1 {
      CutOnce(src, tgt, off, pos - scan, scan - b1, lastscan + f1 - (scan - b1), b1 - lenb1, b1 - lenb2);
    }
  }

  lemma ForwardOnce(src: bytes, tgt: bytes, off: int, from: int, limit: int, f1: int, f2: int)
    requires BestForward(src, tgt, off, from, limit, f1) && BestForward(src, tgt, off, from, limit, f2)
    ensures f1 == f2
  {
    hide Gain;
    assert Gain(src, tgt, off, from, f1) == Gain(src, tgt, off, from, f2);
  }

  lemma BackwardOnce(src: bytes, tgt: bytes, off: int, to: int, limit: int, b1: int, b2: int)
    requires BestBackward(src, tgt, off, to, limit, b1) && BestBackward(src, tgt, off, to, limit, b2)
    ensures b1 == b2
  {
    hide GainBack;
    assert GainBack(src, tgt, off, to, b1) == GainBack(src, tgt, off, to, b2);
  }

  lemma CutOnce(src: bytes, tgt: bytes, off1: int, off2: int, from: int, limit: int, c1: int, c2: int)
    requires BestCut(src, tgt, off1, off2, from, limit, c1) && BestCut(src, tgt, off1, off2, from, limit, c2)
    ensures c1 == c2
  {
    hide Lead;
    assert Lead(src, tgt, off1, off2, from, c1) == Lead(src, tgt, off1, off2, from, c2);
  }

  lemma WritesOnce(src: bytes, tgt: bytes, s: Scan, s1: Scan, t1: Ctrl, s2: Scan, t2: Ctrl)
    requires WritesTriple(src, tgt, s, s1, t1) && WritesTriple(src, tgt, s, s2, t2)
    requires s1.scan == s2.scan && s1.pos == s2.pos
    ensures t1 == t2 && s1.lastscan == s2.lastscan && s1.lastpos == s2.lastpos && s1.lastoffset == s2.lastoffset
  {
    hide Divides;
    var f1, b1, lenf1, lenb1 :|
      && Divides(src, tgt, s.lastscan, s.lastpos, s1.scan, s1.pos, f1, b1, lenf1, lenb1)
      && s1.lastscan == s1.scan - lenb1 && s1.lastpos == s1.pos - lenb1 && s1.lastoffset == s1.pos - s1.scan
      && t1 == Ctrl(lenf1, s1.lastscan - (s.lastscan + lenf1), s1.lastpos - (s.lastpos + lenf1));
    var f2, b2, lenf2, lenb2 :|
      && Divides(src, tgt, s.lastscan, s.lastpos, s2.scan, s2.pos, f2, b2, lenf2, lenb2)
      && s2.lastscan == s2.scan - lenb2 && s2.lastpos == s2.pos - lenb2 && s2.lastoffset == s2.pos - s2.scan
      && t2 == Ctrl(lenf2, s2.lastscan - (s.lastscan + lenf2), s2.lastpos - (s.lastpos + lenf2));
    DividesOnce(src, tgt, s.lastscan, s.lastpos, s1.scan, s1.pos, f1, b1, lenf1, lenb1, f2, b2, lenf2, lenb2);
  }

  lemma ScanRoundOnce(I: seq<int>, src: bytes, tgt: bytes, s: Scan, s1: Scan, ts1: seq<Ctrl>, s2: Scan, ts2: seq<Ctrl>)
    requires ScanRound(I, src, tgt, s, s1, ts1) && ScanRound(I, src, tgt, s, s2, ts2)
    ensures s1 == s2 && ts1 == ts2
  {
    hide StopsNext, Writes, WritesTriple;
    StopsOnce(I, src, tgt, s, s1.scan, s1.len, s1.pos, s2.scan, s2.len, s2.pos);
    if |ts1| == 1 && |ts2| == 1 { WritesOnce(src, tgt, s, s1, ts1[0], s2, ts2[0]); }
  }

  lemma {:induction false} SameSteps(I: seq<int>, src: bytes, tgt: bytes, ss1: seq<Scan>, cs1: seq<Ctrl>,
                                     ss2: seq<Scan>, cs2: seq<Ctrl>)
    requires Scanned(I, src, tgt, ss1, cs1) && Scanned(I, src, tgt, ss2, cs2) && |ss1| == |ss2|
    ensures ss1 == ss2 && cs1 == cs2
    decreases |ss1|
  {
    hide ScanRound;
    var n := |ss1| - 1;
    if n > 0 {
      var c1, t1 :| && cs1 == c1 + t1 && Scanned(I, src, tgt, ss1[..n], c1)
                    && ScanRound(I, src, tgt, ss1[n - 1], ss1[n], t1);
      var c2, t2 :| && cs2 == c2 + t2 && Scanned(I, src, tgt, ss2[..n], c2)
                    && ScanRound(I, src, tgt, ss2[n - 1], ss2[n], t2);
      SameSteps(I, src, tgt, ss1[..n], c1, ss2[..n], c2);
      assert ss1[..n][n - 1] == ss2[..n][n - 1];
      ScanRoundOnce(I, src, tgt, ss1[n - 1], ss1[n], t1, ss2[n], t2);
      assert ss1 == ss1[..n] + [ss1[n]] && ss2 == ss2[..n] + [ss2[n]];
    }
  }

  lemma ScanGoesOn(I: seq<int>, src: bytes, tgt: bytes, s: Scan, s': Scan, ts: seq<Ctrl>)
    requires ScanRound(I, src, tgt, s, s', ts)
    ensures s.scan < |tgt|
  {
  }

  /** The states on the way are those of a shorter run, which was not at its end. */
  lemma {:induction false} ScannedPrefix(I: seq<int>, src: bytes, tgt: bytes, ss: seq<Scan>, cs: seq<Ctrl>, n: nat)
    returns (early: seq<Ctrl>)
    requires Scanned(I, src, tgt, ss, cs) && 0 < n < |ss|
    ensures Scanned(I, src, tgt, ss[..n], early) && ss[n - 1].scan < |tgt|
    decreases |ss|
  {
    hide ScanRound;
    var m := |ss| - 1;
    var c, t :| cs == c + t && Scanned(I, src, tgt, ss[..m], c) && ScanRound(I, src, tgt, ss[m - 1], ss[m], t);
    if n == m {
      early := c;
      ScanGoesOn(I, src, tgt, ss[m - 1], ss[m], t);
    } else {
      early := ScannedPrefix(I, src, tgt, ss[..m], c, n);
      assert ss[..m][..n] == ss[..n];
    }
  }

  lemma NotLonger(I: seq<int>, src: bytes, tgt: bytes, ss1: seq<Scan>, cs1: seq<Ctrl>, ss2: seq<Scan>, cs2: seq<Ctrl>)
    requires Greedy(I, src, tgt, ss1, cs1) && Greedy(I, src, tgt, ss2, cs2)
    ensures |ss1| >= |ss2|
  {
    hide Scanned;
    var n := |ss1|;
    if n < |ss2| {
      var early := ScannedPrefix(I, src, tgt, ss2, cs2, n);
      assert ss2[n - 1] == ss2[..n][n - 1];
      SameSteps(I, src, tgt, ss1, cs1, ss2[..n], early);
    }
  }

  /** One suffix array and two files give one sequence of triples. */
  lemma GreedyOnce(I: seq<int>, src: bytes, tgt: bytes, ss1: seq<Scan>, cs1: seq<Ctrl>,
                   ss2: seq<Scan>, cs2: seq<Ctrl>)
    requires Greedy(I, src, tgt, ss1, cs1) && Greedy(I, src, tgt, ss2, cs2)
    ensures ss1 == ss2 && cs1 == cs2
  {
    hide Scanned;
    NotLonger(I, src, tgt, ss1, cs1, ss2, cs2);
    NotLonger(I, src, tgt, ss2, cs2, ss1, cs1);
    SameSteps(I, src, tgt, ss1, cs1, ss2, cs2);
  }
}
