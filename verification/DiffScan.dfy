/** The scanning loops of `bsdiff` in applypatch/bsdiff.c: where the next match is worth taking, how far the
    last match and the next one can be extended towards each other, and where to cut their overlap. */
module DiffScan {
  import opened Suffixes
  import opened SuffixSearch

  /** Byte t of tgt agrees with the old file under the given offset. */
  predicate Agree(src: bytes, tgt: bytes, off: int, t: int) {
    0 <= t < |tgt| && 0 <= t + off < |src| && src[t + off] == tgt[t]
  }

  /** How many bytes of tgt[a..b) agree. */
  ghost function Agreements(src: bytes, tgt: bytes, off: int, a: int, b: int): (n: nat)
    decreases b - a
  {
    if b <= a then 0 else Agreements(src, tgt, off, a, b - 1) + (if Agree(src, tgt, off, b - 1) then 1 else 0)
  }

  lemma AgreementsLast(src: bytes, tgt: bytes, off: int, a: int, b: int)
    requires a <= b
    ensures Agreements(src, tgt, off, a, b + 1) ==
            Agreements(src, tgt, off, a, b) + (if Agree(src, tgt, off, b) then 1 else 0)
  {
  }

  lemma {:induction false} AgreementsFirst(src: bytes, tgt: bytes, off: int, a: int, b: int)
    requires a < b
    ensures Agreements(src, tgt, off, a, b) ==
            Agreements(src, tgt, off, a + 1, b) + (if Agree(src, tgt, off, a) then 1 else 0)
    decreases b - a
  {
    if a + 1 < b { AgreementsFirst(src, tgt, off, a, b - 1); }
  }

  // ----- the search for a match worth taking -----

  /** The match found at position t of tgt. */
  function Found(I: seq<int>, src: bytes, tgt: bytes, t: int): (m: Match)
    requires Indexes(src, I) && 0 <= t < |tgt|
  {
    Search(I, src, tgt[t..], 0, |src|)
  }

  /** The end of the furthest match found from `start` up to and including t. */
  ghost function Front(I: seq<int>, src: bytes, tgt: bytes, start: int, t: int): (f: int)
    requires Indexes(src, I) && 0 <= start && t < |tgt|
    decreases t - start
  {
    if t < start then start
    else
      var f, e := Front(I, src, tgt, start, t - 1), t + Found(I, src, tgt, t).len;
      if f < e then e else f
  }

  /** How many bytes from t to the front would be right without a new match. */
  ghost function OldScore(I: seq<int>, src: bytes, tgt: bytes, start: int, off: int, t: int): (n: nat)
    requires Indexes(src, I) && 0 <= start <= t < |tgt|
  {
    Agreements(src, tgt, off, t, Front(I, src, tgt, start, t))
  }

  /** The scan stops at t: the match there only repeats the old offset, or beats it by more than 8 bytes. */
  ghost predicate StopsAt(I: seq<int>, src: bytes, tgt: bytes, start: int, off: int, t: int)
    requires Indexes(src, I) && 0 <= start <= t < |tgt|
  {
    var len, score := Found(I, src, tgt, t).len, OldScore(I, src, tgt, start, off, t);
    (len == score && len != 0) || len > score + 8
  }

  lemma {:induction false} FrontBounds(I: seq<int>, src: bytes, tgt: bytes, start: int, t: int)
    requires Indexes(src, I) && 0 <= start <= t + 1 <= |tgt|
    ensures start <= Front(I, src, tgt, start, t) <= |tgt|
    ensures start <= t ==> Front(I, src, tgt, start, t) >= t + Found(I, src, tgt, t).len
    decreases t - start
  {
    hide Search;
    if start <= t { FrontBounds(I, src, tgt, start, t - 1); }
  }

  /** Where no byte of the old file matches, nothing agrees. */
  lemma NoMatchDisagrees(I: seq<int>, src: bytes, tgt: bytes, off: int, t: int)
    requires SuffixArray(src, I) && 0 <= t < |tgt|
    ensures Indexes(src, I) && (Found(I, src, tgt, t).len == 0 ==> !Agree(src, tgt, off, t))
  {
    hide SuffixArray, Search;
    SearchZero(I, src, tgt[t..]);
  }

  /** The loop that adds the agreements up to the end of the match to the old score. */
  method CountAgreements(src: bytes, tgt: bytes, off: int, scsc0: int, end: int, oldscore0: int)
    returns (scsc: int, oldscore: int)
    requires 0 <= scsc0 + off && 0 <= scsc0 && end <= |tgt|
    ensures scsc == if scsc0 < end then end else scsc0
    ensures oldscore == oldscore0 + Agreements(src, tgt, off, scsc0, end)
  {
    scsc, oldscore := scsc0, oldscore0;
    while scsc < end
      invariant scsc0 <= scsc && (scsc <= end || scsc == scsc0)
      invariant oldscore == oldscore0 + Agreements(src, tgt, off, scsc0, scsc)
    {
      if scsc + off < |src| && src[scsc + off] == tgt[scsc] { oldscore := oldscore + 1; }
      scsc := scsc + 1;
    }
  }

  lemma {:induction false} AgreementsSplit(src: bytes, tgt: bytes, off: int, a: int, b: int, c: int)
    requires a <= b <= c
    ensures Agreements(src, tgt, off, a, c) == Agreements(src, tgt, off, a, b) + Agreements(src, tgt, off, b, c)
    decreases c - b
  {
    if b < c { AgreementsSplit(src, tgt, off, a, b, c - 1); }
  }

  lemma {:induction false} AgreementsNone(src: bytes, tgt: bytes, off: int, a: int, b: int)
    requires forall t :: a <= t < b ==> !Agree(src, tgt, off, t)
    ensures Agreements(src, tgt, off, a, b) == 0
    decreases b - a
  {
    if a < b { AgreementsNone(src, tgt, off, a, b - 1); }
  }

  /** The score of the scan at t, carried in two pieces: what is counted already and what the new match adds. */
  lemma ScoreGrows(src: bytes, tgt: bytes, off: int, t: int, scsc: int, end: int)
    requires t <= end && forall u :: scsc <= u < t ==> !Agree(src, tgt, off, u)
    ensures Agreements(src, tgt, off, t, scsc) + Agreements(src, tgt, off, scsc, end) ==
            Agreements(src, tgt, off, t, if scsc < end then end else scsc)
  {
    if scsc < t {
      AgreementsSplit(src, tgt, off, scsc, t, end);
      AgreementsNone(src, tgt, off, scsc, t);
    } else if scsc < end {
      AgreementsSplit(src, tgt, off, t, scsc, end);
    }
  }

  /** The inner loop of `bsdiff`: find the first position from `start` on at which the scan stops. */
  method FindStop(I: array<int>, src: bytes, tgt: bytes, start: int, off: int, len0: nat, pos0: int)
    returns (scan: int, len: nat, pos: int, oldscore: int)
    requires SuffixArray(src, I[..]) && Indexes(src, I[..])
    requires 0 <= start <= |tgt| && 0 <= start + off && 0 <= pos0 <= |src|
    ensures start <= scan <= |tgt| && 0 <= pos <= |src| && 0 <= oldscore
    ensures forall t :: start <= t < scan ==> !StopsAt(I[..], src, tgt, start, off, t)
    ensures scan < |tgt| ==> StopsAt(I[..], src, tgt, start, off, scan)
    ensures scan < |tgt| ==> Match(len, pos) == Found(I[..], src, tgt, scan)
    ensures scan < |tgt| ==> oldscore == OldScore(I[..], src, tgt, start, off, scan)
    ensures scan == |tgt| && start < |tgt| ==> Match(len, pos) == Found(I[..], src, tgt, |tgt| - 1)
    ensures start == |tgt| ==> len == len0 && pos == pos0
  {
    hide SuffixArray, Found, Agree, Agreements, Front, StopsAt;
    ghost var J := I[..];
    scan, len, pos, oldscore := start, len0, pos0, 0;
    var scsc := start;
    FrontBounds(J, src, tgt, start, start - 1);
    FrontStart(J, src, tgt, start);
    AgreementsNone(src, tgt, off, start, start);
    while scan < |tgt|
      invariant start <= scan <= |tgt| && 0 <= pos <= |src|
      invariant scsc == Front(J, src, tgt, start, scan - 1) && start <= scsc
      invariant oldscore == Agreements(src, tgt, off, scan, scsc)
      invariant forall t :: scsc <= t < scan ==> !Agree(src, tgt, off, t)
      invariant forall t :: start <= t < scan ==> !StopsAt(J, src, tgt, start, off, t)
      invariant start < scan ==> Match(len, pos) == Found(J, src, tgt, scan - 1)
      invariant start == scan ==> len == len0 && pos == pos0
    {
      var m := Found(I[..], src, tgt, scan);
      FoundBounds(J, src, tgt, scan);
      len, pos := m.len, m.pos;
      ScoreGrows(src, tgt, off, scan, scsc, scan + len);
      FrontNext(J, src, tgt, start, scan);
      scsc, oldscore := CountAgreements(src, tgt, off, scsc, scan + len, oldscore);
      StopsMeans(J, src, tgt, start, off, scan, len, oldscore);
      if (len == oldscore && len != 0) || len > oldscore + 8 { break; }
      NoMatchDisagrees(J, src, tgt, off, scan);
      ScoreMoves(src, tgt, off, scan, scsc);
      AgreeMeans(src, tgt, off, scan);
      if scan + off < |src| && src[scan + off] == tgt[scan] { oldscore := oldscore - 1; }
      scan := scan + 1;
    }
  }

  lemma FrontStart(I: seq<int>, src: bytes, tgt: bytes, start: int)
    requires Indexes(src, I) && 0 <= start <= |tgt|
    ensures Front(I, src, tgt, start, start - 1) == start
  {
  }

  lemma FrontNext(I: seq<int>, src: bytes, tgt: bytes, start: int, t: int)
    requires Indexes(src, I) && 0 <= start <= t < |tgt|
    ensures var f, e := Front(I, src, tgt, start, t - 1), t + Found(I, src, tgt, t).len;
            Front(I, src, tgt, start, t) == if f < e then e else f
  {
  }

  lemma FoundBounds(I: seq<int>, src: bytes, tgt: bytes, t: int)
    requires Indexes(src, I) && 0 <= t < |tgt|
    ensures var m := Found(I, src, tgt, t); t + m.len <= |tgt| && 0 <= m.pos && m.pos + m.len <= |src|
  {
  }

  lemma StopsMeans(I: seq<int>, src: bytes, tgt: bytes, start: int, off: int, t: int, len: int, score: int)
    requires Indexes(src, I) && 0 <= start <= t < |tgt|
    requires len == Found(I, src, tgt, t).len && score == Agreements(src, tgt, off, t, Front(I, src, tgt, start, t))
    ensures StopsAt(I, src, tgt, start, off, t) <==> ((len == score && len != 0) || len > score + 8)
    ensures score == OldScore(I, src, tgt, start, off, t)
  {
  }

  lemma AgreeMeans(src: bytes, tgt: bytes, off: int, t: int)
    requires 0 <= t < |tgt| && 0 <= t + off
    ensures Agree(src, tgt, off, t) <==> t + off < |src| && src[t + off] == tgt[t]
  {
  }

  /** Moving the scan on by one takes the byte it leaves out of the score. */
  lemma ScoreMoves(src: bytes, tgt: bytes, off: int, t: int, scsc: int)
    requires t < scsc || !Agree(src, tgt, off, t)
    ensures Agreements(src, tgt, off, t + 1, scsc) ==
            Agreements(src, tgt, off, t, scsc) - (if Agree(src, tgt, off, t) then 1 else 0)
  {
    if t < scsc { AgreementsFirst(src, tgt, off, t, scsc); }
  }

  // ----- extending matches -----

  /** How much better than half right the i bytes after `from` are. */
  ghost function Gain(src: bytes, tgt: bytes, off: int, from: int, i: int): int {
    2 * Agreements(src, tgt, off, from, from + i) - i
  }

  /** How much better than half right the i bytes before `to` are. */
  ghost function GainBack(src: bytes, tgt: bytes, off: int, to: int, i: int): int {
    2 * Agreements(src, tgt, off, to - i, to) - i
  }

  /** How many more of the i bytes after `from` are right under offset off1 than under off2. */
  ghost function Lead(src: bytes, tgt: bytes, off1: int, off2: int, from: int, i: int): int {
    Agreements(src, tgt, off1, from, from + i) - Agreements(src, tgt, off2, from, from + i)
  }

  /** Of the lengths up to `limit`, len is the first with the largest gain. */
  ghost predicate BestForward(src: bytes, tgt: bytes, off: int, from: int, limit: int, len: int) {
    && 0 <= len <= limit
    && (forall i :: 0 <= i <= limit ==> Gain(src, tgt, off, from, i) <= Gain(src, tgt, off, from, len))
    && (forall i :: 0 <= i < len ==> Gain(src, tgt, off, from, i) < Gain(src, tgt, off, from, len))
  }

  ghost predicate BestBackward(src: bytes, tgt: bytes, off: int, to: int, limit: int, len: int) {
    && 0 <= len <= limit
    && (forall i :: 0 <= i <= limit ==> GainBack(src, tgt, off, to, i) <= GainBack(src, tgt, off, to, len))
    && (forall i :: 0 <= i < len ==> GainBack(src, tgt, off, to, i) < GainBack(src, tgt, off, to, len))
  }

  ghost predicate BestCut(src: bytes, tgt: bytes, off1: int, off2: int, from: int, limit: int, len: int) {
    && 0 <= len <= limit
    && (forall i :: 0 <= i <= limit ==> Lead(src, tgt, off1, off2, from, i) <= Lead(src, tgt, off1, off2, from, len))
    && (forall i :: 0 <= i < len ==> Lead(src, tgt, off1, off2, from, i) < Lead(src, tgt, off1, off2, from, len))
  }

  function Min(a: int, b: int): int { if a < b then a else b }

  /** The first loop after the scan: the length by which the last match is best extended forwards. */
  method ExtendForward(src: bytes, tgt: bytes, lastscan: int, lastpos: int, scan: int) returns (lenf: int)
    requires 0 <= lastscan <= scan <= |tgt| && 0 <= lastpos <= |src|
    ensures BestForward(src, tgt, lastpos - lastscan, lastscan, Min(scan - lastscan, |src| - lastpos), lenf)
  {
    hide Agreements, Agree;
    ghost var off := lastpos - lastscan;
    AgreementsNone(src, tgt, off, lastscan, lastscan);
    var s, Sf, i := 0, 0, 0;
    lenf := 0;
    while lastscan + i < scan && lastpos + i < |src|
      invariant 0 <= lenf <= i <= Min(scan - lastscan, |src| - lastpos)
      invariant s == Agreements(src, tgt, off, lastscan, lastscan + i)
      invariant Sf == Agreements(src, tgt, off, lastscan, lastscan + lenf)
      invariant BestForward(src, tgt, off, lastscan, i, lenf)
    {
      AgreementsLast(src, tgt, off, lastscan, lastscan + i);
      AgreeMeans(src, tgt, off, lastscan + i);
      if src[lastpos + i] == tgt[lastscan + i] { s := s + 1; }
      i := i + 1;
      if s * 2 - i > Sf * 2 - lenf { Sf, lenf := s, i; }
    }
  }

  /** The second loop: the length by which the match at scan is best extended backwards. */
  method ExtendBackward(src: bytes, tgt: bytes, lastscan: int, scan: int, pos: int) returns (lenb: int)
    requires 0 <= lastscan <= scan <= |tgt| && 0 <= pos <= |src|
    ensures BestBackward(src, tgt, pos - scan, scan, Min(scan - lastscan, pos), lenb)
  {
    hide Agreements, Agree;
    ghost var off := pos - scan;
    AgreementsNone(src, tgt, off, scan, scan);
    var s, Sb, i := 0, 0, 1;
    lenb := 0;
    while scan >= lastscan + i && pos >= i
      invariant 0 <= lenb < i <= Min(scan - lastscan, pos) + 1
      invariant s == Agreements(src, tgt, off, scan - (i - 1), scan)
      invariant Sb == Agreements(src, tgt, off, scan - lenb, scan)
      invariant BestBackward(src, tgt, off, scan, i - 1, lenb)
    {
      AgreementsFirst(src, tgt, off, scan - i, scan);
      AgreeMeans(src, tgt, off, scan - i);
      if src[pos - i] == tgt[scan - i] { s := s + 1; }
      if s * 2 - i > Sb * 2 - lenb { Sb, lenb := s, i; }
      i := i + 1;
    }
  }

  /** The third loop: how much of an overlap of the two extensions the forward one should keep. */
  method CutOverlap(src: bytes, tgt: bytes, off1: int, off2: int, from: int, overlap: int) returns (lens: int)
    requires 0 <= from && 0 <= overlap && from + overlap <= |tgt|
    requires 0 <= from + off1 && from + overlap + off1 <= |src| && 0 <= from + off2 && from + overlap + off2 <= |src|
    ensures BestCut(src, tgt, off1, off2, from, overlap, lens)
  {
    var s, Ss, i := 0, 0, 0;
    lens := 0;
    while i < overlap
      invariant 0 <= lens <= i <= overlap
      invariant s == Lead(src, tgt, off1, off2, from, i) && Ss == Lead(src, tgt, off1, off2, from, lens)
      invariant BestCut(src, tgt, off1, off2, from, i, lens)
    {
      if tgt[from + i] == src[from + off1 + i] { s := s + 1; }
      if tgt[from + i] == src[from + off2 + i] { s := s - 1; }
      if s > Ss { Ss, lens := s, i + 1; }
      i := i + 1;
    }
  }
}
