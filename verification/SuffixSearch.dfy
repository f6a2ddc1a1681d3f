/** `matchlen` and `search` of applypatch/bsdiff.c: the binary search of a suffix array. */
module SuffixSearch {
  import opened Suffixes

  /** The length of the longest common prefix. */
  function Lcp(s: bytes, t: bytes): (n: nat)
    ensures n <= |s| && n <= |t| && s[..n] == t[..n]
    ensures n < |s| && n < |t| ==> s[n] != t[n]
    decreases |s|
  {
    if s == [] || t == [] || s[0] != t[0] then 0
    else
      var n := 1 + Lcp(s[1..], t[1..]);
      assert s[..n] == [s[0]] + s[1..][..n - 1] && t[..n] == [t[0]] + t[1..][..n - 1];
      n
  }

  /** Any place where two strings agree up to and differ or end is their Lcp. */
  lemma LcpUnique(s: bytes, t: bytes, n: nat)
    requires n <= |s| && n <= |t| && s[..n] == t[..n]
    requires n < |s| && n < |t| ==> s[n] != t[n]
    ensures Lcp(s, t) == n
  {
    var m := Lcp(s, t);
    assert forall k :: 0 <= k < n ==> s[k] == s[..n][k] && t[k] == t[..n][k];
    assert forall k :: 0 <= k < m ==> s[k] == s[..m][k] && t[k] == t[..m][k];
  }

  /** `matchlen` */
  method MatchLen(s: bytes, t: bytes) returns (i: nat)
    ensures i == Lcp(s, t)
  {
    i := 0;
    while i < |s| && i < |t|
      invariant i <= |s| && i <= |t| && s[..i] == t[..i]
    {
      if s[i] != t[i] { break; }
      i := i + 1;
    }
    LcpUnique(s, t, i);
  }

  /** `memcmp(s, t, MIN(|s|, |t|)) < 0` */
  predicate MemLess(s: bytes, t: bytes) {
    var n := Lcp(s, t); n < |s| && n < |t| && s[n] < t[n]
  }

  /** What the search knows about its ends: everything up to st compares below, everything from en on does not. */
  ghost predicate Bracketed(src: bytes, I: seq<int>, tgt: bytes, st: int, en: int) {
    && SuffixArray(src, I) && 0 <= st <= en <= |src| && (st == en ==> src == [])
    && (st == 0 || MemLess(src[I[st]..], tgt))
    && (en == |src| || !MemLess(src[I[en]..], tgt))
  }

  lemma MemLessFirst(s: bytes, t: bytes)
    requires s != [] && t != []
    ensures s[0] < t[0] ==> MemLess(s, t)
    ensures s[0] > t[0] ==> !MemLess(s, t)
    ensures s[0] == t[0] ==> Lcp(s, t) >= 1
  {
  }

  /** The empty suffix comes first. */
  lemma EmptyFirst(src: bytes, I: seq<int>)
    requires SuffixArray(src, I)
    ensures I[0] == |src| && forall k :: 1 <= k < |I| ==> I[k] < |src|
  {
    forall j | 1 <= j < |I|
      ensures I[j] < |src|
    {
      assert Before(src, I[0], I[j]);
    }
    assert |src| in I;
  }

  /** In a suffix array the first bytes are in order. */
  lemma FirstBytes(src: bytes, I: seq<int>, j: int, k: int)
    requires SuffixArray(src, I) && 1 <= j <= k < |I|
    ensures 0 <= I[j] < |src| && 0 <= I[k] < |src| && src[I[j]] <= src[I[k]]
  {
    EmptyFirst(src, I);
    assert j < k ==> Before(src, I[j], I[k]);
  }

  /** Two neighbours that bracket tgt include a match if its first byte occurs at all. */
  lemma NeighboursMatch(src: bytes, I: seq<int>, tgt: bytes, st: int, en: int)
    requires Bracketed(src, I, tgt, st, en) && en - st < 2 && tgt != [] && tgt[0] in src
    ensures Lcp(src[I[st]..], tgt) >= 1 || Lcp(src[I[en]..], tgt) >= 1
  {
    hide SuffixArray, Lcp, MemLess;
    var k := FirstOccurs(src, I, tgt[0]);
    if k <= st {
      FirstBytes(src, I, k, st);
      MemLessFirst(src[I[st]..], tgt);
    } else {
      FirstBytes(src, I, en, k);
      MemLessFirst(src[I[en]..], tgt);
    }
  }

  lemma FirstOccurs(src: bytes, I: seq<int>, b: byte) returns (k: int)
    requires SuffixArray(src, I) && b in src
    ensures 1 <= k < |I| == |src| + 1 && 0 <= I[k] < |src| && src[I[k]] == b
  {
    var p :| 0 <= p < |src| && src[p] == b;
    assert p in I;
    k :| 0 <= k < |I| && I[k] == p;
    EmptyFirst(src, I);
  }

  datatype Match = Match(len: nat, pos: int)

  ghost predicate Indexes(src: bytes, I: seq<int>) {
    |I| == |src| + 1 && forall k :: 0 <= k < |I| ==> 0 <= I[k] <= |src|
  }

  /** `search` */
  function Search(I: seq<int>, src: bytes, tgt: bytes, st: int, en: int): (m: Match)
    requires Indexes(src, I) && 0 <= st <= en <= |src|
    ensures 0 <= m.pos <= |src| && m.len == Lcp(src[m.pos..], tgt)
    decreases en - st
  {
    if en - st < 2 then
      var x := Lcp(src[I[st]..], tgt);
      var y := Lcp(src[I[en]..], tgt);
      if x > y then Match(x, I[st]) else Match(y, I[en])
    else
      var x := st + (en - st) / 2;
      if MemLess(src[I[x]..], tgt) then Search(I, src, tgt, x, en) else Search(I, src, tgt, st, x)
  }

  /** In a suffix array the search finds a non-empty match whenever the first byte occurs at all. */
  lemma {:induction false} SearchFinds(I: seq<int>, src: bytes, tgt: bytes, st: int, en: int)
    requires Bracketed(src, I, tgt, st, en) && Indexes(src, I)
    ensures tgt != [] && tgt[0] in src ==> Search(I, src, tgt, st, en).len >= 1
    decreases en - st
  {
    hide Lcp, MemLess, SuffixArray;
    if en - st < 2 {
      if tgt != [] && tgt[0] in src { NeighboursMatch(src, I, tgt, st, en); }
    } else {
      var x := st + (en - st) / 2;
      if MemLess(src[I[x]..], tgt) {
        SearchFinds(I, src, tgt, x, en);
      } else {
        SearchFinds(I, src, tgt, st, x);
      }
    }
  }

  /** The whole search: zero exactly when the first byte is absent from src. */
  lemma SearchZero(I: seq<int>, src: bytes, tgt: bytes)
    requires SuffixArray(src, I) && tgt != []
    ensures Indexes(src, I)
    ensures Search(I, src, tgt, 0, |src|).len == 0 <==> tgt[0] !in src
  {
    SearchFinds(I, src, tgt, 0, |src|);
    var m := Search(I, src, tgt, 0, |src|);
    if m.len > 0 { assert tgt[0] == tgt[..m.len][0] == src[m.pos..][..m.len][0] == src[m.pos]; }
  }

  // ----- when the match is the longest -----

  /** len is the length of a longest match of tgt in src. */
  ghost predicate Longest(src: bytes, tgt: bytes, len: nat) {
    && (forall p :: 0 <= p <= |src| ==> Lcp(src[p..], tgt) <= len)
    && exists p :: 0 <= p <= |src| && Lcp(src[p..], tgt) == len
  }

  /** The suffix at p is not empty and tgt goes on after it: the comparison, which stops at its end, does not put it
      before tgt, where it belongs. */
  predicate Misjudged(src: bytes, tgt: bytes, p: int) {
    0 <= p < |src| && src[p..] < tgt
  }

  /** The last suffix the search compares that is misjudged. */
  ghost function LastMisjudged(I: seq<int>, src: bytes, tgt: bytes, st: int, en: int): (r: int)
    requires Indexes(src, I) && 0 <= st <= en <= |src|
    decreases en - st
  {
    if en - st < 2 then -1
    else
      var x := st + (en - st) / 2;
      if MemLess(src[I[x]..], tgt) then LastMisjudged(I, src, tgt, x, en)
      else
        var r := LastMisjudged(I, src, tgt, st, x);
        if r != -1 then r else if Misjudged(src, tgt, I[x]) then I[x] else -1
  }

  /** Apart from a string that goes on where the other ends, the comparison is the lexicographic one. */
  lemma {:induction false} MemLexLess(s: bytes, t: bytes)
    ensures LexLess(s, t) <==> MemLess(s, t) || s < t
    ensures s <= t ==> Lcp(s, t) == |s|
    decreases |s|
  {
    if s != [] && t != [] && s[0] == t[0] {
      MemLexLess(s[1..], t[1..]);
      assert s == [s[0]] + s[1..] && t == [t[0]] + t[1..];
    }
  }

  /** Of two strings on the same side of u, the nearer one agrees with u at least as far. */
  lemma {:induction false} NearerAgrees(s: bytes, t: bytes, u: bytes)
    requires s == t || (LexLess(s, t) && (t == u || LexLess(t, u))) || (LexLess(t, s) && (t == u || LexLess(u, t)))
    ensures Lcp(s, u) <= Lcp(t, u)
    decreases |s|
  {
    if s != t && s != [] && u != [] && s[0] == u[0] {
      if t == u {
        LcpSelf(u);
      } else {
        assert t != [] && t[0] == u[0];
        NearerAgrees(s[1..], t[1..], u[1..]);
      }
    }
  }

  lemma LcpSelf(u: bytes)
    ensures Lcp(u, u) == |u|
  {
    LcpUnique(u, u, |u|);
  }

  lemma SuffixOrder(src: bytes, I: seq<int>, j: int, k: int)
    requires SuffixArray(src, I) && 0 <= j < k <= |src|
    ensures 0 <= I[j] <= |src| && 0 <= I[k] <= |src| && LexLess(src[I[j]..], src[I[k]..])
  {
    assert Before(src, I[j], I[k]);
  }

  /** tgt belongs between st and en. */
  ghost predicate Between(src: bytes, I: seq<int>, tgt: bytes, st: int, en: int) {
    && SuffixArray(src, I) && Indexes(src, I) && 0 <= st <= en <= |src| && (st == en ==> src == [])
    && (st == 0 || LexLess(src[I[st]..], tgt))
    && (en == |src| || !LexLess(src[I[en]..], tgt))
  }

  /** Neighbours between which tgt belongs agree with it as far as any suffix. */
  lemma NeighboursLongest(src: bytes, I: seq<int>, tgt: bytes, st: int, en: int, k: int)
    requires Between(src, I, tgt, st, en) && en - st < 2 && 0 <= k <= |src|
    ensures Lcp(src[I[k]..], tgt) <= Lcp(src[I[st]..], tgt) || Lcp(src[I[k]..], tgt) <= Lcp(src[I[en]..], tgt)
  {
    hide Lcp, SuffixArray;
    if k < st {
      SuffixOrder(src, I, k, st);
      NearerAgrees(src[I[k]..], src[I[st]..], tgt);
    } else if k > en {
      SuffixOrder(src, I, en, k);
      LexTotal(src[I[en]..], tgt);
      NearerAgrees(src[I[k]..], src[I[en]..], tgt);
    }
  }

  lemma {:induction false} SearchJudged(I: seq<int>, src: bytes, tgt: bytes, st: int, en: int, k: int)
    requires Between(src, I, tgt, st, en) && LastMisjudged(I, src, tgt, st, en) == -1 && 0 <= k <= |src|
    ensures Lcp(src[I[k]..], tgt) <= Search(I, src, tgt, st, en).len
    decreases en - st
  {
    hide Lcp, MemLess, SuffixArray;
    if en - st < 2 {
      NeighboursLongest(src, I, tgt, st, en, k);
    } else {
      var x := st + (en - st) / 2;
      MemLexLess(src[I[x]..], tgt);
      EmptyFirst(src, I);
      if MemLess(src[I[x]..], tgt) {
        SearchJudged(I, src, tgt, x, en, k);
      } else {
        SearchJudged(I, src, tgt, st, x, k);
      }
    }
  }

  /** A suffix before a misjudged one agrees less with tgt. */
  lemma BeforeMisjudged(src: bytes, I: seq<int>, tgt: bytes, j: int, k: int)
    requires SuffixArray(src, I) && Indexes(src, I) && 0 <= j < k <= |src| && Misjudged(src, tgt, I[k])
    ensures Lcp(src[I[j]..], tgt) < Lcp(src[I[k]..], tgt) == |src| - I[k]
    ensures LexLess(src[I[j]..], tgt) && !Misjudged(src, tgt, I[j]) ==> MemLess(src[I[j]..], tgt) || j == 0
    ensures LexLess(src[I[j]..], tgt)
  {
    hide Lcp, MemLess, SuffixArray, LexLess;
    var s, t := src[I[j]..], src[I[k]..];
    SuffixOrder(src, I, j, k);
    EmptyFirst(src, I);
    MemLexLess(s, tgt);
    MemLexLess(t, tgt);
    LexTransitive(s, t, tgt);
    if Lcp(s, tgt) >= |t| { PrefixFirst(s, t, tgt); }
  }

  lemma PrefixFirst(s: bytes, t: bytes, u: bytes)
    requires LexLess(s, t) && t <= u
    ensures Lcp(s, u) < |t|
  {
    hide LexLess;
    if Lcp(s, u) >= |t| {
      assert s[..|t|] == u[..|t|] == t by { assert s[..Lcp(s, u)][..|t|] == u[..Lcp(s, u)][..|t|]; }
      MemLexLess(t, s);
      LexTotal(s, t);
    }
  }

  lemma {:induction false} SearchMisled(I: seq<int>, src: bytes, tgt: bytes, st: int, en: int)
    requires SuffixArray(src, I) && Indexes(src, I) && 0 <= st < en <= |src| && Misjudged(src, tgt, I[en])
    ensures var r := LastMisjudged(I, src, tgt, st, en);
            Search(I, src, tgt, st, en).len == |src| - if r != -1 then r else I[en]
    decreases en - st
  {
    hide Lcp, MemLess, SuffixArray, Misjudged;
    if en - st < 2 {
      BeforeMisjudged(src, I, tgt, st, en);
    } else {
      var x := st + (en - st) / 2;
      BeforeMisjudged(src, I, tgt, x, en);
      if MemLess(src[I[x]..], tgt) {
        SearchMisled(I, src, tgt, x, en);
      } else {
        SearchMisled(I, src, tgt, st, x);
      }
    }
  }

  lemma {:induction false} SearchFinal(I: seq<int>, src: bytes, tgt: bytes, st: int, en: int)
    requires Between(src, I, tgt, st, en) && LastMisjudged(I, src, tgt, st, en) != -1
    ensures Search(I, src, tgt, st, en).len == |src| - LastMisjudged(I, src, tgt, st, en)
    decreases en - st
  {
    hide Lcp, MemLess, SuffixArray;
    if en - st >= 2 {
      var x := st + (en - st) / 2;
      MemLexLess(src[I[x]..], tgt);
      EmptyFirst(src, I);
      if MemLess(src[I[x]..], tgt) {
        SearchFinal(I, src, tgt, x, en);
      } else if Misjudged(src, tgt, I[x]) {
        SearchMisled(I, src, tgt, st, x);
      } else {
        SearchFinal(I, src, tgt, st, x);
      }
    }
  }

  /** What the whole search finds, for every old and new: a longest match if it misjudges no suffix on its way, and
      otherwise the last suffix it misjudges. */
  lemma SearchLength(I: seq<int>, src: bytes, tgt: bytes)
    requires SuffixArray(src, I)
    ensures Indexes(src, I)
    ensures var r, len := LastMisjudged(I, src, tgt, 0, |src|), Search(I, src, tgt, 0, |src|).len;
            if r == -1 then Longest(src, tgt, len) else Misjudged(src, tgt, r) && len == |src| - r
  {
    hide Lcp, LastMisjudged, Search, Misjudged;
    assert Between(src, I, tgt, 0, |src|);
    var m := Search(I, src, tgt, 0, |src|);
    if LastMisjudged(I, src, tgt, 0, |src|) == -1 {
      forall p | 0 <= p <= |src|
        ensures Lcp(src[p..], tgt) <= m.len
      {
        assert p in I;
        var k :| 0 <= k < |I| && I[k] == p;
        SearchJudged(I, src, tgt, 0, |src|, k);
      }
    } else {
      SearchFinal(I, src, tgt, 0, |src|);
      LastIsMisjudged(I, src, tgt, 0, |src|);
    }
  }

  lemma {:induction false} LastIsMisjudged(I: seq<int>, src: bytes, tgt: bytes, st: int, en: int)
    requires Indexes(src, I) && 0 <= st <= en <= |src| && LastMisjudged(I, src, tgt, st, en) != -1
    ensures Misjudged(src, tgt, LastMisjudged(I, src, tgt, st, en))
    decreases en - st
  {
    hide MemLess, Misjudged;
    var x := st + (en - st) / 2;
    if MemLess(src[I[x]..], tgt) {
      LastIsMisjudged(I, src, tgt, x, en);
    } else if LastMisjudged(I, src, tgt, st, x) != -1 {
      LastIsMisjudged(I, src, tgt, st, x);
    }
  }

  /** If no suffix of old is continued by new, the match is a longest one. */
  lemma SearchLongest(I: seq<int>, src: bytes, tgt: bytes)
    requires SuffixArray(src, I) && forall p :: 0 <= p < |src| ==> !(src[p..] < tgt)
    ensures Indexes(src, I) && Longest(src, tgt, Search(I, src, tgt, 0, |src|).len)
  {
    hide Lcp, LastMisjudged, Search, SuffixArray;
    SearchLength(I, src, tgt);
  }

  lemma SmallSuffixArray(src: bytes, I: seq<int>)
    requires |src| == 3 && src[0] == src[2] < src[1] && |I| == 4 && I[0] == 3 && I[1] == 2 && I[2] == 0 && I[3] == 1
    ensures SuffixArray(src, I)
  {
    hide Before, SameTo;
    EmptyBefore(src, 2);
    EmptyBefore(src, 0);
    EmptyBefore(src, 1);
    assert SameTo(src, 2, 0, 1) by { SameByte(src, 2, 0); }
    BeforeShift(src, 2, 0, 1);
    FirstByteDecides(src, 2, 1);
    FirstByteDecides(src, 0, 1);
    forall p | 0 <= p <= 3 ensures p in I { assert p == I[0] || p == I[1] || p == I[2] || p == I[3]; }
  }

  lemma SameByte(src: bytes, p: nat, q: nat)
    requires p < |src| && q < |src| && src[p] == src[q]
    ensures SameTo(src, p, q, 1)
  {
  }

  lemma EmptyBefore(src: bytes, p: nat)
    requires p < |src|
    ensures Before(src, |src|, p)
  {
  }

  /** Otherwise it may not be: in "aba", "ab" is found with one byte, the last one of old. */
  lemma MissesLongest() returns (I: seq<int>, src: bytes, tgt: bytes)
    ensures SuffixArray(src, I) && Indexes(src, I)
    ensures Search(I, src, tgt, 0, |src|).len == 1 && Longest(src, tgt, 2)
  {
    hide Lcp, SuffixArray;
    src, tgt, I := [97, 98, 97], [97, 98], [3, 2, 0, 1];
    SmallSuffixArray(src, I);
    assert Indexes(src, I) by { SearchLength(I, src, tgt); }
    LcpUnique(src[0..], tgt, 2);
    LcpUnique(src[2..], tgt, 1);
    LcpUnique(src[3..], tgt, 0);
    assert Search(I, src, tgt, 0, 1) == Match(1, 2);
    assert Search(I, src, tgt, 0, 3) == Search(I, src, tgt, 0, 1);
  }
}
