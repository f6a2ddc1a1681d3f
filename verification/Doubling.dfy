/** The doubling passes of `qsufsort` in applypatch/bsdiff.c over the groups, and the final inversion, proved to
    produce the suffix array. */
module Doubling {
  import opened Suffixes
  import opened GroupSplit

  /** The number of the group of the k-th suffix. */
  ghost function Group(z: Snap, k: int): int {
    if 0 <= k < |z.P| && 0 <= z.P[k] < |z.V| then z.V[z.P[k]] else k
  }

  ghost predicate Shape(src: bytes, z: Snap, h: nat) {
    |z.I| == |src| + 1 && |z.P| == |src| + 1 && Ordered(src, z.V, h) && Inverse(z.P, z.R)
  }

  /** Groups are intervals, named by their last index, and I is overwritten by whole groups. */
  ghost predicate Intervals(z: Snap) {
    && (forall k :: 0 <= k < |z.I| ==> k <= Group(z, k) < |z.I|)
    && (forall k, l :: 0 <= k <= l < |z.I| && l <= Group(z, k) ==> Group(z, l) == Group(z, k))
    && (forall k, l :: 0 <= k <= l < |z.I| == |z.P| && l <= Group(z, k) && z.I[k] >= 0 ==> z.I[l] == z.P[l])
  }

  /** [a, b) consists of overwritten single-suffix groups. */
  ghost predicate Singles(z: Snap, a: int, b: int) {
    0 <= a <= b <= |z.I| && forall l :: a <= l < b ==> z.I[l] < 0 && Group(z, l) == l
  }

  ghost predicate Runs(z: Snap) {
    forall k :: 0 <= k < |z.I| && z.I[k] < 0 ==> Singles(z, k, k - z.I[k])
  }

  /** Entries that are not overwritten leave h bytes to read, 2h below i. */
  ghost predicate Room(src: bytes, z: Snap, h: nat, i: int) {
    forall k :: 0 <= k < |z.I| == |z.P| && z.I[k] >= 0 ==> z.P[k] + (if k < i then 2 * h else h) <= |src|
  }

  /** Below i the pass has been made: groups agree on 2h bytes, and i is the start of a group. */
  ghost predicate Passed(src: bytes, z: Snap, h: nat, i: int) {
    && (forall k :: 0 <= k < i ==> Group(z, k) < i)
    && (forall k, l :: 0 <= k < l < i && l < |z.P| && Group(z, k) == Group(z, l) ==> SameTo(src, z.P[k], z.P[l], 2 * h))
  }

  /** The state of the doubling pass for h, at index i. */
  ghost predicate Level(src: bytes, z: Snap, h: nat, i: int) {
    Shape(src, z, h) && Intervals(z) && Runs(z) && Room(src, z, h, i) && Passed(src, z, h, i) && 0 <= i <= |z.I|
  }

  // ----- one pass -----

  /** A group that is not overwritten is ready for `split`. */
  lemma GroupReady(src: bytes, z: Snap, h: nat, i: int)
    requires Level(src, z, h, i) && i < |z.I| && z.I[i] >= 0
    ensures 0 <= z.I[i] < |z.V| && z.V[z.I[i]] == Group(z, i) && i <= Group(z, i) < |z.I|
    ensures Work(src, z, i, Group(z, i) + 1, Group(z, i), h)
  {
    var G := Group(z, i);
    assert z.I[i] == z.P[i];
    forall q | 0 <= q < |z.V|
      ensures z.V[q] == Group(z, z.R[q])
      ensures z.V[q] < i || z.V[q] >= G
      ensures z.V[q] == G ==> i <= z.R[q] < G + 1
    {
      var k := z.R[q];
      assert z.P[k] == q;
      assert k <= Group(z, k);
      if i <= k <= G { assert Group(z, k) == G; }
    }
    hide Ordered, Before;
  }

  lemma GroupKept(src: bytes, z: Snap, z': Snap, h: nat, i: int, c: int)
    requires Level(src, z, h, i) && HasSplit(src, z, z', i, c, h)
    ensures |z'.I| == |z.I| == |z'.P| == |z.P|
    ensures forall k :: 0 <= k < |z.I| && !(i <= k < c) ==>
              Group(z', k) == Group(z, k) && z'.I[k] == z.I[k] && z'.P[k] == z.P[k]
    ensures forall k :: i <= k < c ==> Group(z', k) == z'.V[z'.P[k]]
  {
    RestFacts(src, z, z', i, c, h);
    forall k | 0 <= k < |z.I| && !(i <= k < c)
      ensures Group(z', k) == Group(z, k)
    {
      assert z.R[z.P[k]] == k;
    }
    hide Ordered, Runs, Room, Passed;
  }

  /** What Refined says of the groups inside [i, c). */
  lemma GroupsInside(src: bytes, z: Snap, z': Snap, h: nat, i: int, c: int)
    requires HasSplit(src, z, z', i, c, h)
    ensures 0 <= i <= c <= |z'.I| == |z'.P|
    ensures forall k :: i <= k < c ==> k <= Group(z', k) < c
    ensures forall k, l :: i <= k <= l < c && l <= Group(z', k) ==> Group(z', l) == Group(z', k)
    ensures forall k, l :: i <= k <= l < c && l <= Group(z', k) && z'.I[k] >= 0 ==> z'.I[l] == z'.P[l]
    ensures forall k :: i <= k < c && z'.I[k] < 0 ==> z'.I[k] == -1 && Group(z', k) == k
  {
    hide Ordered, Local;
  }

  /** What Level says of the groups outside [i, c). */
  lemma GroupsOutside(src: bytes, z: Snap, h: nat, i: int, c: int)
    requires Level(src, z, h, i) && i < |z.I| && c == Group(z, i) + 1
    ensures forall k :: 0 <= k < i ==> k <= Group(z, k) < i
    ensures forall k :: c <= k < |z.I| ==> k <= Group(z, k) < |z.I|
    ensures forall k, l :: 0 <= k <= l < |z.I| && l <= Group(z, k) ==> Group(z, l) == Group(z, k)
    ensures forall k, l :: 0 <= k <= l < |z.I| == |z.P| && l <= Group(z, k) && z.I[k] >= 0 ==> z.I[l] == z.P[l]
  {
  }

  lemma GroupUnwritten(src: bytes, z: Snap, h: nat, i: int, c: int)
    requires Level(src, z, h, i) && i < |z.I| && c == Group(z, i) + 1 && z.I[i] >= 0
    ensures forall k :: i <= k < c ==> 0 <= k < |z.I| && z.I[k] >= 0
  {
  }

  lemma IntervalsAfter(src: bytes, z: Snap, z': Snap, h: nat, i: int, c: int)
    requires Level(src, z, h, i) && HasSplit(src, z, z', i, c, h) && i < |z.I| && c == Group(z, i) + 1
    ensures Intervals(z')
  {
    hide Level, Group, HasSplit;
    GroupsOutside(src, z, h, i, c);
    GroupKept(src, z, z', h, i, c);
    GroupsInside(src, z, z', h, i, c);
  }

  lemma RunsAfter(src: bytes, z: Snap, z': Snap, h: nat, i: int, c: int)
    requires Level(src, z, h, i) && HasSplit(src, z, z', i, c, h) && i < |z.I| && c == Group(z, i) + 1 && z.I[i] >= 0
    ensures Runs(z')
  {
    hide Level, Group, HasSplit, Singles;
    LevelRuns(src, z, h, i);
    GroupUnwritten(src, z, h, i, c);
    GroupKept(src, z, z', h, i, c);
    GroupsInside(src, z, z', h, i, c);
    forall k | 0 <= k < |z'.I| && z'.I[k] < 0
      ensures Singles(z', k, k - z'.I[k])
    {
      if i <= k < c {
        OneSingle(z', k);
      } else {
        SinglesKept(z, z', i, c, k, k - z.I[k]);
      }
    }
  }

  lemma LevelRuns(src: bytes, z: Snap, h: nat, i: int)
    requires Level(src, z, h, i)
    ensures Runs(z)
  {
  }

  lemma OneSingle(z: Snap, k: int)
    requires 0 <= k < |z.I| && z.I[k] == -1 && Group(z, k) == k
    ensures Singles(z, k, k + 1)
  {
  }

  lemma SinglesKept(z: Snap, z': Snap, i: int, c: int, a: int, b: int)
    requires Singles(z, a, b) && |z'.I| == |z.I| && 0 <= i <= c <= |z.I|
    requires forall k :: i <= k < c ==> z.I[k] >= 0
    requires forall k :: 0 <= k < |z.I| && !(i <= k < c) ==> Group(z', k) == Group(z, k) && z'.I[k] == z.I[k]
    ensures Singles(z', a, b)
  {
    hide Group;
    forall l | a <= l < b
      ensures z'.I[l] < 0 && Group(z', l) == l
    {
      assert z.I[l] < 0 && Group(z, l) == l;
    }
  }

  lemma RoomAfter(src: bytes, z: Snap, z': Snap, h: nat, i: int, c: int)
    requires Level(src, z, h, i) && HasSplit(src, z, z', i, c, h)
    ensures Room(src, z', h, c)
  {
  }

  lemma PassedAfter(src: bytes, z: Snap, z': Snap, h: nat, i: int, c: int)
    requires Level(src, z, h, i) && HasSplit(src, z, z', i, c, h)
    ensures Passed(src, z', h, c)
  {
    GroupKept(src, z, z', h, i, c);
    assert forall k, l :: i <= k < l < c && Group(z', k) == Group(z', l) ==> SameTo(src, z'.P[k], z'.P[l], 2 * h);
    assert forall k :: i <= k < c ==> i <= k <= Group(z', k) < c;
    hide Group, Shape, Runs, Intervals, Room, HasSplit, SameTo;
  }

  /** Splitting the group at i moves the pass on to the next group. */
  lemma LevelAfterSplit(src: bytes, z: Snap, z': Snap, h: nat, i: int, c: int)
    requires Level(src, z, h, i) && HasSplit(src, z, z', i, c, h) && i < |z.I| && c == Group(z, i) + 1 && z.I[i] >= 0
    ensures Level(src, z', h, c)
  {
    IntervalsAfter(src, z, z', h, i, c);
    RunsAfter(src, z, z', h, i, c);
    RoomAfter(src, z, z', h, i, c);
    PassedAfter(src, z, z', h, i, c);
    RestFacts(src, z, z', i, c, h);
    hide Intervals, Runs, Room, Passed, Ordered;
  }

  /** A run of sorted single groups can be skipped. */
  lemma LevelSkip(src: bytes, z: Snap, h: nat, i: int)
    requires Level(src, z, h, i) && i < |z.I| && z.I[i] < 0
    ensures i < i - z.I[i] <= |z.I| && Singles(z, i, i - z.I[i]) && Level(src, z, h, i - z.I[i])
  {
  }

  ghost function Flushed(z: Snap, i: int, len: int): (z': Snap) {
    if 0 < len <= i <= |z.I| then z.(I := z.I[i - len := -len]) else z
  }

  lemma FlushIntervals(z: Snap, i: int, len: int)
    requires Intervals(z) && Inverse(z.P, z.R) && 0 < len <= i <= |z.I| && Singles(z, i - len, i)
    ensures Intervals(Flushed(z, i, len))
  {
    var z' := Flushed(z, i, len);
    assert forall k :: Group(z', k) == Group(z, k);
    forall k, l | 0 <= k <= l < |z'.I| == |z'.P| && l <= Group(z', k) && z'.I[k] >= 0
      ensures z'.I[l] == z'.P[l]
    {
      assert z.I[k] >= 0 && z.I[l] == z.P[l];
      assert l != i - len;
    }
  }

  lemma FlushRuns(z: Snap, i: int, len: int)
    requires Runs(z) && 0 < len <= i <= |z.I| && Singles(z, i - len, i)
    ensures Runs(Flushed(z, i, len))
  {
    var z' := Flushed(z, i, len);
    assert forall k :: Group(z', k) == Group(z, k);
    hide Group;
    forall k | 0 <= k < |z'.I| && z'.I[k] < 0
      ensures Singles(z', k, k - z'.I[k])
    {
      if k != i - len { assert Singles(z, k, k - z.I[k]); }
    }
  }

  /** I with the length of the run that ends before i written at its start. */
  lemma LevelFlush(src: bytes, z: Snap, h: nat, i: int, len: int)
    requires Level(src, z, h, i) && 0 <= len <= i && Singles(z, i - len, i)
    ensures Level(src, Flushed(z, i, len), h, i)
  {
    if len > 0 {
      FlushIntervals(z, i, len);
      FlushRuns(z, i, len);
      var z' := Flushed(z, i, len);
      assert forall k :: Group(z', k) == Group(z, k);
      assert Passed(src, z', h, i) by { hide Group, Intervals, Runs, Ordered, SameTo; }
      hide Group, Intervals, Runs, Ordered, SameTo, Passed;
    }
  }

  /** At the end of the pass for h the state is that of the start of the pass for 2h. */
  lemma LevelDouble(src: bytes, z: Snap, h: nat)
    requires Level(src, z, h, |z.I|)
    ensures Level(src, z, 2 * h, 0)
  {
    forall p, q | 0 <= p < |z.V| && 0 <= q < |z.V| && p != q && z.V[p] == z.V[q]
      ensures SameTo(src, p, q, 2 * h)
    {
      assert z.P[z.R[p]] == p && z.P[z.R[q]] == q;
      assert Group(z, z.R[p]) == Group(z, z.R[q]);
      if z.R[q] < z.R[p] { assert SameTo(src, z.P[z.R[q]], z.P[z.R[p]], 2 * h); }
    }
    hide Intervals, Runs, SameTo, Before;
  }

  lemma SinglesJoin(z: Snap, a: int, b: int, c: int)
    requires Singles(z, a, b) && Singles(z, b, c)
    ensures Singles(z, a, c)
  {
  }

  lemma LevelShape(src: bytes, z: Snap, h: nat, i: int)
    requires Level(src, z, h, i)
    ensures |z.I| == |z.V| == |z.P| == |z.R| == |src| + 1 && 0 <= i <= |z.I|
  {
  }

  ghost predicate AllWritten(I: seq<int>) {
    forall k :: 0 <= k < |I| ==> I[k] < 0
  }

  /** Writing down the length of the run of sorted groups that ends before i. */
  method FlushRun(I: array<int>, i: int, len: int, h: nat, ghost src: bytes, ghost z: Snap) returns (ghost z': Snap)
    requires z.I == I[..] && Level(src, z, h, i) && 0 <= len <= i && Singles(z, i - len, i)
    modifies I
    ensures z'.I == I[..] && z'.V == z.V && |z'.I| == |z.I| && Level(src, z', h, i)
    ensures z'.I == if len == 0 then z.I else z.I[i - len := -len]
  {
    hide Level, Singles;
    LevelShape(src, z, h, i);
    LevelFlush(src, z, h, i, len);
    if len != 0 { I[i - len] := -len; }
    z' := Flushed(z, i, len);
  }

  /** The else branch of the pass: write down the run before i and split the group at i. */
  method SplitGroup(I: array<int>, V: array<int>, i: int, len: int, h: nat, ghost src: bytes, ghost z: Snap)
    returns (next: int, ghost z': Snap)
    requires I != V && z.I == I[..] && z.V == V[..] && Level(src, z, h, i)
    requires 0 <= len <= i < I.Length && Singles(z, i - len, i) && I[i] >= 0
    modifies I, V
    ensures i < next <= I.Length && z'.I == I[..] && z'.V == V[..]
    ensures Level(src, z', h, next) && Singles(z', next, next)
  {
    hide Level, Singles, HasSplit, Work;
    LevelShape(src, z, h, i);
    ghost var z1 := FlushRun(I, i, len, h, src, z);
    LevelShape(src, z1, h, i);
    GroupReady(src, z1, h, i);
    assert I[i] == z1.I[i];
    var size := V[I[i]] + 1 - i;
    z' := Split(I, V, i, size, h, src, z1, Group(z1, i));
    LevelAfterSplit(src, z1, z', h, i, i + size);
    next := i + size;
    LevelShape(src, z', h, next);
    NoSingles(z', next);
  }

  /** The body of the doubling loop: one pass over the groups. */
  method Pass(I: array<int>, V: array<int>, h: nat, ghost src: bytes, ghost z0: Snap) returns (ghost z: Snap)
    requires I != V && z0.I == I[..] && z0.V == V[..] && Level(src, z0, h, 0)
    modifies I, V
    ensures z.I == I[..] && z.V == V[..] && Level(src, z, 2 * h, 0)
    ensures AllWritten(z0.I) ==> 0 < I.Length && I[0] == -(|src| + 1)
  {
    hide Level, Singles, AllWritten;
    LevelShape(src, z0, h, 0);
    z := z0;
    var i, len := 0, 0;
    NoSingles(z, 0);
    while i < I.Length
      invariant 0 <= len <= i <= I.Length == |src| + 1 && z.I == I[..] && z.V == V[..]
      invariant Level(src, z, h, i) && Singles(z, i - len, i)
      invariant AllWritten(z0.I) ==> len == i && z.I == z0.I
      decreases I.Length - i
    {
      LevelShape(src, z, h, i);
      assert I[i] == z.I[i];
      if I[i] < 0 {
        LevelSkip(src, z, h, i);
        SinglesJoin(z, i - len, i, i - I[i]);
        len := len - I[i];
        i := i - I[i];
      } else {
        NotAllWritten(z.I, i);
        i, z := SplitGroup(I, V, i, len, h, src, z);
        len := 0;
      }
    }
    z := FlushRun(I, i, len, h, src, z);
    LevelDouble(src, z, h);
  }

  lemma NoSingles(z: Snap, i: int)
    requires 0 <= i <= |z.I|
    ensures Singles(z, i, i)
  {
  }

  lemma NotAllWritten(I: seq<int>, i: int)
    requires 0 <= i < |I| && I[i] >= 0
    ensures !AllWritten(I)
  {
  }

  // ----- the end of the sort -----

  /** With h beyond the length, no two suffixes share a group, so all of I is overwritten. */
  lemma LevelBeyond(src: bytes, z: Snap, h: nat)
    requires Level(src, z, h, 0) && h > |src|
    ensures AllWritten(z.I)
  {
  }

  /** When one run covers everything, P is the suffix array and V its inverse. */
  lemma LevelSorted(src: bytes, z: Snap, h: nat)
    requires Level(src, z, h, 0) && |z.I| > 0 && z.I[0] == -(|src| + 1)
    ensures |z.P| == |z.V| == |src| + 1 && SuffixArray(src, z.P)
    ensures forall k :: 0 <= k < |z.P| ==> 0 <= z.P[k] < |z.V| && z.V[z.P[k]] == k
    ensures forall p :: 0 <= p < |z.V| ==> 0 <= z.V[p] < |z.P| && z.P[z.V[p]] == p
  {
    hide Room, Passed, Intervals;
    assert Singles(z, 0, |src| + 1);
    forall k | 0 <= k < |z.P|
      ensures 0 <= z.P[k] < |z.V| && z.V[z.P[k]] == k
    {
      assert Group(z, k) == k;
    }
    forall p | 0 <= p < |z.V|
      ensures 0 <= z.V[p] < |z.P| && z.P[z.V[p]] == p
    {
      assert z.V[z.P[z.R[p]]] == z.R[p];
    }
    forall j, k | 0 <= j < k < |z.P|
      ensures Before(src, z.P[j], z.P[k])
    {
      assert z.V[z.P[j]] < z.V[z.P[k]];
    }
    forall p | 0 <= p <= |src|
      ensures p in z.P
    {
      assert z.P[z.V[p]] == p;
    }
  }

  /** The last loop of `qsufsort`: I becomes the inverse of V. */
  method Invert(I: array<int>, V: array<int>, ghost P: seq<int>)
    requires I != V && I.Length == V.Length == |P|
    requires forall k :: 0 <= k < |P| ==> 0 <= P[k] < V.Length && V[P[k]] == k
    requires forall p :: 0 <= p < V.Length ==> 0 <= V[p] < |P| && P[V[p]] == p
    modifies I
    ensures I[..] == P
  {
    var i := 0;
    while i < I.Length
      invariant 0 <= i <= I.Length
      invariant forall k :: 0 <= k < I.Length && P[k] < i ==> I[k] == P[k]
    {
      I[V[i]] := i;
      i := i + 1;
    }
  }

  /** The doubling loop and the final inversion. */
  method SortGroups(I: array<int>, V: array<int>, ghost src: bytes, ghost z0: Snap)
    requires I != V && z0.I == I[..] && z0.V == V[..] && Level(src, z0, 1, 0) && I.Length == V.Length == |src| + 1
    modifies I, V
    ensures SuffixArray(src, I[..])
  {
    hide Level, AllWritten, SuffixArray;
    ghost var z := z0;
    var h := 1;
    while I[0] != -I.Length
      invariant z.I == I[..] && z.V == V[..] && h >= 1 && Level(src, z, h, 0)
      decreases if h <= |src| then |src| - h + 2 else if I[0] == -I.Length then 0 else 1
    {
      if h > |src| { LevelBeyond(src, z, h); }
      z := Pass(I, V, h, src, z);
      h := h + h;
    }
    LevelSorted(src, z, h);
    Invert(I, V, z.P);
  }
}
