/** The first phase of `qsufsort` in applypatch/bsdiff.c: a counting sort of the suffixes by their first byte. */
module Buckets {
  import opened Suffixes
  import opened GroupSplit
  import opened Doubling

  /** How often c occurs in s. */
  ghost function Occ(s: bytes, c: int): (n: nat)
    ensures n <= |s|
  {
    if s == [] then 0 else Occ(s[..|s| - 1], c) + (if s[|s| - 1] == c then 1 else 0)
  }

  /** How many bytes of s are below c. */
  ghost function Below(s: bytes, c: int): (n: nat)
    ensures n <= |s|
  {
    if s == [] then 0 else Below(s[..|s| - 1], c) + (if s[|s| - 1] < c then 1 else 0)
  }

  lemma {:induction false} BelowNext(s: bytes, c: int)
    ensures Below(s, c + 1) == Below(s, c) + Occ(s, c)
    decreases |s|
  {
    if s != [] { BelowNext(s[..|s| - 1], c); }
  }

  lemma {:induction false} BelowEnds(s: bytes)
    ensures Below(s, 0) == 0 && Below(s, 256) == |s|
    decreases |s|
  {
    if s != [] { BelowEnds(s[..|s| - 1]); }
  }

  lemma {:induction false} BelowMonotone(s: bytes, c: int, d: int)
    requires c <= d
    ensures Below(s, c) <= Below(s, d)
    decreases |s|
  {
    if s != [] { BelowMonotone(s[..|s| - 1], c, d); }
  }

  lemma {:induction false} OccPrefix(s: bytes, p: nat, q: nat, c: int)
    requires p <= q <= |s|
    ensures Occ(s[..p], c) <= Occ(s[..q], c)
    ensures p < q && s[p] == c ==> Occ(s[..p], c) < Occ(s[..q], c)
    decreases q - p
  {
    if p < q {
      assert s[..p + 1][..p] == s[..p];
      OccPrefix(s, p + 1, q, c);
    }
  }

  /** Where the counting sort puts suffix p. */
  ghost function Place(s: bytes, p: int): (k: int)
    requires 0 <= p < |s|
  {
    Below(s, s[p]) + Occ(s[..p], s[p]) + 1
  }

  /** The last index of the bucket of suffix p. */
  ghost function Last(s: bytes, p: int): (k: int)
    requires 0 <= p < |s|
  {
    var c: int := s[p]; Below(s, c + 1)
  }

  lemma PlaceBounds(s: bytes, p: int)
    requires 0 <= p < |s|
    ensures 1 <= Below(s, s[p]) + 1 <= Place(s, p) <= Last(s, p) <= |s|
  {
    hide Below, Occ;
    OccPrefix(s, p, |s|, s[p]);
    assert s[..|s|] == s;
    BelowNext(s, s[p]);
  }

  /** Buckets do not overlap. */
  lemma PlaceOrder(s: bytes, p: int, q: int)
    requires 0 <= p < |s| && 0 <= q < |s|
    ensures s[p] < s[q] ==> Place(s, p) < Place(s, q) && Last(s, p) < Place(s, q)
    ensures s[p] == s[q] && p < q ==> Place(s, p) < Place(s, q)
  {
    PlaceBounds(s, p);
    PlaceBounds(s, q);
    if s[p] < s[q] { var c: int := s[p]; BelowMonotone(s, c + 1, s[q]); }
    if p < q { OccPrefix(s, p, q, s[p]); }
  }

  lemma {:induction false} NthOcc(s: bytes, c: int, m: nat) returns (p: int)
    requires m < Occ(s, c)
    ensures 0 <= p < |s| && s[p] == c && Occ(s[..p], c) == m
    decreases |s|
  {
    var n := |s| - 1;
    if m < Occ(s[..n], c) {
      p := NthOcc(s[..n], c, m);
      assert s[..n][..p] == s[..p];
    } else {
      p := n;
    }
  }

  lemma {:induction false} BucketOf(s: bytes, k: int, d: int) returns (c: int)
    requires 0 < k <= Below(s, d) && 0 <= d
    ensures 0 <= c < d && Below(s, c) < k <= Below(s, c + 1)
    decreases d
  {
    if d == 0 {
      BelowEnds(s);
      c := 0;
    } else if k <= Below(s, d - 1) {
      c := BucketOf(s, k, d - 1);
    } else {
      c := d - 1;
    }
  }

  /** Every index from 1 on is the place of some suffix. */
  lemma PlaceOnto(s: bytes, k: int) returns (p: int)
    requires 1 <= k <= |s|
    ensures 0 <= p < |s| && Place(s, p) == k
  {
    BelowEnds(s);
    var c := BucketOf(s, k, 256);
    BelowNext(s, c);
    p := NthOcc(s, c, k - Below(s, c) - 1);
  }

  // ----- the state after the counting sort -----

  /** P lists the suffixes bucket by bucket, the empty one first; V names buckets by their last index. */
  ghost predicate Bucketed(src: bytes, P: seq<int>, V: seq<int>) {
    && |P| == |V| == |src| + 1 && P[0] == |src| && V[|src|] == 0
    && (forall p :: 0 <= p < |src| ==> V[p] == Last(src, p))
    && (forall p :: 0 <= p < |src| ==> 1 <= Place(src, p) <= |src| && P[Place(src, p)] == p)
  }

  ghost function Places(src: bytes): (R: seq<int>)
    ensures |R| == |src| + 1
  {
    seq(|src| + 1, p requires 0 <= p <= |src| => if p == |src| then 0 else Place(src, p))
  }

  lemma BucketEntry(src: bytes, P: seq<int>, V: seq<int>, k: int)
    requires Bucketed(src, P, V) && 1 <= k <= |src|
    ensures 0 <= P[k] < |src| && Place(src, P[k]) == k && k <= V[P[k]] <= |src|
  {
    var p := PlaceOnto(src, k);
    PlaceBounds(src, p);
  }

  lemma BucketedInverse(src: bytes, P: seq<int>, V: seq<int>)
    requires Bucketed(src, P, V)
    ensures Inverse(P, Places(src))
  {
    forall k | 0 <= k < |P|
      ensures 0 <= P[k] < |P| && Places(src)[P[k]] == k
    {
      if k > 0 { BucketEntry(src, P, V, k); }
    }
  }

  lemma BucketedOrdered(src: bytes, P: seq<int>, V: seq<int>)
    requires Bucketed(src, P, V)
    ensures Ordered(src, V, 1)
  {
    hide Before, SameTo, Below, Occ;
    forall p, q | 0 <= p < |V| && 0 <= q < |V| && p != q
      ensures V[p] < V[q] ==> Before(src, p, q)
      ensures V[p] == V[q] ==> SameTo(src, p, q, 1)
    {
      BucketedPair(src, P, V, p, q);
    }
  }

  lemma BucketedPair(src: bytes, P: seq<int>, V: seq<int>, p: int, q: int)
    requires Bucketed(src, P, V) && 0 <= p < |V| && 0 <= q < |V| && p != q
    ensures V[p] < V[q] ==> Before(src, p, q)
    ensures V[p] == V[q] ==> SameTo(src, p, q, 1)
  {
    hide Below, Occ, Place, Last;
    if p < |src| { PlaceBounds(src, p); }
    if q < |src| { PlaceBounds(src, q); }
    if p < |src| && q < |src| {
      PlaceOrder(src, p, q);
      PlaceOrder(src, q, p);
      LastOrder(src, p, q);
      FirstByteDecides(src, p, q);
    } else if p == |src| {
      assert src[p..] == [] && src[q..] != [];
    }
  }

  lemma LastOrder(s: bytes, p: int, q: int)
    requires 0 <= p < |s| && 0 <= q < |s|
    ensures s[p] < s[q] <==> Last(s, p) < Last(s, q)
    ensures s[p] == s[q] <==> Last(s, p) == Last(s, q)
  {
    hide Below, Occ, Place;
    PlaceOrder(s, p, q);
    PlaceOrder(s, q, p);
    PlaceBounds(s, p);
    PlaceBounds(s, q);
  }

  /** Index k is the bucket of a byte above zero that occurs once. */
  ghost predicate OwnBucket(src: bytes, k: int) {
    OwnBucketTo(src, k, 256)
  }

  ghost predicate OwnBucketTo(src: bytes, k: int, n: int) {
    exists c :: 1 <= c < n && Below(src, c) + 1 == k == Below(src, c + 1)
  }

  lemma OwnBucketGroup(src: bytes, P: seq<int>, V: seq<int>, k: int, l: int)
    requires Bucketed(src, P, V) && 1 <= k <= |src| && 1 <= l <= |src| && 0 <= P[k] < |V| && k <= l <= V[P[k]]
    requires OwnBucket(src, l)
    ensures k == l && V[P[k]] == k
  {
    hide Occ;
    BucketEntry(src, P, V, k);
    BucketEntry(src, P, V, l);
    SameBucket(src, P, V, k, l);
    PlaceBounds(src, P[k]);
    PlaceBounds(src, P[l]);
    var c :| 0 <= c < 256 && Below(src, c) + 1 == l == Below(src, c + 1);
    var d: int := src[P[l]];
    if d < c { BelowMonotone(src, d + 1, c); } else if c < d { BelowMonotone(src, c + 1, d); }
  }

  lemma SameBucket(src: bytes, P: seq<int>, V: seq<int>, k: int, l: int)
    requires Bucketed(src, P, V) && 1 <= k <= |src| && 1 <= l <= |src| && 0 <= P[k] < |V| && k <= l <= V[P[k]]
    ensures 0 <= P[k] < |src| && 0 <= P[l] < |src| && src[P[k]] == src[P[l]] && V[P[l]] == V[P[k]]
  {
    hide Below, Occ, Place, Last;
    BucketEntry(src, P, V, k);
    BucketEntry(src, P, V, l);
    PlaceOrder(src, P[k], P[l]);
    PlaceOrder(src, P[l], P[k]);
    LastOrder(src, P[k], P[l]);
  }

  /** I is P with the single-suffix buckets above byte zero and the empty suffix overwritten by -1. */
  ghost predicate Marked(src: bytes, I: seq<int>, P: seq<int>) {
    && |I| == |P| == |src| + 1 && I[0] == -1
    && (forall k :: 1 <= k < |I| ==> I[k] == if OwnBucket(src, k) then -1 else P[k])
  }

  lemma BucketGroups(src: bytes, z: Snap)
    requires Bucketed(src, z.P, z.V) && z.R == Places(src)
    ensures Group(z, 0) == 0
    ensures forall k :: 1 <= k <= |src| ==> 0 <= z.P[k] < |src| && k <= Group(z, k) == z.V[z.P[k]] <= |src|
  {
    forall k | 1 <= k <= |src|
      ensures 0 <= z.P[k] < |src| && k <= Group(z, k) == z.V[z.P[k]] <= |src|
    {
      BucketEntry(src, z.P, z.V, k);
    }
  }

  lemma BucketIntervals(src: bytes, z: Snap)
    requires Bucketed(src, z.P, z.V) && z.R == Places(src) && Marked(src, z.I, z.P)
    ensures Intervals(z)
  {
    hide Bucketed, Group, OwnBucket, Places;
    BucketedShape(src, z);
    BucketGroups(src, z);
    forall k, l | 0 <= k <= l < |z.I| && l <= Group(z, k)
      ensures Group(z, l) == Group(z, k)
      ensures z.I[k] >= 0 ==> z.I[l] == z.P[l]
    {
      if k > 0 {
        SameBucket(src, z.P, z.V, k, l);
        if OwnBucket(src, l) { OwnBucketGroup(src, z.P, z.V, k, l); }
      }
    }
  }

  lemma BucketedShape(src: bytes, z: Snap)
    requires Bucketed(src, z.P, z.V) && z.R == Places(src)
    ensures |z.P| == |z.V| == |z.R| == |src| + 1
  {
  }

  lemma BucketRuns(src: bytes, z: Snap)
    requires Bucketed(src, z.P, z.V) && z.R == Places(src) && Marked(src, z.I, z.P)
    ensures Runs(z)
  {
    hide Bucketed, Group, OwnBucket, Places, Singles;
    BucketedShape(src, z);
    BucketGroups(src, z);
    forall k | 0 <= k < |z.I| && z.I[k] < 0
      ensures Singles(z, k, k - z.I[k])
    {
      if k > 0 { OwnBucketGroup(src, z.P, z.V, k, k); }
      OneSingle(z, k);
    }
  }

  /** The counting sort is the first level of the suffix sort. */
  lemma BucketLevel(src: bytes, z: Snap)
    requires Bucketed(src, z.P, z.V) && z.R == Places(src) && Marked(src, z.I, z.P)
    ensures Level(src, z, 1, 0)
  {
    hide Bucketed, OwnBucket, Places, Group, Ordered, Intervals, Runs, Inverse;
    BucketedShape(src, z);
    BucketGroups(src, z);
    BucketIntervals(src, z);
    BucketRuns(src, z);
    BucketedOrdered(src, z.P, z.V);
    BucketedInverse(src, z.P, z.V);
  }

  // ----- the program -----

  /** Counting, summing up and shifting: entry c becomes the number of bytes below c. */
  method BucketStarts(src: bytes) returns (buckets: array<int>)
    ensures fresh(buckets) && buckets.Length == 256
    ensures forall c :: 0 <= c < 256 ==> buckets[c] == Below(src, c)
  {
    buckets := new int[256];
    var i := 0;
    while i < 256
      invariant 0 <= i <= 256 && forall c :: 0 <= c < i ==> buckets[c] == 0
    {
      buckets[i] := 0;
      i := i + 1;
    }
    CountBytes(buckets, src);
    BelowEnds(src);
    BelowNext(src, 0);
    i := 1;
    while i < 256
      invariant 1 <= i <= 256
      invariant forall c :: 0 <= c < i ==> buckets[c] == Below(src, c + 1)
      invariant forall c :: i <= c < 256 ==> buckets[c] == Occ(src, c)
    {
      BelowNext(src, i);
      buckets[i] := buckets[i] + buckets[i - 1];
      i := i + 1;
    }
    i := 255;
    while i > 0
      invariant 0 <= i <= 255
      invariant forall c :: 0 <= c <= i ==> buckets[c] == Below(src, c + 1)
      invariant forall c :: i < c < 256 ==> buckets[c] == Below(src, c)
    {
      buckets[i] := buckets[i - 1];
      i := i - 1;
    }
    buckets[0] := 0;
  }

  method CountBytes(buckets: array<int>, src: bytes)
    requires buckets.Length == 256 && forall c :: 0 <= c < 256 ==> buckets[c] == 0
    modifies buckets
    ensures forall c :: 0 <= c < 256 ==> buckets[c] == Occ(src, c)
  {
    var i := 0;
    while i < |src|
      invariant 0 <= i <= |src|
      invariant forall c :: 0 <= c < 256 ==> buckets[c] == Occ(src[..i], c)
    {
      assert src[..i + 1][..i] == src[..i];
      buckets[src[i]] := buckets[src[i]] + 1;
      i := i + 1;
    }
    assert src[..i] == src;
  }

  /** Every suffix goes to the next free index of the bucket of its first byte. */
  method Distribute(I: array<int>, buckets: array<int>, src: bytes)
    requires I != buckets && I.Length == |src| + 1 && buckets.Length == 256
    requires forall c :: 0 <= c < 256 ==> buckets[c] == Below(src, c)
    modifies I, buckets
    ensures forall p :: 0 <= p < |src| ==> 1 <= Place(src, p) <= |src| && I[Place(src, p)] == p
    ensures forall c :: 0 <= c < 256 ==> buckets[c] == Below(src, c + 1)
  {
    var i := 0;
    while i < |src|
      invariant 0 <= i <= |src|
      invariant forall c :: 0 <= c < 256 ==> buckets[c] == Below(src, c) + Occ(src[..i], c)
      invariant forall p :: 0 <= p < i ==> 1 <= Place(src, p) <= |src| && I[Place(src, p)] == p
    {
      PlaceBounds(src, i);
      forall p | 0 <= p < i
        ensures Place(src, p) != Place(src, i)
      {
        PlaceOrder(src, p, i);
        PlaceOrder(src, i, p);
      }
      assert src[..i + 1][..i] == src[..i];
      buckets[src[i]] := buckets[src[i]] + 1;
      I[buckets[src[i]]] := i;
      i := i + 1;
    }
    assert src[..i] == src;
    forall c | 0 <= c < 256
      ensures buckets[c] == Below(src, c + 1)
    {
      BelowNext(src, c);
    }
  }

  /** Every suffix gets the last index of its bucket as its group number, the empty one gets zero. */
  method NumberSuffixes(V: array<int>, buckets: array<int>, src: bytes)
    requires V != buckets && V.Length == |src| + 1 && buckets.Length == 256
    requires forall c :: 0 <= c < 256 ==> buckets[c] == Below(src, c + 1)
    modifies V
    ensures V[|src|] == 0 && forall p :: 0 <= p < |src| ==> V[p] == Last(src, p)
  {
    var i := 0;
    while i < |src|
      invariant 0 <= i <= |src|
      invariant forall p :: 0 <= p < i ==> V[p] == Last(src, p)
    {
      V[i] := buckets[src[i]];
      i := i + 1;
    }
    V[|src|] := 0;
  }

  /** Buckets of one suffix, except that of byte zero, and the empty suffix are marked as sorted. */
  method MarkSingles(I: array<int>, buckets: array<int>, ghost src: bytes)
    requires I != buckets && I.Length == |src| + 1 && buckets.Length == 256
    requires forall c :: 0 <= c < 256 ==> buckets[c] == Below(src, c + 1)
    modifies I
    ensures Marked(src, I[..], old(I[..]))
  {
    hide Below;
    var i := 1;
    while i < 256
      invariant 1 <= i <= 256
      invariant forall k :: 1 <= k < I.Length ==> I[k] == if OwnBucketTo(src, k, i) then -1 else old(I[k])
    {
      forall k ensures OwnBucketTo(src, k, i + 1) <==>
          OwnBucketTo(src, k, i) || Below(src, i) + 1 == k == Below(src, i + 1) {}
      if buckets[i] == buckets[i - 1] + 1 { I[buckets[i]] := -1; }
      i := i + 1;
    }
    I[0] := -1;
  }
}
