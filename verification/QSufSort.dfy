/** `qsufsort` of applypatch/bsdiff.c as a whole. */
module QSufSort {
  import opened Suffixes
  import opened GroupSplit
  import opened Doubling
  import opened Buckets

  /** `qsufsort(I,V,old,oldsize)`: for every byte string, I becomes its suffix array. */
  method QSufSort(I: array<int>, V: array<int>, src: bytes)
    requires I != V && I.Length == V.Length == |src| + 1
    modifies I, V
    ensures SuffixArray(src, I[..])
  {
    hide Place, Last, Below, Level, Marked, SuffixArray;
    var buckets := BucketStarts(src);
    Distribute(I, buckets, src);
    I[0] := |src|;
    NumberSuffixes(V, buckets, src);
    ghost var P := I[..];
    MarkSingles(I, buckets, src);
    ghost var z := Snap(I[..], V[..], P, Places(src));
    assert Bucketed(src, P, V[..]);
    BucketLevel(src, z);
    SortGroups(I, V, src, z);
  }
}
