/** Bytes, the lexicographic order on byte strings, and the order it induces
    on the suffixes of one string. */
module Suffixes {

  type byte = x: int | 0 <= x < 256
  type bytes = seq<byte>

  /** Lexicographic order; a proper prefix comes first. */
  ghost predicate LexLess(s: bytes, t: bytes)
    decreases |s|
  {
    t != [] && (s == [] || s[0] < t[0] || (s[0] == t[0] && LexLess(s[1..], t[1..])))
  }

  /** The suffix at p comes strictly before the suffix at q. */
  ghost predicate Before(src: bytes, p: int, q: int) {
    0 <= p <= |src| && 0 <= q <= |src| && LexLess(src[p..], src[q..])
  }

  /** Both suffixes have at least h bytes and agree on the first h of them. */
  ghost predicate SameTo(src: bytes, p: int, q: int, h: nat) {
    0 <= p && 0 <= q && p + h <= |src| && q + h <= |src| && src[p..p + h] == src[q..q + h]
  }

  /** The suffix array of src: every suffix, the empty one included, in strictly increasing order. */
  ghost predicate SuffixArray(src: bytes, I: seq<int>) {
    && |I| == |src| + 1
    && (forall k :: 0 <= k < |I| ==> 0 <= I[k] <= |src|)
    && (forall p :: 0 <= p <= |src| ==> p in I)
    && (forall j, k :: 0 <= j < k < |I| ==> Before(src, I[j], I[k]))
  }

  lemma {:induction false} LexIrreflexive(s: bytes)
    ensures !LexLess(s, s)
    decreases |s|
  {
    if s != [] { LexIrreflexive(s[1..]); }
  }

  lemma {:induction false} LexTransitive(s: bytes, t: bytes, u: bytes)
    requires LexLess(s, t) && LexLess(t, u)
    ensures LexLess(s, u)
    decreases |s|
  {
    if s != [] && s[0] == t[0] == u[0] { LexTransitive(s[1..], t[1..], u[1..]); }
  }

  lemma {:induction false} LexTotal(s: bytes, t: bytes)
    ensures s == t || LexLess(s, t) || LexLess(t, s)
    ensures !(LexLess(s, t) && LexLess(t, s)) && (s == t ==> !LexLess(s, t))
    decreases |s|
  {
    if s != [] && t != [] && s[0] == t[0] {
      LexTotal(s[1..], t[1..]);
      assert s == [s[0]] + s[1..] && t == [t[0]] + t[1..];
    }
  }

  /** A common prefix does not influence the order. */
  lemma {:induction false} LexCommonPrefix(c: bytes, s: bytes, t: bytes)
    ensures LexLess(c + s, c + t) <==> LexLess(s, t)
    decreases |c|
  {
    if c == [] {
      assert c + s == s && c + t == t;
    } else {
      LexCommonPrefix(c[1..], s, t);
      assert (c + s)[1..] == c[1..] + s && (c + t)[1..] == c[1..] + t;
    }
  }

  lemma SuffixSplit(src: bytes, p: nat, h: nat)
    requires p + h <= |src|
    ensures src[p..] == src[p..p + h] + src[p + h..]
  {
  }

  /** Comparing two suffixes that agree on h bytes is comparing them h bytes further on. */
  lemma BeforeShift(src: bytes, p: int, q: int, h: nat)
    requires SameTo(src, p, q, h) && Before(src, p + h, q + h)
    ensures Before(src, p, q)
  {
    SuffixSplit(src, p, h);
    SuffixSplit(src, q, h);
    LexCommonPrefix(src[p..p + h], src[p + h..], src[q + h..]);
  }

  lemma SameToDouble(src: bytes, p: int, q: int, h: nat)
    requires SameTo(src, p, q, h) && SameTo(src, p + h, q + h, h)
    ensures SameTo(src, p, q, 2 * h)
  {
    assert src[p..p + 2 * h] == src[p..p + h] + src[p + h..p + h + h];
    assert src[q..q + 2 * h] == src[q..q + h] + src[q + h..q + h + h];
  }

  lemma FirstByteDecides(src: bytes, p: int, q: int)
    requires 0 <= p < |src| && 0 <= q < |src|
    ensures src[p] < src[q] ==> Before(src, p, q)
    ensures src[p] == src[q] ==> SameTo(src, p, q, 1)
  {
  }
}
