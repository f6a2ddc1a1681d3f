/** `split` of the Larsson-Sadakane suffix sort in applypatch/bsdiff.c: sorting one group by the next h bytes.

    The arrays are those of the program.  V[p] is the group number of the suffix
    at p, the last index of its group in the sorted order.  I lists the suffixes
    group by group, except that a sorted run of single-suffix groups is
    overwritten by minus its length.  The ghost sequence P is what I would hold
    without that overwriting, and R is its inverse. */
module GroupSplit {
  import opened Suffixes

  ghost predicate Inverse(P: seq<int>, R: seq<int>) {
    && |P| == |R|
    && (forall k :: 0 <= k < |P| ==> 0 <= P[k] < |R| && R[P[k]] == k)
    && (forall p :: 0 <= p < |R| ==> 0 <= R[p] < |P| && P[R[p]] == p)
  }

  /** (P', R') lists the same suffixes as (P, R), moved only inside [a, b). */
  ghost predicate Reorders(P: seq<int>, R: seq<int>, P': seq<int>, R': seq<int>, a: int, b: int) {
    && Inverse(P, R) && Inverse(P', R') && |P'| == |P|
    && (forall t :: 0 <= t < |P| && !(a <= t < b) ==> P'[t] == P[t])
    && (forall q :: 0 <= q < |R| ==> (a <= R[q] < b <==> a <= R'[q] < b))
  }

  /** Group numbers are sound: a smaller number means a smaller suffix, and
      suffixes with the same number agree on h bytes. */
  ghost predicate Ordered(src: bytes, V: seq<int>, h: nat) {
    && |V| == |src| + 1
    && (forall p, q :: 0 <= p < |V| && 0 <= q < |V| && V[p] < V[q] ==> Before(src, p, q))
    && (forall p, q :: 0 <= p < |V| && 0 <= q < |V| && p != q && V[p] == V[q] ==> SameTo(src, p, q, h))
  }

  /** [a, b) still has to be sorted: it holds the smallest members of group G,
      and no other suffix has a number from a up to G. */
  ghost predicate Pending(src: bytes, V: seq<int>, P: seq<int>, R: seq<int>, a: int, b: int, G: int) {
    && |V| == |P| == |R| == |src| + 1
    && 0 <= a <= b <= G + 1 <= |V|
    && Inverse(P, R)
    && (forall t :: a <= t < b ==> V[P[t]] == G)
    && (forall q :: 0 <= q < |V| ==> V[q] < a || V[q] >= G)
    && (forall q, t :: 0 <= q < |V| && V[q] == G && !(a <= R[q] < b) && a <= t < b ==> Before(src, P[t], q))
  }

  /** [a, b) has been split into groups whose members agree on m bytes. */
  ghost predicate Refined(src: bytes, I: seq<int>, V: seq<int>, P: seq<int>, a: int, b: int, m: nat) {
    && |I| == |V| == |P| == |src| + 1 && 0 <= a <= b <= |I|
    && (forall k :: a <= k < b ==> 0 <= P[k] < |V| && k <= V[P[k]] < b)
    && (forall k, l :: a <= k <= l < b && l <= V[P[k]] ==> V[P[l]] == V[P[k]] && (I[k] >= 0 ==> I[l] == P[l]))
    && (forall k :: a <= k < b && I[k] >= 0 ==> P[k] + m <= |src|)
    && (forall k :: a <= k < b && I[k] < 0 ==> I[k] == -1 && V[P[k]] == k)
    && (forall k, l :: a <= k < l < b && V[P[k]] == V[P[l]] ==> SameTo(src, P[k], P[l], m))
  }

  ghost function SetBlock(V: seq<int>, R: seq<int>, a: int, b: int): (V': seq<int>)
    requires |R| == |V|
  {
    seq(|V|, q requires 0 <= q < |V| => if a <= R[q] < b then b - 1 else V[q])
  }

  // ----- lemmas about one step -----

  lemma ReordersTrans(P: seq<int>, R: seq<int>, P1: seq<int>, R1: seq<int>, P2: seq<int>, R2: seq<int>,
                      a: int, b: int, c: int, d: int)
    requires Reorders(P, R, P1, R1, a, b) && Reorders(P1, R1, P2, R2, c, d)
    requires a <= c && d <= b
    ensures Reorders(P, R, P2, R2, a, b)
  {
  }

  /** Exchanging two entries of [a, b). */
  lemma SwapReorders(P: seq<int>, R: seq<int>, i: int, j: int, a: int, b: int)
    requires Inverse(P, R) && 0 <= a <= i < b <= |P| && a <= j < b
    ensures var P' := P[i := P[j]][j := P[i]];
            var R' := R[P[j] := i][P[i] := j];
            Reorders(P, R, P', R', a, b)
  {
  }

  /** Keys inside one group decide the order of its members. */
  lemma KeysDecide(src: bytes, V: seq<int>, p: int, q: int, h: nat)
    requires Ordered(src, V, h)
    requires 0 <= p && p + h < |V| && 0 <= q && q + h < |V| && p != q && V[p] == V[q]
    ensures V[p + h] < V[q + h] ==> Before(src, p, q)
    ensures V[p + h] == V[q + h] ==> SameTo(src, p, q, 2 * h)
  {
    if V[p + h] < V[q + h] {
      BeforeShift(src, p, q, h);
    } else if V[p + h] == V[q + h] {
      SameToDouble(src, p, q, h);
    }
  }

  /** Giving the block [a, b) its own number keeps the numbers sound and leaves [b, c) pending. */
  lemma PeelBlock(src: bytes, V: seq<int>, P: seq<int>, R: seq<int>, a: int, b: int, c: int, G: int, h: nat)
    requires Ordered(src, V, h) && Pending(src, V, P, R, a, c, G)
    requires a < b <= c
    requires forall t, u :: a <= t < b <= u < c ==> Before(src, P[t], P[u])
    ensures Ordered(src, SetBlock(V, R, a, b), h)
    ensures Pending(src, SetBlock(V, R, a, b), P, R, b, c, G)
  {
    var W := SetBlock(V, R, a, b);
    forall p | 0 <= p < |V| && a <= R[p] < b
      ensures V[p] == G && W[p] == b - 1
    {
      assert V[P[R[p]]] == G;
    }
    forall p, q | 0 <= p < |W| && 0 <= q < |W| && W[p] < W[q]
      ensures Before(src, p, q)
    {
      if a <= R[p] < b && V[q] == G {
        if b <= R[q] < c {
          assert Before(src, P[R[p]], P[R[q]]);
        } else {
          assert Before(src, P[R[p]], q);
        }
      }
    }
    forall q, t | 0 <= q < |W| && W[q] == G && !(b <= R[q] < c) && b <= t < c
      ensures Before(src, P[t], q)
    {
    }
  }

  lemma RefineConcat(src: bytes, I: seq<int>, V: seq<int>, P: seq<int>, R: seq<int>, a: int, b: int, c: int, m: nat)
    requires Inverse(P, R)
    requires Refined(src, I, V, P, a, b, m) && Refined(src, I, V, P, b, c, m)
    ensures Refined(src, I, V, P, a, c, m)
  {
  }

  /** Refined only looks at its own interval. */
  lemma RefineFrame(src: bytes, I: seq<int>, V: seq<int>, P: seq<int>, I': seq<int>, V': seq<int>, P': seq<int>,
                    a: int, b: int, m: nat)
    requires Refined(src, I, V, P, a, b, m)
    requires |I'| == |I| && |V'| == |V| && |P'| == |P|
    requires forall k :: a <= k < b ==> I'[k] == I[k] && P'[k] == P[k]
    requires forall k :: a <= k < b ==> V'[P[k]] == V[P[k]]
    ensures Refined(src, I', V', P', a, b, m)
  {
  }

  lemma RefineBlock(src: bytes, I: seq<int>, V: seq<int>, P: seq<int>, R: seq<int>, a: int, b: int, m: nat)
    requires Inverse(P, R) && |I| == |V| == |P| == |src| + 1 && 0 <= a < b <= |I|
    requires forall k :: a <= k < b ==> V[P[k]] == b - 1
    requires if b == a + 1 then I[a] == -1 else forall k :: a <= k < b ==> I[k] == P[k]
    requires forall k, l :: a <= k < l < b ==> SameTo(src, P[k], P[l], m)
    ensures Refined(src, I, V, P, a, b, m)
  {
    forall k | a <= k < b && I[k] >= 0
      ensures P[k] + m <= |src|
    {
      if k > a {
        assert SameTo(src, P[a], P[k], m);
      } else {
        assert SameTo(src, P[k], P[k + 1], m);
      }
    }
  }

  // ----- counting, used by the partition of long groups -----

  ghost function Count(s: seq<int>, f: int -> bool): (n: nat)
    ensures n <= |s|
  {
    if s == [] then 0 else Count(s[..|s| - 1], f) + (if f(s[|s| - 1]) then 1 else 0)
  }

  lemma {:induction false} CountConcat(s: seq<int>, t: seq<int>, f: int -> bool)
    ensures Count(s + t, f) == Count(s, f) + Count(t, f)
    decreases |t|
  {
    if t == [] {
      assert s + t == s;
    } else {
      assert (s + t)[..|s + t| - 1] == s + t[..|t| - 1];
      CountConcat(s, t[..|t| - 1], f);
    }
  }

  lemma CountSplit(s: seq<int>, i: int, f: int -> bool)
    requires 0 <= i < |s|
    ensures Count(s, f) == Count(s[..i], f) + (if f(s[i]) then 1 else 0) + Count(s[i + 1..], f)
  {
    assert s == s[..i] + ([s[i]] + s[i + 1..]);
    CountConcat(s[..i], [s[i]] + s[i + 1..], f);
    CountConcat([s[i]], s[i + 1..], f);
    assert [s[i]][..0] == [];
  }

  lemma CountUpdate(s: seq<int>, i: int, x: int, f: int -> bool)
    requires 0 <= i < |s|
    ensures Count(s[i := x], f) == Count(s, f) - (if f(s[i]) then 1 else 0) + (if f(x) then 1 else 0)
  {
    CountSplit(s, i, f);
    CountSplit(s[i := x], i, f);
    assert s[i := x][..i] == s[..i] && s[i := x][i + 1..] == s[i + 1..];
  }

  lemma CountSwap(s: seq<int>, i: int, j: int, f: int -> bool)
    requires 0 <= i < |s| && 0 <= j < |s|
    ensures Count(s[i := s[j]][j := s[i]], f) == Count(s, f)
  {
    CountUpdate(s, i, s[j], f);
    CountUpdate(s[i := s[j]], j, s[i], f);
  }

  /** If [a, b) satisfies f and so does a place outside it, there are more than b - a such places. */
  lemma {:induction false} CountBlock(s: seq<int>, a: int, b: int, i: int, f: int -> bool)
    requires 0 <= a <= b <= |s| && forall t :: a <= t < b ==> f(s[t])
    requires 0 <= i <= |s|
    ensures Count(s, f) >= b - a
    ensures i < |s| && !(a <= i < b) && f(s[i]) ==> Count(s, f) >= b - a + 1
    decreases |s|
  {
    if s != [] {
      var m := |s| - 1;
      CountBlock(s[..m], if a <= m then a else m, if b <= m then b else m, if i <= m then i else m, f);
    }
  }

  // ----- keys -----

  /** The sort key V[S[t] + h] of entry t; total, so that specifications need no bounds. */
  ghost function Key(V: seq<int>, S: seq<int>, t: int, h: int): int {
    if 0 <= t < |S| && 0 <= S[t] + h < |V| then V[S[t] + h] else 0
  }

  /** Every read V[S[t] + h] with t in [a, b) is in bounds. */
  ghost predicate KeysExist(V: seq<int>, S: seq<int>, a: int, b: int, h: int) {
    forall t :: 0 <= t < |S| && a <= t < b ==> 0 <= S[t] && S[t] + h < |V|
  }

  ghost predicate KeysLt(V: seq<int>, S: seq<int>, a: int, b: int, h: int, x: int) {
    forall t :: a <= t < b ==> Key(V, S, t, h) < x
  }

  ghost predicate KeysEq(V: seq<int>, S: seq<int>, a: int, b: int, h: int, x: int) {
    forall t :: a <= t < b ==> Key(V, S, t, h) == x
  }

  ghost predicate KeysGt(V: seq<int>, S: seq<int>, a: int, b: int, h: int, x: int) {
    forall t :: a <= t < b ==> Key(V, S, t, h) > x
  }

  ghost function Swapped(S: seq<int>, i: int, j: int): (S': seq<int>)
    ensures |S'| == |S|
  {
    if 0 <= i < |S| && 0 <= j < |S| then S[i := S[j]][j := S[i]] else S
  }

  lemma SwapKeys(V: seq<int>, S: seq<int>, i: int, j: int, h: int)
    requires 0 <= i < |S| && 0 <= j < |S|
    ensures forall t :: Key(V, Swapped(S, i, j), t, h) ==
                        if t == i then Key(V, S, j, h) else if t == j then Key(V, S, i, h) else Key(V, S, t, h)
  {
  }

  lemma ExistsAt(V: seq<int>, S: seq<int>, a: int, b: int, h: nat, t: int)
    requires KeysExist(V, S, a, b, h) && 0 <= a <= t < b <= |S|
    ensures 0 <= S[t] && S[t] + h < |V| && Key(V, S, t, h) == V[S[t] + h]
  {
  }

  lemma SwapExists(V: seq<int>, S: seq<int>, a: int, b: int, h: int, i: int, j: int)
    requires KeysExist(V, S, a, b, h) && 0 <= a <= i < b <= |S| && a <= j < b
    ensures KeysExist(V, Swapped(S, i, j), a, b, h)
  {
  }

  // ----- rearrangements -----

  datatype Swaps = NoSwaps | Then(first: Swaps, i: int, j: int)

  ghost predicate SwapsIn(w: Swaps, a: int, b: int) {
    w.Then? ==> SwapsIn(w.first, a, b) && a <= w.i < b && a <= w.j < b
  }

  ghost function ApplySwaps(S: seq<int>, w: Swaps): (S': seq<int>)
    ensures |S'| == |S|
  {
    match w
    case NoSwaps => S
    case Then(u, i, j) => Swapped(ApplySwaps(S, u), i, j)
  }

  /** S' is S with the entries of [a, b) rearranged. */
  ghost predicate Shuffled(S: seq<int>, S': seq<int>, a: int, b: int) {
    exists w :: SwapsIn(w, a, b) && S' == ApplySwaps(S, w)
  }

  lemma ShuffleNone(S: seq<int>, a: int, b: int)
    ensures Shuffled(S, S, a, b)
  {
    assert S == ApplySwaps(S, NoSwaps);
  }

  lemma ShuffleSwap(S: seq<int>, S': seq<int>, a: int, b: int, i: int, j: int)
    requires Shuffled(S, S', a, b) && a <= i < b && a <= j < b
    ensures Shuffled(S, Swapped(S', i, j), a, b)
  {
    var w :| SwapsIn(w, a, b) && S' == ApplySwaps(S, w);
    assert Swapped(S', i, j) == ApplySwaps(S, Then(w, i, j));
  }

  /** Rearranging P inside [a, b) the way I was rearranged. */
  lemma {:induction false} SwapsReorder(P: seq<int>, R: seq<int>, I: seq<int>, w: Swaps, a: int, b: int)
    returns (P': seq<int>, R': seq<int>)
    requires Inverse(P, R) && |I| == |P| && 0 <= a <= b <= |P| && SwapsIn(w, a, b)
    requires forall t :: a <= t < b ==> I[t] == P[t]
    ensures Reorders(P, R, P', R', a, b)
    ensures forall t :: 0 <= t < |P| ==> ApplySwaps(I, w)[t] == if a <= t < b then P'[t] else I[t]
    decreases w
  {
    P', R' := P, R;
    if w.Then? {
      var P1, R1 := SwapsReorder(P, R, I, w.first, a, b);
      P', R' := P1[w.i := P1[w.j]][w.j := P1[w.i]], R1[P1[w.j] := w.i][P1[w.i] := w.j];
      SwapReorders(P1, R1, w.i, w.j, a, b);
      ReordersTrans(P, R, P1, R1, P', R', a, b, a, b);
    }
  }

  lemma ShuffleReorders(P: seq<int>, R: seq<int>, I: seq<int>, I': seq<int>, a: int, b: int)
    returns (P': seq<int>, R': seq<int>)
    requires Inverse(P, R) && |I| == |P| && 0 <= a <= b <= |P| && Shuffled(I, I', a, b)
    requires forall t :: a <= t < b ==> I[t] == P[t]
    ensures Reorders(P, R, P', R', a, b) && |I'| == |I|
    ensures forall t :: 0 <= t < |P| ==> I'[t] == if a <= t < b then P'[t] else I[t]
  {
    var w :| SwapsIn(w, a, b) && I' == ApplySwaps(I, w);
    P', R' := SwapsReorder(P, R, I, w, a, b);
  }

  // ----- one round on a short group -----

  datatype Round = Round(S: seq<int>, b: int, x: int)

  /** What the round does with entry c, given that [a, b) holds the entries with key x seen so far. */
  ghost function GatherNext(V: seq<int>, S: seq<int>, a: int, b: int, c: int, h: int, x: int): (r: Round) {
    var y := Key(V, S, c, h);
    if y < x then Round(Swapped(S, a, c), a + 1, y)
    else if y == x then Round(Swapped(S, b, c), b + 1, x)
    else Round(S, b, x)
  }

  ghost function Gather(V: seq<int>, S: seq<int>, a: int, b: int, c: int, end: int, h: int, x: int): (r: Round)
    decreases end - c
  {
    if c >= end then Round(S, b, x)
    else var n := GatherNext(V, S, a, b, c, h, x); Gather(V, n.S, a, n.b, c + 1, end, h, n.x)
  }

  lemma GatherEnd(V: seq<int>, S: seq<int>, a: int, b: int, end: int, h: int, x: int)
    ensures Gather(V, S, a, b, end, end, h, x) == Round(S, b, x)
  {
  }

  lemma GatherUnfold(V: seq<int>, S: seq<int>, a: int, b: int, c: int, end: int, h: int, x: int)
    requires c < end
    ensures var n := GatherNext(V, S, a, b, c, h, x);
            Gather(V, S, a, b, c, end, h, x) == Gather(V, n.S, a, n.b, c + 1, end, h, n.x)
  {
  }

  lemma GatherNextKeys(V: seq<int>, S: seq<int>, a: int, b: int, c: int, h: int, x: int)
    requires 0 <= a < b <= c < |S|
    requires KeysEq(V, S, a, b, h, x) && KeysGt(V, S, b, c, h, x)
    ensures var n := GatherNext(V, S, a, b, c, h, x);
            a < n.b <= c + 1 && KeysEq(V, n.S, a, n.b, h, n.x) && KeysGt(V, n.S, n.b, c + 1, h, n.x)
  {
    hide Key, Swapped;
    SwapKeys(V, S, a, c, h);
    SwapKeys(V, S, b, c, h);
  }

  lemma GatherNextShuffles(V: seq<int>, S0: seq<int>, S: seq<int>, a: int, b: int, c: int, end: int, h: int, x: int)
    requires 0 <= a <= b <= c < end <= |S| && Shuffled(S0, S, a, end) && KeysExist(V, S, a, end, h)
    ensures var n := GatherNext(V, S, a, b, c, h, x);
            Shuffled(S0, n.S, a, end) && KeysExist(V, n.S, a, end, h)
  {
    hide Key, Swapped, Shuffled, KeysExist;
    ShuffleSwap(S0, S, a, end, a, c);
    ShuffleSwap(S0, S, a, end, b, c);
    SwapExists(V, S, a, end, h, a, c);
    SwapExists(V, S, a, end, h, b, c);
  }

  lemma {:induction false} GatherCorrect(V: seq<int>, S0: seq<int>, S: seq<int>, a: int, b: int, c: int, end: int,
                                         h: int, x: int)
    requires 0 <= a < b <= c <= end <= |S| && Shuffled(S0, S, a, end) && KeysExist(V, S, a, end, h)
    requires KeysEq(V, S, a, b, h, x) && KeysGt(V, S, b, c, h, x)
    ensures var r := Gather(V, S, a, b, c, end, h, x);
            && a < r.b <= end && Shuffled(S0, r.S, a, end) && KeysExist(V, r.S, a, end, h)
            && KeysEq(V, r.S, a, r.b, h, r.x) && KeysGt(V, r.S, r.b, end, h, r.x)
    decreases end - c
  {
    if c < end {
      GatherNextKeys(V, S, a, b, c, h, x);
      GatherNextShuffles(V, S0, S, a, b, c, end, h, x);
      var n := GatherNext(V, S, a, b, c, h, x);
      hide GatherNext, Shuffled;
      GatherCorrect(V, S0, n.S, a, n.b, c + 1, end, h, n.x);
    }
  }

  // ----- partition of a long group -----

  ghost function LtKey(V: seq<int>, h: int, x: int): int -> bool { p => Key(V, [p], 0, h) < x }

  ghost function EqKey(V: seq<int>, h: int, x: int): int -> bool { p => Key(V, [p], 0, h) == x }

  ghost function GtKey(V: seq<int>, h: int, x: int): int -> bool { p => Key(V, [p], 0, h) > x }

  lemma {:induction false} CountTotal(V: seq<int>, h: int, x: int, S: seq<int>)
    ensures Count(S, LtKey(V, h, x)) + Count(S, EqKey(V, h, x)) + Count(S, GtKey(V, h, x)) == |S|
    decreases |S|
  {
    if S != [] { CountTotal(V, h, x, S[..|S| - 1]); }
  }

  /** jj and kk delimit where the keys below, equal to and above x belong in [a, end). */
  ghost predicate Sized(V: seq<int>, S: seq<int>, a: int, jj: int, kk: int, end: int, h: int, x: int) {
    && 0 <= a <= jj <= kk <= end <= |S|
    && Count(S[a..end], LtKey(V, h, x)) == jj - a
    && Count(S[a..end], EqKey(V, h, x)) == kk - jj
    && Count(S[a..end], GtKey(V, h, x)) == end - kk
  }

  lemma SizedSwap(V: seq<int>, S: seq<int>, a: int, jj: int, kk: int, end: int, h: int, x: int, i: int, j: int)
    requires Sized(V, S, a, jj, kk, end, h, x) && a <= i < end && a <= j < end
    ensures Sized(V, Swapped(S, i, j), a, jj, kk, end, h, x)
  {
    hide Count, LtKey, EqKey, GtKey;
    assert Swapped(S, i, j)[a..end] == Swapped(S[a..end], i - a, j - a);
    CountSwap(S[a..end], i - a, j - a, LtKey(V, h, x));
    CountSwap(S[a..end], i - a, j - a, EqKey(V, h, x));
    CountSwap(S[a..end], i - a, j - a, GtKey(V, h, x));
  }

  /** If [b, c) holds keys below x then so many are counted, and one more if entry e outside it is below x too. */
  lemma CountLtKeys(V: seq<int>, S: seq<int>, a: int, end: int, b: int, c: int, e: int, h: int, x: int)
    requires 0 <= a <= b <= c <= end <= |S| && a <= e < end && KeysLt(V, S, b, c, h, x)
    ensures Count(S[a..end], LtKey(V, h, x)) >= c - b + (if !(b <= e < c) && Key(V, S, e, h) < x then 1 else 0)
  {
    CountBlock(S[a..end], b - a, c - a, e - a, LtKey(V, h, x)) by {
      assert forall t :: b <= t < c ==> Key(V, [S[t]], 0, h) == Key(V, S, t, h);
    }
  }

  lemma CountEqKeys(V: seq<int>, S: seq<int>, a: int, end: int, b: int, c: int, e: int, h: int, x: int)
    requires 0 <= a <= b <= c <= end <= |S| && a <= e < end && KeysEq(V, S, b, c, h, x)
    ensures Count(S[a..end], EqKey(V, h, x)) >= c - b + (if !(b <= e < c) && Key(V, S, e, h) == x then 1 else 0)
  {
    CountBlock(S[a..end], b - a, c - a, e - a, EqKey(V, h, x)) by {
      assert forall t :: b <= t < c ==> Key(V, [S[t]], 0, h) == Key(V, S, t, h);
    }
  }

  lemma CountGtKeys(V: seq<int>, S: seq<int>, a: int, end: int, b: int, c: int, e: int, h: int, x: int)
    requires 0 <= a <= b <= c <= end <= |S| && a <= e < end && KeysGt(V, S, b, c, h, x)
    ensures Count(S[a..end], GtKey(V, h, x)) >= c - b + (if !(b <= e < c) && Key(V, S, e, h) > x then 1 else 0)
  {
    CountBlock(S[a..end], b - a, c - a, e - a, GtKey(V, h, x)) by {
      assert forall t :: b <= t < c ==> Key(V, [S[t]], 0, h) == Key(V, S, t, h);
    }
  }

  /** State of the partition: [a, i), [jj, jj+j) and [kk, kk+k) hold keys of the right kind. */
  ghost predicate Parted(V: seq<int>, S: seq<int>, a: int, jj: int, kk: int, end: int,
                         i: int, j: int, k: int, h: int, x: int) {
    && a <= i <= jj && 0 <= j && jj + j <= kk && 0 <= k && kk + k <= end
    && Sized(V, S, a, jj, kk, end, h, x)
    && KeysLt(V, S, a, i, h, x) && KeysEq(V, S, jj, jj + j, h, x) && KeysGt(V, S, kk, kk + k, h, x)
  }

  lemma PartBounds(V: seq<int>, S: seq<int>, a: int, jj: int, kk: int, end: int,
                   i: int, j: int, k: int, h: int, x: int)
    requires Parted(V, S, a, jj, kk, end, i, j, k, h, x)
    ensures 0 <= a <= i <= jj <= jj + j <= kk <= kk + k <= end <= |S|
  {
  }

  /** There is room in the part where the key of entry e belongs. */
  lemma PartRoom(V: seq<int>, S: seq<int>, a: int, jj: int, kk: int, end: int,
                 i: int, j: int, k: int, h: int, x: int, e: int)
    requires Parted(V, S, a, jj, kk, end, i, j, k, h, x) && a <= e < end
    ensures !(a <= e < i) && Key(V, S, e, h) < x ==> i < jj
    ensures !(jj <= e < jj + j) && Key(V, S, e, h) == x ==> jj + j < kk
    ensures !(kk <= e < kk + k) && Key(V, S, e, h) > x ==> kk + k < end
  {
    hide Key, KeysLt, KeysEq, KeysGt, Count;
    CountLtKeys(V, S, a, end, a, i, e, h, x);
    CountEqKeys(V, S, a, end, jj, jj + j, e, h, x);
    CountGtKeys(V, S, a, end, kk, kk + k, e, h, x);
  }

  lemma SwapOutside(V: seq<int>, S: seq<int>, e: int, f: int, b: int, c: int, h: int, x: int)
    requires 0 <= e < |S| && 0 <= f < |S| && !(b <= e < c) && !(b <= f < c)
    ensures KeysLt(V, S, b, c, h, x) ==> KeysLt(V, Swapped(S, e, f), b, c, h, x)
    ensures KeysEq(V, S, b, c, h, x) ==> KeysEq(V, Swapped(S, e, f), b, c, h, x)
    ensures KeysGt(V, S, b, c, h, x) ==> KeysGt(V, Swapped(S, e, f), b, c, h, x)
    ensures Key(V, Swapped(S, e, f), f, h) == Key(V, S, e, h)
  {
    hide Key, Swapped;
    SwapKeys(V, S, e, f, h);
  }

  lemma KeysGrow(V: seq<int>, S: seq<int>, b: int, c: int, h: int, x: int)
    ensures KeysLt(V, S, b, c, h, x) && Key(V, S, c, h) < x ==> KeysLt(V, S, b, c + 1, h, x)
    ensures KeysEq(V, S, b, c, h, x) && Key(V, S, c, h) == x ==> KeysEq(V, S, b, c + 1, h, x)
    ensures KeysGt(V, S, b, c, h, x) && Key(V, S, c, h) > x ==> KeysGt(V, S, b, c + 1, h, x)
  {
  }

  /** An entry with key x moves to the end of the middle part. */
  lemma PartEqual(V: seq<int>, S: seq<int>, a: int, jj: int, kk: int, end: int,
                  i: int, j: int, k: int, h: int, x: int)
    requires Parted(V, S, a, jj, kk, end, i, j, k, h, x) && i < jj && Key(V, S, i, h) == x
    ensures jj + j < kk && Parted(V, Swapped(S, i, jj + j), a, jj, kk, end, i, j + 1, k, h, x)
  {
    hide Key, Swapped, KeysLt, KeysEq, KeysGt;
    PartRoom(V, S, a, jj, kk, end, i, j, k, h, x, i);
    SwapOutside(V, S, i, jj + j, a, i, h, x);
    SwapOutside(V, S, i, jj + j, jj, jj + j, h, x);
    SwapOutside(V, S, i, jj + j, kk, kk + k, h, x);
    SizedSwap(V, S, a, jj, kk, end, h, x, i, jj + j);
    KeysGrow(V, Swapped(S, i, jj + j), jj, jj + j, h, x);
  }

  /** An entry with a key above x moves to the end of the last part, from either of the other two. */
  lemma PartAbove(V: seq<int>, S: seq<int>, a: int, jj: int, kk: int, end: int,
                  i: int, j: int, k: int, h: int, x: int, e: int)
    requires Parted(V, S, a, jj, kk, end, i, j, k, h, x) && Key(V, S, e, h) > x
    requires i <= e < jj || jj + j <= e < kk
    ensures kk + k < end && Parted(V, Swapped(S, e, kk + k), a, jj, kk, end, i, j, k + 1, h, x)
  {
    hide Key, Swapped, KeysLt, KeysEq, KeysGt;
    PartRoom(V, S, a, jj, kk, end, i, j, k, h, x, e);
    SwapOutside(V, S, e, kk + k, a, i, h, x);
    SwapOutside(V, S, e, kk + k, jj, jj + j, h, x);
    SwapOutside(V, S, e, kk + k, kk, kk + k, h, x);
    SizedSwap(V, S, a, jj, kk, end, h, x, e, kk + k);
    KeysGrow(V, Swapped(S, e, kk + k), kk, kk + k, h, x);
  }

  /** When the first two parts are full, the rest of [a, end) is above x. */
  lemma PartDone(V: seq<int>, S: seq<int>, a: int, jj: int, kk: int, end: int, k: int, h: int, x: int)
    requires Parted(V, S, a, jj, kk, end, jj, kk - jj, k, h, x)
    ensures KeysGt(V, S, kk, end, h, x)
  {
    forall t | kk <= t < end
      ensures Key(V, S, t, h) > x
    {
      PartRoom(V, S, a, jj, kk, end, jj, kk - jj, k, h, x, t);
    }
  }

  /** The invariant of both partition loops. */
  ghost predicate Parting(V: seq<int>, S0: seq<int>, S: seq<int>, a: int, jj: int, kk: int, end: int,
                          i: int, j: int, k: int, h: int, x: int) {
    && Parted(V, S, a, jj, kk, end, i, j, k, h, x)
    && Shuffled(S0, S, a, end) && KeysExist(V, S, a, end, h)
  }

  lemma PartingBelow(V: seq<int>, S0: seq<int>, S: seq<int>, a: int, jj: int, kk: int, end: int,
                     i: int, j: int, k: int, h: int, x: int)
    requires Parting(V, S0, S, a, jj, kk, end, i, j, k, h, x) && i < jj && Key(V, S, i, h) < x
    ensures Parting(V, S0, S, a, jj, kk, end, i + 1, j, k, h, x)
  {
    hide KeysLt, KeysEq, KeysGt, Sized, Shuffled, KeysExist, Key;
    KeysGrow(V, S, a, i, h, x);
  }

  lemma PartingEqual(V: seq<int>, S0: seq<int>, S: seq<int>, a: int, jj: int, kk: int, end: int,
                     i: int, j: int, k: int, h: int, x: int)
    requires Parting(V, S0, S, a, jj, kk, end, i, j, k, h, x) && i < jj && Key(V, S, i, h) == x
    ensures jj + j < kk && Parting(V, S0, Swapped(S, i, jj + j), a, jj, kk, end, i, j + 1, k, h, x)
  {
    hide Parted, Shuffled, KeysExist, Swapped, Key;
    PartBounds(V, S, a, jj, kk, end, i, j, k, h, x);
    PartEqual(V, S, a, jj, kk, end, i, j, k, h, x);
    ShuffleSwap(S0, S, a, end, i, jj + j);
    SwapExists(V, S, a, end, h, i, jj + j);
  }

  lemma PartingAbove(V: seq<int>, S0: seq<int>, S: seq<int>, a: int, jj: int, kk: int, end: int,
                     i: int, j: int, k: int, h: int, x: int, e: int)
    requires Parting(V, S0, S, a, jj, kk, end, i, j, k, h, x) && Key(V, S, e, h) > x
    requires i <= e < jj || jj + j <= e < kk
    ensures kk + k < end && Parting(V, S0, Swapped(S, e, kk + k), a, jj, kk, end, i, j, k + 1, h, x)
  {
    hide Parted, Shuffled, KeysExist, Swapped, Key;
    PartBounds(V, S, a, jj, kk, end, i, j, k, h, x);
    PartAbove(V, S, a, jj, kk, end, i, j, k, h, x, e);
    ShuffleSwap(S0, S, a, end, e, kk + k);
    SwapExists(V, S, a, end, h, e, kk + k);
  }

  /** In the second loop no key below x is left. */
  lemma PartingMiddle(V: seq<int>, S0: seq<int>, S: seq<int>, a: int, jj: int, kk: int, end: int,
                      j: int, k: int, h: int, x: int)
    requires Parting(V, S0, S, a, jj, kk, end, jj, j, k, h, x) && jj + j < kk
    ensures Key(V, S, jj + j, h) >= x
    ensures Key(V, S, jj + j, h) == x ==> Parting(V, S0, S, a, jj, kk, end, jj, j + 1, k, h, x)
  {
    hide KeysLt, KeysEq, KeysGt, Shuffled, KeysExist, Key;
    PartRoom(V, S, a, jj, kk, end, jj, j, k, h, x, jj + j);
    KeysGrow(V, S, jj, jj + j, h, x);
  }

  lemma PartingBounds(V: seq<int>, S0: seq<int>, S: seq<int>, a: int, jj: int, kk: int, end: int,
                      i: int, j: int, k: int, h: nat, x: int)
    requires Parting(V, S0, S, a, jj, kk, end, i, j, k, h, x)
    ensures 0 <= a <= i <= jj <= jj + j <= kk <= kk + k <= end <= |S|
    ensures forall e :: a <= e < end ==> 0 <= S[e] && S[e] + h < |V|
    ensures forall e :: a <= e < end ==> Key(V, S, e, h) == V[S[e] + h]
  {
  }

  // ----- the state that split works on -----

  datatype Snap = Snap(I: seq<int>, V: seq<int>, P: seq<int>, R: seq<int>)

  /** [a, c) is to be split: see Pending; I is not overwritten there and all keys exist. */
  ghost predicate Work(src: bytes, z: Snap, a: int, c: int, G: int, h: nat) {
    && |z.I| == |src| + 1 && Ordered(src, z.V, h) && Pending(src, z.V, z.P, z.R, a, c, G)
    && (forall t :: a <= t < c ==> z.I[t] == z.P[t] && z.P[t] + h <= |src|)
  }

  /** Nothing outside [a, c) differs between z0 and z. */
  ghost predicate Local(z0: Snap, z: Snap, a: int, c: int) {
    && Reorders(z0.P, z0.R, z.P, z.R, a, c)
    && |z0.I| == |z.I| == |z0.V| == |z.V| == |z.P|
    && (forall t :: 0 <= t < |z.I| && !(a <= t < c) ==> z.I[t] == z0.I[t])
    && (forall q :: 0 <= q < |z.V| && !(a <= z0.R[q] < c) ==> z.V[q] == z0.V[q])
  }

  ghost predicate HasSplit(src: bytes, z0: Snap, z: Snap, a: int, b: int, h: nat) {
    Ordered(src, z.V, h) && Refined(src, z.I, z.V, z.P, a, b, 2 * h) && Local(z0, z, a, b)
  }

  /** The entries of [a, b) come before those of [b, c). */
  ghost predicate BlockFirst(src: bytes, P: seq<int>, a: int, b: int, c: int) {
    0 <= a <= b <= c <= |P| && forall t, u :: a <= t < b <= u < c ==> Before(src, P[t], P[u])
  }

  ghost predicate BlockSame(src: bytes, P: seq<int>, a: int, b: int, m: nat) {
    0 <= a <= b <= |P| && forall t, u :: a <= t < u < b ==> SameTo(src, P[t], P[u], m)
  }

  /** The first entries of a group can be split on their own. */
  lemma WorkFirst(src: bytes, z: Snap, a: int, b: int, c: int, G: int, h: nat)
    requires Work(src, z, a, c, G, h) && BlockFirst(src, z.P, a, b, c)
    ensures Work(src, z, a, b, G, h)
  {
    forall q, t | 0 <= q < |z.V| && z.V[q] == G && !(a <= z.R[q] < b) && a <= t < b
      ensures Before(src, z.P[t], q)
    {
      if b <= z.R[q] < c { assert Before(src, z.P[t], z.P[z.R[q]]); }
    }
  }

  lemma RestFacts(src: bytes, z0: Snap, z: Snap, a: int, b: int, h: nat)
    requires HasSplit(src, z0, z, a, b, h)
    ensures |z.I| == |z.V| == |z.P| == |z.R| == |z0.I| == |z0.V| == |z0.R| == |z0.P| == |src| + 1
    ensures forall q :: 0 <= q < |z.V| && a <= z0.R[q] < b ==> z.V[q] < b
    ensures forall q :: 0 <= q < |z.V| && !(a <= z0.R[q] < b) ==> z.V[q] == z0.V[q] && z.R[q] == z0.R[q]
    ensures forall t :: 0 <= t < |z.I| && !(a <= t < b) ==> z.I[t] == z0.I[t] && z.P[t] == z0.P[t]
    ensures forall t :: 0 <= t < |z.I| && !(a <= t < b) ==> 0 <= z.P[t] < |z.V| && z.V[z.P[t]] == z0.V[z.P[t]]
  {
    forall q | 0 <= q < |z.V| && a <= z0.R[q] < b
      ensures z.V[q] < b
    {
      assert z.V[z.P[z.R[q]]] < b;
    }
    forall q | 0 <= q < |z.V| && !(a <= z0.R[q] < b)
      ensures z.V[q] == z0.V[q] && z.R[q] == z0.R[q]
    {
      assert z.P[z0.R[q]] == q;
    }
    forall t | 0 <= t < |z.I| && !(a <= t < b)
      ensures 0 <= z.P[t] < |z.V| && z.V[z.P[t]] == z0.V[z.P[t]]
    {
      assert z0.R[z0.P[t]] == t;
    }
  }

  /** Once they are, the rest of the group is still to be split. */
  lemma WorkRest(src: bytes, z0: Snap, z: Snap, a: int, b: int, c: int, G: int, h: nat)
    requires Work(src, z0, a, c, G, h) && HasSplit(src, z0, z, a, b, h) && a <= b <= c
    ensures Work(src, z, b, c, G, h)
  {
    hide HasSplit, Ordered, Before, Inverse;
    RestFacts(src, z0, z, a, b, h);
    SplitShape(src, z0, z, a, b, h);
  }

  lemma LocalTrans(z0: Snap, z1: Snap, z2: Snap, a: int, b: int, c: int, d: int)
    requires Local(z0, z1, a, d) && Local(z1, z2, b, c) && a <= b && c <= d
    ensures Local(z0, z2, a, d)
  {
    ReordersTrans(z0.P, z0.R, z1.P, z1.R, z2.P, z2.R, a, d, b, c);
  }

  /** z1 is z with I and P rearranged inside [a, c). */
  ghost predicate Rearranged(z: Snap, z1: Snap, a: int, c: int) {
    && z1.V == z.V && Reorders(z.P, z.R, z1.P, z1.R, a, c)
    && |z.I| == |z1.I| == |z.V| == |z.P| && 0 <= a <= c <= |z.I|
    && (forall t :: 0 <= t < |z.I| ==> z1.I[t] == if a <= t < c then z1.P[t] else z.I[t])
  }

  lemma RearrangedFacts(z: Snap, z1: Snap, a: int, c: int)
    requires Rearranged(z, z1, a, c)
    ensures |z1.V| == |z1.P| == |z1.R| == |z1.I| == |z.I| == |z.P| == |z.R| && z1.V == z.V && Inverse(z1.P, z1.R)
    ensures forall t :: a <= t < c ==> 0 <= z1.P[t] < |z.R| && a <= z.R[z1.P[t]] < c
    ensures forall t :: a <= t < c ==> z1.I[t] == z1.P[t] && z.P[z.R[z1.P[t]]] == z1.P[t]
    ensures forall q :: 0 <= q < |z.R| ==> (a <= z.R[q] < c <==> a <= z1.R[q] < c)
  {
    forall t | a <= t < c
      ensures 0 <= z1.P[t] < |z.R| && a <= z.R[z1.P[t]] < c && z.P[z.R[z1.P[t]]] == z1.P[t]
    {
      assert z1.R[z1.P[t]] == t;
    }
  }

  lemma WorkRearranged(src: bytes, z: Snap, z1: Snap, a: int, c: int, G: int, h: nat)
    requires Work(src, z, a, c, G, h) && Rearranged(z, z1, a, c)
    ensures Work(src, z1, a, c, G, h) && Local(z, z1, a, c)
  {
    RearrangedLocal(z, z1, a, c);
    hide Ordered, Before, Rearranged, Inverse, Local;
    RearrangedFacts(z, z1, a, c);
  }

  lemma RearrangedLocal(z: Snap, z1: Snap, a: int, c: int)
    requires Rearranged(z, z1, a, c)
    ensures Local(z, z1, a, c)
  {
  }

  lemma WorkEntry(src: bytes, z: Snap, a: int, c: int, G: int, h: nat, t: int)
    requires Work(src, z, a, c, G, h) && a <= t < c
    ensures Ordered(src, z.V, h) && 0 <= t < |z.P| == |z.V| == |z.R| && 0 <= z.P[t] && z.P[t] + h < |z.V|
    ensures z.V[z.P[t]] == G && z.R[z.P[t]] == t && Key(z.V, z.P, t, h) == z.V[z.P[t] + h]
  {
    hide Ordered;
  }

  lemma KeysDecideAt(src: bytes, z: Snap, a: int, c: int, G: int, h: nat, t: int, u: int)
    requires Work(src, z, a, c, G, h) && a <= t < c && a <= u < c && t != u
    ensures Key(z.V, z.P, t, h) < Key(z.V, z.P, u, h) ==> Before(src, z.P[t], z.P[u])
    ensures Key(z.V, z.P, t, h) == Key(z.V, z.P, u, h) ==> SameTo(src, z.P[t], z.P[u], 2 * h)
  {
    hide Work, Ordered, Before, SameTo, Key;
    WorkEntry(src, z, a, c, G, h, t);
    WorkEntry(src, z, a, c, G, h, u);
    KeysDecide(src, z.V, z.P[t], z.P[u], h);
  }

  /** Smaller keys in [a, b) than in [b, c) mean smaller suffixes. */
  lemma KeysOrderBlocks(src: bytes, z: Snap, a: int, b: int, c: int, G: int, h: nat)
    requires Work(src, z, a, c, G, h) && a <= b <= c
    requires forall t, u :: a <= t < b <= u < c ==> Key(z.V, z.P, t, h) < Key(z.V, z.P, u, h)
    ensures BlockFirst(src, z.P, a, b, c)
  {
    assert 0 <= a && c <= |z.P|;
    hide Work, Key, Before;
    forall t, u | a <= t < b <= u < c
      ensures Before(src, z.P[t], z.P[u])
    {
      KeysDecideAt(src, z, a, c, G, h, t, u);
    }
  }

  lemma KeysMatchBlock(src: bytes, z: Snap, a: int, b: int, c: int, d: int, G: int, h: nat, x: int)
    requires Work(src, z, a, d, G, h) && a <= b <= c <= d && KeysEq(z.V, z.P, b, c, h, x)
    ensures BlockSame(src, z.P, b, c, 2 * h)
  {
    assert 0 <= a && d <= |z.P|;
    hide Work, Key, SameTo;
    forall t, u | b <= t < u < c
      ensures SameTo(src, z.P[t], z.P[u], 2 * h)
    {
      KeysDecideAt(src, z, a, d, G, h, t, u);
    }
  }

  /** What the program does with a block of equal keys: give it a number, and mark it sorted if it is a single entry. */
  ghost function Peeled(z: Snap, a: int, b: int): (z': Snap)
    requires |z.V| == |z.R| && 0 <= a < |z.I|
  {
    Snap(if b == a + 1 then z.I[a := -1] else z.I, SetBlock(z.V, z.R, a, b), z.P, z.R)
  }

  lemma PeelSplits(src: bytes, z: Snap, a: int, b: int, c: int, G: int, h: nat)
    requires Work(src, z, a, c, G, h) && a < b <= c
    requires BlockFirst(src, z.P, a, b, c) && BlockSame(src, z.P, a, b, 2 * h)
    ensures HasSplit(src, z, Peeled(z, a, b), a, b, h)
  {
    hide SameTo, Before;
    var z' := Peeled(z, a, b);
    PeelBlock(src, z.V, z.P, z.R, a, b, c, G, h);
    RefineBlock(src, z'.I, z'.V, z.P, z.R, a, b, 2 * h);
  }

  lemma SplitShape(src: bytes, z: Snap, z': Snap, a: int, b: int, h: nat)
    requires HasSplit(src, z, z', a, b, h)
    ensures 0 <= a <= b <= |src| + 1 && |z'.P| == |src| + 1 && Inverse(z'.P, z'.R) && Ordered(src, z'.V, h)
  {
  }

  /** What was refined before [b, c) was split still is. */
  lemma RefineCarried(src: bytes, z1: Snap, z2: Snap, a: int, b: int, c: int, h: nat)
    requires Refined(src, z1.I, z1.V, z1.P, a, b, 2 * h) && HasSplit(src, z1, z2, b, c, h)
    ensures Refined(src, z2.I, z2.V, z2.P, a, b, 2 * h)
  {
    hide HasSplit;
    RestFacts(src, z1, z2, b, c, h);
    RefineFrame(src, z1.I, z1.V, z1.P, z2.I, z2.V, z2.P, a, b, 2 * h);
  }

  /** Splitting [a, b) and then [b, c) is splitting [a, c). */
  lemma SplitJoin(src: bytes, z0: Snap, z1: Snap, z2: Snap, a: int, b: int, c: int, h: nat)
    requires HasSplit(src, z0, z1, a, b, h) && HasSplit(src, z1, z2, b, c, h)
    ensures HasSplit(src, z0, z2, a, c, h)
  {
    hide Refined, Local, Ordered, Inverse;
    SplitShape(src, z0, z1, a, b, h);
    SplitShape(src, z1, z2, b, c, h);
    RefineCarried(src, z1, z2, a, b, c, h);
    RefineConcat(src, z2.I, z2.V, z2.P, z2.R, a, b, c, 2 * h);
    LocalWiden(z0, z1, a, b, a, c);
    LocalTrans(z0, z1, z2, a, b, c, c);
  }

  lemma LocalWiden(z0: Snap, z: Snap, a: int, b: int, c: int, d: int)
    requires Local(z0, z, a, b) && c <= a && b <= d
    ensures Local(z0, z, c, d)
  {
    forall q | 0 <= q < |z.R| && !(a <= z0.R[q] < b)
      ensures z.R[q] == z0.R[q]
    {
      assert z.P[z0.R[q]] == q;
    }
  }

  /** Rearranging first makes no difference to what is local. */
  lemma SplitAfterRearrange(src: bytes, z0: Snap, z1: Snap, z2: Snap, a: int, c: int, h: nat)
    requires Local(z0, z1, a, c) && HasSplit(src, z1, z2, a, c, h)
    ensures HasSplit(src, z0, z2, a, c, h)
  {
    LocalTrans(z0, z1, z2, a, a, c, c);
  }

  /** Of [a, c), the part up to k has been split and the rest has not. */
  ghost predicate Progress(src: bytes, z0: Snap, z: Snap, a: int, k: int, c: int, G: int, h: nat) {
    && Work(src, z, k, c, G, h) && Refined(src, z.I, z.V, z.P, a, k, 2 * h) && Local(z0, z, a, c)
  }

  lemma RefineKept(src: bytes, z: Snap, z1: Snap, z2: Snap, a: int, k: int, b: int, c: int, h: nat)
    requires Refined(src, z.I, z.V, z.P, a, k, 2 * h) && Rearranged(z, z1, k, c) && HasSplit(src, z1, z2, k, b, h)
    ensures Refined(src, z2.I, z2.V, z2.P, a, b, 2 * h)
  {
    RefineFrame(src, z.I, z.V, z.P, z1.I, z1.V, z1.P, a, k, 2 * h);
    hide Refined, Inverse, Rearranged;
    SplitShape(src, z1, z2, k, b, h);
    RefineCarried(src, z1, z2, a, k, b, h);
    RefineConcat(src, z2.I, z2.V, z2.P, z2.R, a, k, b, 2 * h);
  }

  lemma ProgressSplit(src: bytes, z0: Snap, z: Snap, z1: Snap, z2: Snap, a: int, k: int, b: int, c: int, G: int, h: nat)
    requires Progress(src, z0, z, a, k, c, G, h) && a <= k <= b <= c
    requires Rearranged(z, z1, k, c) && HasSplit(src, z1, z2, k, b, h)
    ensures Progress(src, z0, z2, a, b, c, G, h)
  {
    hide Work, Refined, Local, Rearranged, HasSplit;
    WorkRearranged(src, z, z1, k, c, G, h);
    WorkRest(src, z1, z2, k, b, c, G, h);
    RefineKept(src, z, z1, z2, a, k, b, c, h);
    LocalTrans(z0, z, z1, a, k, c, c);
    SplitLocal(src, z1, z2, k, b, h);
    LocalTrans(z0, z1, z2, a, k, b, c);
  }

  lemma SplitLocal(src: bytes, z: Snap, z': Snap, a: int, b: int, h: nat)
    requires HasSplit(src, z, z', a, b, h)
    ensures Local(z, z', a, b)
  {
  }

  /** A round on [k, c) followed by numbering the block it found. */
  lemma ProgressPeel(src: bytes, z0: Snap, z: Snap, z1: Snap, a: int, k: int, b: int, c: int, G: int, h: nat, x: int)
    requires Progress(src, z0, z, a, k, c, G, h) && Rearranged(z, z1, k, c) && 0 <= a <= k < b <= c
    requires KeysEq(z1.V, z1.P, k, b, h, x) && KeysGt(z1.V, z1.P, b, c, h, x)
    ensures |z1.V| == |z1.R| && k < |z1.I| && Progress(src, z0, Peeled(z1, k, b), a, b, c, G, h)
  {
    WorkRearranged(src, z, z1, k, c, G, h);
    assert k < |z1.I| && |z1.V| == |z1.R|;
    hide Work, Refined, Local, Rearranged, HasSplit, Peeled, Key, BlockFirst, BlockSame;
    KeysOrderBlocks(src, z1, k, b, c, G, h);
    KeysMatchBlock(src, z1, k, k, b, c, G, h, x);
    PeelSplits(src, z1, k, b, c, G, h);
    ProgressSplit(src, z0, z, z1, Peeled(z1, k, b), a, k, b, c, G, h);
  }

  lemma ProgressDone(src: bytes, z0: Snap, z: Snap, a: int, c: int, G: int, h: nat)
    requires Progress(src, z0, z, a, c, c, G, h)
    ensures HasSplit(src, z0, z, a, c, h)
  {
  }

  lemma WorkKeysExist(src: bytes, z: Snap, a: int, c: int, G: int, h: nat)
    requires Work(src, z, a, c, G, h)
    ensures KeysExist(z.V, z.I, a, c, h) && 0 <= a <= c <= |z.I| == |z.V| == |z.P| == |z.R|
  {
  }

  /** The keys read through I are those read through P. */
  lemma KeysOfI(z: Snap, a: int, c: int, b: int, d: int, h: int, x: int)
    requires |z.I| == |z.P| && a <= b && d <= c && (forall t :: 0 <= t < |z.I| && a <= t < c ==> z.I[t] == z.P[t])
    ensures KeysLt(z.V, z.I, b, d, h, x) ==> KeysLt(z.V, z.P, b, d, h, x)
    ensures KeysEq(z.V, z.I, b, d, h, x) ==> KeysEq(z.V, z.P, b, d, h, x)
    ensures KeysGt(z.V, z.I, b, d, h, x) ==> KeysGt(z.V, z.P, b, d, h, x)
  {
    assert forall t :: b <= t < d ==> Key(z.V, z.I, t, h) == Key(z.V, z.P, t, h);
  }

  /** The ghost counterpart of a rearrangement of I. */
  lemma Rearrange(src: bytes, z: Snap, I': seq<int>, a: int, c: int, G: int, h: nat) returns (z1: Snap)
    requires Work(src, z, a, c, G, h) && Shuffled(z.I, I', a, c)
    ensures z1.I == I' && Rearranged(z, z1, a, c)
  {
    var P, R := ShuffleReorders(z.P, z.R, z.I, I', a, c);
    z1 := Snap(I', z.V, P, R);
  }

  lemma AfterRound(src: bytes, z0: Snap, z: Snap, a: int, k: int, c: int, G: int, h: nat) returns (z1: Snap)
    requires Progress(src, z0, z, a, k, c, G, h) && 0 <= a <= k < c
    ensures var r := Gather(z.V, z.I, k, k + 1, k + 1, c, h, Key(z.V, z.I, k, h));
            && k < r.b <= c && z1.I == r.S && Rearranged(z, z1, k, c)
            && |z1.V| == |z1.R| && k < |z1.I| && Progress(src, z0, Peeled(z1, k, r.b), a, r.b, c, G, h)
  {
    hide Gather, Shuffled, KeysExist;
    WorkKeysExist(src, z, k, c, G, h);
    ShuffleNone(z.I, k, c);
    GatherCorrect(z.V, z.I, z.I, k, k + 1, k + 1, c, h, Key(z.V, z.I, k, h));
    var r := Gather(z.V, z.I, k, k + 1, k + 1, c, h, Key(z.V, z.I, k, h));
    z1 := Rearrange(src, z, r.S, k, c, G, h);
    KeysOfI(z1, k, c, k, r.b, h, r.x);
    KeysOfI(z1, k, c, r.b, c, h, r.x);
    ProgressPeel(src, z0, z, z1, a, k, r.b, c, G, h, r.x);
  }

  /** The counts of the keys say where the three parts go; the pivot makes the middle one non-empty. */
  lemma LongStart(src: bytes, z: Snap, a: int, c: int, G: int, h: nat, e: int, x: int)
    requires Work(src, z, a, c, G, h) && a <= e < c && x == Key(z.V, z.I, e, h)
    ensures 0 <= a <= c <= |z.I|
    ensures var jj := a + Count(z.I[a..c], LtKey(z.V, h, x));
            var kk := jj + Count(z.I[a..c], EqKey(z.V, h, x));
            jj < kk && Parting(z.V, z.I, z.I, a, jj, kk, c, a, 0, 0, h, x)
  {
    hide Work, Key, Shuffled, Count, KeysExist, LtKey, EqKey, GtKey;
    WorkKeysExist(src, z, a, c, G, h);
    CountTotal(z.V, h, x, z.I[a..c]);
    CountEqKeys(z.V, z.I, a, c, a, a, e, h, x);
    ShuffleNone(z.I, a, c);
  }

  /** After the partition the three parts are in the order of their suffixes. */
  lemma LongParts(src: bytes, z: Snap, I': seq<int>, a: int, jj: int, kk: int, c: int, k: int, G: int, h: nat, x: int)
    returns (z1: Snap)
    requires Work(src, z, a, c, G, h) && Parting(z.V, z.I, I', a, jj, kk, c, jj, kk - jj, k, h, x) && jj < kk
    ensures z1.I == I' && z1.V == z.V && Work(src, z1, a, c, G, h) && Local(z, z1, a, c)
    ensures BlockFirst(src, z1.P, a, jj, c) && BlockFirst(src, z1.P, jj, kk, c) && BlockSame(src, z1.P, jj, kk, 2 * h)
  {
    PartDone(z.V, I', a, jj, kk, c, k, h, x);
    z1 := Rearrange(src, z, I', a, c, G, h);
    WorkRearranged(src, z, z1, a, c, G, h);
    KeysOfI(z1, a, c, a, jj, h, x);
    KeysOfI(z1, a, c, jj, kk, h, x);
    KeysOfI(z1, a, c, kk, c, h, x);
    assert 0 <= a <= jj < kk <= c;
    hide Work, Local, Key, Rearranged, Parting, BlockFirst, BlockSame;
    KeysOrderBlocks(src, z1, a, jj, c, G, h);
    KeysMatchBlock(src, z1, a, jj, kk, c, G, h, x);
    BlocksTail(src, z1, a, jj, kk, c, G, h, x);
  }

  lemma BlocksTail(src: bytes, z: Snap, a: int, b: int, d: int, c: int, G: int, h: nat, x: int)
    requires Work(src, z, a, c, G, h) && a <= b <= d <= c
    requires KeysEq(z.V, z.P, b, d, h, x) && KeysGt(z.V, z.P, d, c, h, x)
    ensures BlockFirst(src, z.P, b, d, c)
  {
    assert 0 <= a && c <= |z.P|;
    hide Work, Key, Before;
    forall t, u | b <= t < d <= u < c
      ensures Before(src, z.P[t], z.P[u])
    {
      KeysDecideAt(src, z, a, c, G, h, t, u);
    }
  }

  /** With the part below x split, the middle part gets its number. */
  lemma LongMiddle(src: bytes, z1: Snap, z2: Snap, a: int, jj: int, kk: int, c: int, G: int, h: nat)
    requires Work(src, z1, a, c, G, h) && 0 <= a <= jj < kk <= c && HasSplit(src, z1, z2, a, jj, h)
    requires BlockFirst(src, z1.P, jj, kk, c) && BlockSame(src, z1.P, jj, kk, 2 * h)
    ensures |z2.I| == |z2.V| == |z2.P| == |z2.R| && kk <= |z2.I| && Inverse(z2.P, z2.R)
    ensures forall t :: jj <= t < kk ==> z2.I[t] == z2.P[t]
    ensures HasSplit(src, z1, Peeled(z2, jj, kk), a, kk, h) && Work(src, Peeled(z2, jj, kk), kk, c, G, h)
  {
    WorkRest(src, z1, z2, a, jj, c, G, h);
    BlocksKept(src, z1, z2, a, jj, kk, c, h);
    PeelSplits(src, z2, jj, kk, c, G, h);
    WorkRest(src, z2, Peeled(z2, jj, kk), jj, kk, c, G, h);
    SplitJoin(src, z1, z2, Peeled(z2, jj, kk), a, jj, kk, h);
    assert c <= |z2.I|;
    hide HasSplit, Peeled, BlockFirst, BlockSame, Ordered;
  }

  lemma BlocksKept(src: bytes, z1: Snap, z2: Snap, a: int, jj: int, kk: int, c: int, h: nat)
    requires HasSplit(src, z1, z2, a, jj, h) && 0 <= a <= jj
    requires BlockFirst(src, z1.P, jj, kk, c) && BlockSame(src, z1.P, jj, kk, 2 * h)
    ensures BlockFirst(src, z2.P, jj, kk, c) && BlockSame(src, z2.P, jj, kk, 2 * h)
  {
    RestFacts(src, z1, z2, a, jj, h);
    hide HasSplit, Before, SameTo;
  }

  lemma SplitNothing(src: bytes, z: Snap, a: int, b: int, c: int, G: int, h: nat)
    requires Work(src, z, a, c, G, h) && a <= b <= c
    ensures HasSplit(src, z, z, b, b, h)
  {
  }

  // ----- the program -----

  /** All entries of [a, b) get the group number b - 1. */
  method SetGroup(I: array<int>, V: array<int>, a: nat, b: nat, ghost P: seq<int>, ghost R: seq<int>)
    requires I != V && I.Length == V.Length == |P| && a <= b <= V.Length
    requires Inverse(P, R) && forall t :: a <= t < b ==> I[t] == P[t]
    modifies V
    ensures V[..] == SetBlock(old(V[..]), R, a, b)
  {
    var i := 0;
    while i < b - a
      invariant 0 <= i <= b - a
      invariant forall q :: 0 <= q < V.Length ==> V[q] == if a <= R[q] < a + i then b - 1 else old(V[q])
    {
      V[I[a + i]] := b - 1;
      i := i + 1;
    }
  }

  /** Two entries change places. */
  method Exchange(I: array<int>, i: int, j: int)
    requires 0 <= i < I.Length && 0 <= j < I.Length
    modifies I
    ensures I[..] == Swapped(old(I[..]), i, j)
  {
    var tmp := I[i];
    I[i] := I[j];
    I[j] := tmp;
  }

  /** One round of the short-group loop: bring the entries of [k, end) with the
      smallest key to the front and count them. */
  method GatherMin(I: array<int>, V: array<int>, k: nat, end: nat, h: nat)
    returns (j: int, x: int)
    requires I != V && k < end <= I.Length && KeysExist(V[..], I[..], k, end, h)
    modifies I
    ensures Round(I[..], k + j, x) == Gather(old(V[..]), old(I[..]), k, k + 1, k + 1, end, h, V[old(I[k]) + h])
  {
    hide Swapped, Gather, KeysExist, Key;
    ghost var S, W := I[..], V[..];
    ExistsAt(W, S, k, end, h, k);
    j := 1;
    x := V[I[k] + h];
    var i := 1;
    ghost var goal := Gather(W, S, k, k + 1, k + 1, end, h, x);
    while k + i < end
      invariant k <= k + j <= k + i <= end
      invariant I[..] == S && KeysExist(W, S, k, end, h)
      invariant Gather(W, S, k, k + j, k + i, end, h, x) == goal
    {
      ExistsAt(W, S, k, end, h, k + i);
      SwapExists(W, S, k, end, h, k, k + i);
      SwapExists(W, S, k, end, h, k + j, k + i);
      GatherUnfold(W, S, k, k + j, k + i, end, h, x);
      assert I[k + i] == S[k + i];
      ghost var n := GatherNext(W, S, k, k + j, k + i, h, x);
      if V[I[k + i] + h] < x {
        x := V[I[k + i] + h];
        j := 0;
      }
      if V[I[k + i] + h] == x {
        Exchange(I, k + j, k + i);
        j := j + 1;
      }
      i := i + 1;
      S := n.S;
    }
    GatherEnd(W, S, k, k + j, end, h, x);
  }

  /** A finished block gets its number; a block of one entry is marked as sorted. */
  method NumberBlock(I: array<int>, V: array<int>, a: nat, b: nat, ghost z: Snap) returns (ghost z': Snap)
    requires I != V && I[..] == z.I && V[..] == z.V && |z.I| == |z.V| == |z.P| && a < b <= |z.I|
    requires Inverse(z.P, z.R) && forall t :: a <= t < b ==> z.I[t] == z.P[t]
    modifies I, V
    ensures z' == Peeled(z, a, b) && I[..] == z'.I && V[..] == z'.V
  {
    SetGroup(I, V, a, b, z.P, z.R);
    if b - a == 1 { I[a] := -1; }
    z' := Peeled(z, a, b);
  }

  /** The short-group case of `split`. */
  method SplitShort(I: array<int>, V: array<int>, start: nat, end: nat, h: nat,
                    ghost src: bytes, ghost z0: Snap, ghost G: int)
    returns (ghost z: Snap)
    requires I != V && z0.I == I[..] && z0.V == V[..] && start <= end && Work(src, z0, start, end, G, h)
    modifies I, V
    ensures z.I == I[..] && z.V == V[..] && HasSplit(src, z0, z, start, end, h)
  {
    hide Work, HasSplit, Progress, Gather, KeysExist, Rearranged, Peeled, Inverse;
    z := z0;
    var k := start;
    ProgressStart(src, z0, start, end, G, h);
    while k < end
      invariant start <= k <= end && z.I == I[..] && z.V == V[..]
      invariant Progress(src, z0, z, start, k, end, G, h)
    {
      ProgressShape(src, z0, z, start, k, end, G, h);
      ghost var z1 := AfterRound(src, z0, z, start, k, end, G, h);
      RearrangedShape(z, z1, k, end);
      var j, x := GatherMin(I, V, k, end, h);
      z := NumberBlock(I, V, k, k + j, z1);
      k := k + j;
    }
    ProgressDone(src, z0, z, start, end, G, h);
  }

  lemma RearrangedShape(z: Snap, z1: Snap, a: int, c: int)
    requires Rearranged(z, z1, a, c)
    ensures Inverse(z1.P, z1.R) && |z1.I| == |z1.V| == |z1.P| == |z1.R| && c <= |z1.I| && z1.V == z.V
    ensures forall t :: a <= t < c ==> z1.I[t] == z1.P[t]
  {
  }

  lemma ProgressShape(src: bytes, z0: Snap, z: Snap, a: int, k: int, c: int, G: int, h: nat)
    requires Progress(src, z0, z, a, k, c, G, h)
    ensures KeysExist(z.V, z.I, k, c, h) && 0 <= k <= c <= |z.I| == |z.V| == |z.P| == |z.R|
    ensures k < c ==> 0 <= z.I[k] && z.I[k] + h < |z.V| && Key(z.V, z.I, k, h) == z.V[z.I[k] + h]
  {
  }

  lemma ProgressStart(src: bytes, z: Snap, a: int, c: int, G: int, h: nat)
    requires Work(src, z, a, c, G, h)
    ensures Progress(src, z, z, a, a, c, G, h)
  {
  }

  /** The first loop of the long-group case: how many keys are below and equal to x. */
  method CountKeys(I: array<int>, V: array<int>, start: nat, end: nat, h: nat, x: int) returns (lt: nat, eq: nat)
    requires start <= end <= I.Length && KeysExist(V[..], I[..], start, end, h)
    ensures lt == Count(I[..][start..end], LtKey(V[..], h, x)) && eq == Count(I[..][start..end], EqKey(V[..], h, x))
  {
    lt, eq := 0, 0;
    var i := start;
    while i < end
      invariant start <= i <= end
      invariant lt == Count(I[start..i], LtKey(V[..], h, x)) && eq == Count(I[start..i], EqKey(V[..], h, x))
    {
      assert I[..][i] == I[i];
      assert I[start..i + 1][..i - start] == I[start..i];
      assert Key(V[..], [I[i]], 0, h) == V[I[i] + h];
      if V[I[i] + h] < x { lt := lt + 1; }
      if V[I[i] + h] == x { eq := eq + 1; }
      i := i + 1;
    }
    assert I[start..end] == I[..][start..end];
  }

  /** The two partition loops of the long-group case. */
  method PartitionBy(I: array<int>, V: array<int>, start: int, jj: int, kk: int, end: int, h: nat, x: int)
    returns (ghost k': int)
    requires I != V && Parting(V[..], I[..], I[..], start, jj, kk, end, start, 0, 0, h, x)
    modifies I
    ensures Parting(old(V[..]), old(I[..]), I[..], start, jj, kk, end, jj, kk - jj, k', h, x)
  {
    hide Parting, Swapped, Key;
    ghost var S0, S, W := I[..], I[..], V[..];
    var i, j, k := start, 0, 0;
    PartingBounds(W, S0, S, start, jj, kk, end, i, j, k, h, x);
    while i < jj
      invariant 0 <= start <= i <= jj <= jj + j <= kk <= kk + k <= end <= I.Length
      invariant I[..] == S && Parting(W, S0, S, start, jj, kk, end, i, j, k, h, x)
      decreases jj - i + kk - j + end - k
    {
      PartingBounds(W, S0, S, start, jj, kk, end, i, j, k, h, x);
      assert I[i] == S[i];
      if V[I[i] + h] < x {
        PartingBelow(W, S0, S, start, jj, kk, end, i, j, k, h, x);
        i := i + 1;
      } else if V[I[i] + h] == x {
        PartingEqual(W, S0, S, start, jj, kk, end, i, j, k, h, x);
        Exchange(I, i, jj + j);
        S := Swapped(S, i, jj + j);
        j := j + 1;
      } else {
        PartingAbove(W, S0, S, start, jj, kk, end, i, j, k, h, x, i);
        Exchange(I, i, kk + k);
        S := Swapped(S, i, kk + k);
        k := k + 1;
      }
    }
    while jj + j < kk
      invariant 0 <= start <= jj <= jj + j <= kk <= kk + k <= end <= I.Length
      invariant I[..] == S && Parting(W, S0, S, start, jj, kk, end, jj, j, k, h, x)
      decreases kk - j + end - k
    {
      PartingBounds(W, S0, S, start, jj, kk, end, jj, j, k, h, x);
      PartingMiddle(W, S0, S, start, jj, kk, end, j, k, h, x);
      assert I[jj + j] == S[jj + j];
      if V[I[jj + j] + h] == x {
        j := j + 1;
      } else {
        PartingAbove(W, S0, S, start, jj, kk, end, jj, j, k, h, x, jj + j);
        Exchange(I, jj + j, kk + k);
        S := Swapped(S, jj + j, kk + k);
        k := k + 1;
      }
    }
    k' := k;
  }

  /** The long-group case up to the recursive calls: jj and kk delimit the part with the pivot's key. */
  method Partition(I: array<int>, V: array<int>, start: nat, len: nat, h: nat,
                   ghost src: bytes, ghost z0: Snap, ghost G: int)
    returns (jj: int, kk: int, ghost z1: Snap)
    requires I != V && z0.I == I[..] && z0.V == V[..] && 0 < len && Work(src, z0, start, start + len, G, h)
    modifies I
    ensures start <= jj < kk <= start + len && z1.I == I[..] && z1.V == old(V[..])
    ensures Work(src, z1, start, start + len, G, h) && Local(z0, z1, start, start + len)
    ensures BlockFirst(src, z1.P, start, jj, start + len) && BlockFirst(src, z1.P, jj, kk, start + len)
    ensures BlockSame(src, z1.P, jj, kk, 2 * h)
  {
    hide Work, Parting, BlockFirst, BlockSame, Local, KeysExist, Count, LtKey, EqKey, Key;
    WorkKeysExist(src, z0, start, start + len, G, h);
    WorkKey(src, z0, start, start + len, G, h, start + len / 2);
    var x := V[I[start + len / 2] + h];
    LongStart(src, z0, start, start + len, G, h, start + len / 2, x);
    var lt, eq := CountKeys(I, V, start, start + len, h, x);
    jj := start + lt;
    kk := jj + eq;
    PartingBounds(z0.V, z0.I, z0.I, start, jj, kk, start + len, start, 0, 0, h, x);
    ghost var k := PartitionBy(I, V, start, jj, kk, start + len, h, x);
    z1 := LongParts(src, z0, I[..], start, jj, kk, start + len, k, G, h, x);
  }

  lemma WorkKey(src: bytes, z: Snap, a: int, c: int, G: int, h: nat, e: int)
    requires Work(src, z, a, c, G, h) && a <= e < c
    ensures 0 <= e < |z.I| && 0 <= z.I[e] && z.I[e] + h < |z.V| && Key(z.V, z.I, e, h) == z.V[z.I[e] + h]
  {
  }

  /** `split(I,V,start,len,h)`. */
  method Split(I: array<int>, V: array<int>, start: nat, len: nat, h: nat,
               ghost src: bytes, ghost z0: Snap, ghost G: int)
    returns (ghost z: Snap)
    requires I != V && z0.I == I[..] && z0.V == V[..] && Work(src, z0, start, start + len, G, h)
    modifies I, V
    ensures z.I == I[..] && z.V == V[..] && HasSplit(src, z0, z, start, start + len, h)
    decreases len
  {
    hide Work, HasSplit, BlockFirst, BlockSame, Local, Peeled, Inverse;
    if len < 16 {
      z := SplitShort(I, V, start, start + len, h, src, z0, G);
      return;
    }
    ghost var c := start + len;
    var jj, kk, z1 := Partition(I, V, start, len, h, src, z0, G);
    z := z1;
    SplitNothing(src, z1, start, start, c, G, h);
    if jj > start {
      WorkFirst(src, z1, start, jj, c, G, h);
      z := Split(I, V, start, jj - start, h, src, z1, G);
    }
    LongMiddle(src, z1, z, start, jj, kk, c, G, h);
    ghost var z3 := NumberBlock(I, V, jj, kk, z);
    z := z3;
    SplitNothing(src, z3, kk, kk, c, G, h);
    if start + len > kk {
      z := Split(I, V, kk, start + len - kk, h, src, z3, G);
    }
    SplitJoin(src, z1, z3, z, start, kk, c, h);
    SplitAfterRearrange(src, z0, z1, z, start, c, h);
  }
}
