/** Reading partitions (applypatch/applypatch.c). */
module Partitions {
  import opened Suffixes
  import opened ImgChunks
  import opened Digests

  // ----- LoadPartitionContents -----

  /** A hash that is computed piece by piece. */
  datatype Hasher<!S(!new)> = Hasher(init: S, update: (S, bytes) -> S, final: S -> bytes) {
    ghost predicate Chains() {
      && (forall s: S :: update(s, []) == s)
      && (forall s: S, a: bytes, b: bytes :: update(update(s, a), b) == update(s, a + b))
    }

    function Digest(c: bytes): (d: bytes) {
      final(update(init, c))
    }
  }

  /** What loading leaves in the FileContents: the data, if a listed prefix was found, and the size field. */
  datatype FileContents = FileContents(data: Option<bytes>, size: nat)

  /** A pair of a size and a hash, as listed in the name of the partition. */
  datatype Pair = Pair(size: nat, sha1: string)

  /** The indices of all pairs, in order of increasing size: what `qsort` leaves in index[]. */
  ghost predicate Sorted(pairs: seq<Pair>, index: seq<nat>) {
    && |index| == |pairs|
    && (forall i :: 0 <= i < |index| ==> index[i] < |pairs|)
    && (forall k :: 0 <= k < |pairs| ==> k in index)
    && forall i, j :: 0 <= i < j < |index| && index[i] < |pairs| && index[j] < |pairs| ==>
         pairs[index[i]].size <= pairs[index[j]].size
  }

  ghost predicate HasZero(pairs: seq<Pair>) {
    exists k :: 0 <= k < |pairs| && pairs[k].size == 0
  }

  /** The partition starts with data of this size and hash. */
  ghost predicate Holds<S(!new)>(h: Hasher<S>, part: bytes, pair: Pair) {
    pair.size <= |part| && Parsed(pair.sha1) == Some(h.Digest(part[..pair.size]))
  }

  /** Pair k holds and the hash of no smaller pair fails to parse. */
  ghost predicate Usable<S(!new)>(h: Hasher<S>, part: bytes, pairs: seq<Pair>, k: int) {
    && 0 <= k < |pairs| && Holds(h, part, pairs[k])
    && forall i :: 0 <= i < |pairs| && pairs[i].size <= pairs[k].size ==> Parsed(pairs[i].sha1).Some?
  }

  /** data is the shortest listed prefix of the partition that has a hash listed for its size. */
  ghost predicate Shortest<S(!new)>(h: Hasher<S>, part: bytes, pairs: seq<Pair>, data: bytes) {
    && (exists k :: 0 <= k < |pairs| && Holds(h, part, pairs[k]) && data == part[..pairs[k].size])
    && forall k :: 0 <= k < |pairs| && Holds(h, part, pairs[k]) ==> |data| <= pairs[k].size
  }

  /** The pairs up to position i of the index have been read, parsed and do not hold. */
  ghost predicate Tried<S(!new)>(h: Hasher<S>, part: bytes, pairs: seq<Pair>, index: seq<nat>, i: int) {
    forall k :: 0 <= k < i && k < |index| && index[k] < |pairs| ==>
      Parsed(pairs[index[k]].sha1).Some? && pairs[index[k]].size <= |part| && !Holds(h, part, pairs[index[k]])
  }

  /** The position of the index, from i on, at which reading ends: the partition is too short, the hash does not
      parse, or it is the one of what has been read. */
  ghost function StopFrom<S(!new)>(h: Hasher<S>, part: bytes, pairs: seq<Pair>, index: seq<nat>, i: nat): (k: nat)
    ensures i <= k && (i <= |index| ==> k <= |index|)
    decreases |index| - i
  {
    if i >= |index| || index[i] >= |pairs| then i
    else if pairs[index[i]].size > |part| || Parsed(pairs[index[i]].sha1).None? then i
    else if Holds(h, part, pairs[index[i]]) then i
    else StopFrom(h, part, pairs, index, i + 1)
  }

  /** What a partition loads as.  The size field counts the bytes read, also if the data is given up; if a size in
      the list is zero, it is never written and holds what was there before. */
  ghost function PartitionLoad<S(!new)>(h: Hasher<S>, part: bytes, pairs: seq<Pair>, index: seq<nat>, stale: nat)
    : (f: FileContents)
    ensures f.data.Some? ==> |f.data.value| == f.size
  {
    if HasZero(pairs) then FileContents(None, stale)
    else PartitionLoadAt(h, part, pairs, index, StopFrom(h, part, pairs, index, 0))
  }

  ghost function PartitionLoadAt<S(!new)>(h: Hasher<S>, part: bytes, pairs: seq<Pair>, index: seq<nat>, i: nat)
    : (f: FileContents)
    ensures f.data.Some? ==> |f.data.value| == f.size
  {
    var before := if 0 < i <= |index| && index[i - 1] < |pairs| then pairs[index[i - 1]].size else 0;
    if i >= |index| || index[i] >= |pairs| || pairs[index[i]].size > |part| then FileContents(None, before)
    else if Holds(h, part, pairs[index[i]]) then
      FileContents(Some(part[..pairs[index[i]].size]), pairs[index[i]].size)
    else FileContents(None, pairs[index[i]].size)
  }

  /** A partition that is not too short, and holds no listed prefix, loads as nothing with a size that is not zero. */
  lemma {:induction false} StaleSize<S(!new)>(h: Hasher<S>, part: bytes, pairs: seq<Pair>, index: seq<nat>, k: int,
                                              stale: nat)
    requires Sorted(pairs, index) && !HasZero(pairs) && 0 <= k < |pairs| && pairs[k].size <= |part|
    requires forall i :: 0 <= i < |pairs| ==> !Holds(h, part, pairs[i])
    ensures PartitionLoad(h, part, pairs, index, stale).data.None?
    ensures PartitionLoad(h, part, pairs, index, stale).size > 0
  {
    hide Holds, Parsed, StopFrom;
    var m := PositionOf(pairs, index, k);
    assert pairs[index[0]].size <= pairs[index[m]].size;
    var i := StopFrom(h, part, pairs, index, 0);
    assert i > 0 ==> index[i - 1] < |pairs|;
  }

  /** A partition that loads has one of the listed prefixes, and no size is zero. */
  lemma LoadedHolds<S(!new)>(h: Hasher<S>, part: bytes, pairs: seq<Pair>, index: seq<nat>, stale: nat) returns (k: int)
    requires PartitionLoad(h, part, pairs, index, stale).data.Some?
    ensures !HasZero(pairs) && 0 <= k < |pairs| && pairs[k].size <= |part|
  {
    k := index[StopFrom(h, part, pairs, index, 0)];
  }

  /** A zero among the sizes is refused. */
  method CheckSizes(pairs: seq<Pair>) returns (ok: bool)
    ensures ok <==> forall k :: 0 <= k < |pairs| ==> pairs[k].size != 0
  {
    var i := 0;
    while i < |pairs|
      invariant 0 <= i <= |pairs| && forall k :: 0 <= k < i ==> pairs[k].size != 0
    {
      if pairs[i].size == 0 { return false; }
      i := i + 1;
    }
    return true;
  }

  lemma PositionOf(pairs: seq<Pair>, index: seq<nat>, k: int) returns (m: int)
    requires Sorted(pairs, index) && 0 <= k < |pairs|
    ensures 0 <= m < |index| && index[m] == k
  {
    var n: nat := k;
    assert n in index;
    m :| 0 <= m < |index| && index[m] == n;
  }

  lemma HitIsShortest<S(!new)>(h: Hasher<S>, part: bytes, pairs: seq<Pair>, index: seq<nat>, i: int)
    requires Sorted(pairs, index) && 0 <= i < |index| && Tried(h, part, pairs, index, i)
    requires Holds(h, part, pairs[index[i]])
    ensures Shortest(h, part, pairs, part[..pairs[index[i]].size])
  {
    hide Holds, Parsed;
    assert pairs[index[i]].size <= |part| by { HoldsSize(h, part, pairs[index[i]]); }
    forall k | 0 <= k < |pairs| && Holds(h, part, pairs[k])
      ensures pairs[index[i]].size <= pairs[k].size
    {
      var m := PositionOf(pairs, index, k);
      assert m >= i;
    }
  }

  lemma HoldsSize<S(!new)>(h: Hasher<S>, part: bytes, pair: Pair)
    requires Holds(h, part, pair)
    ensures pair.size <= |part| && Parsed(pair.sha1).Some?
  {
  }

  /** If the reading stops at position i without a hit, no pair is usable. */
  lemma MissIsFinal<S(!new)>(h: Hasher<S>, part: bytes, pairs: seq<Pair>, index: seq<nat>, i: int, k: int)
    requires Sorted(pairs, index) && 0 <= i <= |index| && Tried(h, part, pairs, index, i)
    requires i < |index| ==> pairs[index[i]].size > |part| || Parsed(pairs[index[i]].sha1).None?
    ensures !Usable(h, part, pairs, k)
  {
    hide Holds, Parsed;
    if Usable(h, part, pairs, k) {
      HoldsSize(h, part, pairs[k]);
      var m := PositionOf(pairs, index, k);
    }
  }

  /** Reads on to the next size; a short read fails. */
  method ReadUpTo<S(!new)>(h: Hasher<S>, part: bytes, ctx: S, data: bytes, size: nat)
    returns (ok: bool, ctx': S, data': bytes)
    requires h.Chains() && data <= part && |data| <= size && ctx == h.update(h.init, data)
    ensures ok <==> size <= |part|
    ensures data' == (if ok then part[..size] else data) && ctx' == h.update(h.init, data')
  {
    ok, ctx', data' := true, ctx, data;
    if size > |data| {
      if size > |part| { return false, ctx, data; }
      ctx' := h.update(ctx, part[|data|..size]);
      data' := data + part[|data|..size];
      assert data' == part[..size];
    }
  }

  /** The next pair parses, but its hash is another one. */
  lemma TriedMore<S(!new)>(h: Hasher<S>, part: bytes, pairs: seq<Pair>, index: seq<nat>, i: int, d: bytes)
    requires Tried(h, part, pairs, index, i) && 0 <= i < |index| && index[i] < |pairs|
    requires pairs[index[i]].size <= |part| && Parsed(pairs[index[i]].sha1) == Some(d)
    requires d != h.Digest(part[..pairs[index[i]].size])
    ensures Tried(h, part, pairs, index, i + 1)
  {
  }

  lemma NoneUsable<S(!new)>(h: Hasher<S>, part: bytes, pairs: seq<Pair>, index: seq<nat>, i: int)
    requires Sorted(pairs, index) && 0 <= i <= |index| && Tried(h, part, pairs, index, i)
    requires i < |index| ==> pairs[index[i]].size > |part| || Parsed(pairs[index[i]].sha1).None?
    ensures forall k :: !Usable(h, part, pairs, k)
  {
    hide Sorted, Tried, Usable, Parsed;
    forall k ensures !Usable(h, part, pairs, k) { MissIsFinal(h, part, pairs, index, i, k); }
  }

  lemma IndexAt(pairs: seq<Pair>, index: seq<nat>, i: int)
    requires Sorted(pairs, index) && 0 <= i < |index|
    ensures |index| == |pairs| && index[i] < |pairs|
    ensures i > 0 ==> index[i - 1] < |pairs| && pairs[index[i - 1]].size <= pairs[index[i]].size
  {
  }

  lemma LoadsNothing<S(!new)>(h: Hasher<S>, part: bytes, pairs: seq<Pair>, index: seq<nat>, stale: nat)
    requires HasZero(pairs)
    ensures PartitionLoad(h, part, pairs, index, stale) == FileContents(None, stale)
  {
  }

  /** Reading ends at position i, having got as far as the size before it, or the size at i if the partition has it. */
  lemma StopsAt<S(!new)>(h: Hasher<S>, part: bytes, pairs: seq<Pair>, index: seq<nat>, i: nat, stale: nat)
    requires !HasZero(pairs) && i <= |index| == |pairs|
    requires StopFrom(h, part, pairs, index, 0) == StopFrom(h, part, pairs, index, i)
    requires i < |index| ==>
               && index[i] < |pairs|
               && (|| pairs[index[i]].size > |part| || Parsed(pairs[index[i]].sha1).None?
                   || Holds(h, part, pairs[index[i]]))
    requires i > 0 ==> index[i - 1] < |pairs|
    ensures var f := PartitionLoad(h, part, pairs, index, stale);
            if i == |index| || pairs[index[i]].size > |part| then
              f == FileContents(None, if i == 0 then 0 else pairs[index[i - 1]].size)
            else if Parsed(pairs[index[i]].sha1).None? then f == FileContents(None, pairs[index[i]].size)
            else f == FileContents(Some(part[..pairs[index[i]].size]), pairs[index[i]].size)
  {
    hide Parsed;
  }

  lemma StopsLater<S(!new)>(h: Hasher<S>, part: bytes, pairs: seq<Pair>, index: seq<nat>, i: nat)
    requires i < |index| && index[i] < |pairs| && pairs[index[i]].size <= |part|
    requires Parsed(pairs[index[i]].sha1).Some? && !Holds(h, part, pairs[index[i]])
    ensures StopFrom(h, part, pairs, index, i) == StopFrom(h, part, pairs, index, i + 1)
  {
    hide Parsed, Holds;
  }

  lemma HashNone<S(!new)>(h: Hasher<S>)
    requires h.Chains()
    ensures h.update(h.init, []) == h.init
  {
  }

  /** `LoadPartitionContents` */
  method LoadPartitionContents<S(!new)>(h: Hasher<S>, part: bytes, pairs: seq<Pair>, index: seq<nat>, stale: nat)
    returns (f: FileContents)
    requires h.Chains() && pairs != [] && Sorted(pairs, index)
    ensures f == PartitionLoad(h, part, pairs, index, stale)
    ensures f.data.Some? ==> Shortest(h, part, pairs, f.data.value)
    ensures HasZero(pairs) ==> f.data.None?
    ensures f.data.None? ==> HasZero(pairs) || forall k :: !Usable(h, part, pairs, k)
  {
    hide Parsed, Usable, Tried, Holds, Sorted, Shortest, StopFrom, PartitionLoad, PartitionLoadAt, Hasher.Chains;
    var good := CheckSizes(pairs);
    if !good {
      LoadsNothing(h, part, pairs, index, stale);
      return FileContents(None, stale);
    }
    var data: bytes, ctx, i := [], h.init, 0;
    HashNone(h);
    TriedNone(h, part, pairs, index);
    while i < |pairs|
      invariant 0 <= i <= |pairs| == |index| && data <= part && ctx == h.update(h.init, data)
      invariant if i == 0 then data == [] else index[i - 1] < |pairs| && |data| == pairs[index[i - 1]].size
      invariant Tried(h, part, pairs, index, i)
      invariant StopFrom(h, part, pairs, index, 0) == StopFrom(h, part, pairs, index, i)
    {
      IndexAt(pairs, index, i);
      var pair := pairs[index[i]];
      var ok;
      ok, ctx, data := ReadUpTo(h, part, ctx, data, pair.size);
      if !ok {
        NoneUsable(h, part, pairs, index, i);
        StopsAt(h, part, pairs, index, i, stale);
        return FileContents(None, |data|);
      }
      var parsed := ParseSha1(pair.sha1);
      if parsed.None? {
        NoneUsable(h, part, pairs, index, i);
        StopsAt(h, part, pairs, index, i, stale);
        return FileContents(None, |data|);
      }
      if h.final(ctx) == parsed.value {
        assert Holds(h, part, pair) by { IsHeld(h, part, pair); }
        HitIsShortest(h, part, pairs, index, i);
        StopsAt(h, part, pairs, index, i, stale);
        return FileContents(Some(data), |data|);
      }
      assert !Holds(h, part, pair) by { IsNotHeld(h, part, pair, parsed.value); }
      TriedMore(h, part, pairs, index, i, parsed.value);
      StopsLater(h, part, pairs, index, i);
      i := i + 1;
    }
    NoneUsable(h, part, pairs, index, i);
    StopsAt(h, part, pairs, index, i, stale);
    return FileContents(None, |data|);
  }

  lemma IsHeld<S(!new)>(h: Hasher<S>, part: bytes, pair: Pair)
    requires pair.size <= |part| && Parsed(pair.sha1) == Some(h.Digest(part[..pair.size]))
    ensures Holds(h, part, pair)
  {
  }

  lemma IsNotHeld<S(!new)>(h: Hasher<S>, part: bytes, pair: Pair, d: bytes)
    requires pair.size <= |part| && Parsed(pair.sha1) == Some(d) && d != h.Digest(part[..pair.size])
    ensures !Holds(h, part, pair)
  {
  }

  lemma TriedNone<S(!new)>(h: Hasher<S>, part: bytes, pairs: seq<Pair>, index: seq<nat>)
    requires Sorted(pairs, index)
    ensures Tried(h, part, pairs, index, 0) && |index| == |pairs|
    ensures pairs != [] ==> index[0] < |pairs|
  {
  }
}
