/** `applypatch` with a partition as source and target (applypatch/applypatch.c).  Here the promise made for files
    fails: a run that has to fall back to the backup destroys it before using it. */
module PartitionPatch {
  import opened Suffixes
  import opened BsPatch
  import opened ImgChunks
  import opened Digests
  import opened ApplyPatch
  import opened ApplyRuns
  import opened Partitions

  /** What may go wrong while the backup is written. */
  datatype SaveFault = NoFault | OpenFails | WriteStops(after: nat) | ChmodFails | ChownFails

  /** The partition and the backup file CACHE_TEMP_SOURCE. */
  class Storage {
    var part: bytes
    var cache: Option<bytes>

    constructor (part: bytes, cache: Option<bytes>)
      ensures this.part == part && this.cache == cache
    {
      this.part, this.cache := part, cache;
    }

    ghost predicate Recoverable<S(!new)>(env: Env, job: Job, h: Hasher<S>, pairs: seq<Pair>, index: seq<nat>,
                                         stale: nat)
      reads this
    {
      HasOne(env, job, PartitionLoad(h, part, pairs, index, stale), cache)
    }

    /** `SaveFileContents`: the backup is truncated first.  Contents that have been freed cannot be written,
        unless there is nothing to write. */
    method SaveFileContents(file: FileContents, fault: SaveFault) returns (ok: bool)
      requires file.data.Some? ==> |file.data.value| == file.size
      modifies this`cache
      ensures ok <==> && (file.data.Some? || file.size == 0)
                      && (fault.NoFault? || (fault.WriteStops? && fault.after >= file.size))
      ensures fault.OpenFails? ==> cache == old(cache)
      ensures !fault.OpenFails? ==>
                cache == Some(if file.data.None? then []
                              else if fault.WriteStops? && fault.after < file.size then file.data.value[..fault.after]
                              else file.data.value)
    {
      if fault.OpenFails? { return false; }
      cache := Some([]);
      if file.size > 0 {
        if file.data.None? { return false; }
        if fault.WriteStops? && fault.after < file.size {
          cache := Some(file.data.value[..fault.after]);
          return false;
        }
        cache := file.data;
      }
      ok := !fault.ChmodFails? && !fault.ChownFails?;
    }

    /** A run in which no operating system call fails, except that the partition may be too small. */
    method Patch<S(!new)>(env: Env, job: Job, h: Hasher<S>, pairs: seq<Pair>, index: seq<nat>, stale: nat)
      returns (ok: bool)
      requires |job.hashes| == |job.blobs| && h.Chains() && pairs != [] && Sorted(pairs, index)
      modifies this
      ensures |part| == |old(part)|
      ensures !old(Recoverable(env, job, h, pairs, index, stale)) ==> !ok && part == old(part) && cache == old(cache)
      ensures old(Recoverable(env, job, h, pairs, index, stale)) && Good(env, job) && FitsIn(env, job, |part|) ==>
                var file := PartitionLoad(h, old(part), pairs, index, stale);
                (ok <==> InPlace(env, job, file) || file.size == 0) && (!ok ==> part == old(part) && cache == Some([]))
      ensures ok ==> Patched(env, job, PartitionLoad(h, old(part), pairs, index, stale), old(part), part)
    {
      hide Good, InPlace, HasOne, Accepted, IsTarget, Parsed, PatchIndex, Patched, Sorted, PartitionLoad, Usable,
           Shortest;
      var file := LoadPartitionContents(h, part, pairs, index, stale);
      var c := Choose(env, job, file);
      GoodTarget(env, job);
      if c.AlreadyDone? {
        PatchedAlready(env, job, file, part, cache);
        return true;
      }
      if c.NoSource? { return false; }
      ok := SaveFileContents(c.file, NoFault);
      if !ok { return; }
      var out := Generate(env, job, c.source, c.patch);
      if out.None? { return false; }
      if |out.value| > |part| {
        part := out.value[..|part|];
        return false;
      }
      part := out.value + part[|out.value|..];
      cache := None;
      PatchedNow(env, job, file, old(part), part, out.value);
    }

    /** Which source and which patch to use.  If the partition has neither, its contents are freed and the backup
        is tried. */
    method Choose(env: Env, job: Job, file: FileContents) returns (c: Choice)
      ensures c.AlreadyDone? <==> file.data.Some? && IsTarget(env, job, file.data.value)
      ensures c.NoSource? ==> Parsed(job.target).None? || !HasOne(env, job, file, cache)
      ensures c.Use? ==> HasOne(env, job, file, cache)
      ensures c.Use? ==> PatchIndex(env, job, c.source) == Some(c.patch) && c.file.size == file.size
      ensures c.Use? ==> if InPlace(env, job, file) then c.file == file && file.data == Some(c.source)
                         else c.file.data.None? && cache == Some(c.source)
      ensures c.AlreadyDone? ==> InPlace(env, job, file)
    {
      hide Parsed, FirstMatch;
      var target := ParseSha1(job.target);
      if target.None? { return NoSource; }
      var use: Option<nat> := None;
      if file.data.Some? {
        if env.sha(file.data.value) == target.value { return AlreadyDone; }
        use := FindMatchingPatch(env.sha(file.data.value), job.hashes);
        if use.Some? { return Use(file.data.value, use.value, file); }
      }
      if cache.None? { return NoSource; }
      use := FindMatchingPatch(env.sha(cache.value), job.hashes);
      if use.None? { return NoSource; }
      return Use(cache.value, use.value, file.(data := None));
    }
  }

  datatype Choice = AlreadyDone | NoSource | Use(source: bytes, patch: nat, file: FileContents)

  lemma PatchedAlready(env: Env, job: Job, file: FileContents, part: bytes, cache: Option<bytes>)
    requires file.data.Some? && IsTarget(env, job, file.data.value)
    ensures Patched(env, job, file, part, part) && HasOne(env, job, file, cache)
  {
  }

  lemma PatchedNow(env: Env, job: Job, file: FileContents, before: bytes, after: bytes, out: bytes)
    requires out <= after && IsTarget(env, job, out)
    ensures Patched(env, job, file, before, after)
  {
  }

  lemma GoodTarget(env: Env, job: Job)
    ensures Good(env, job) ==> Parsed(job.target).Some?
  {
  }

  /** The output of the patch, if it has the target hash. */
  method Generate(env: Env, job: Job, source: bytes, patch: nat) returns (out: Option<bytes>)
    requires |job.hashes| == |job.blobs| && PatchIndex(env, job, source) == Some(patch)
    ensures out.Some? ==> IsTarget(env, job, out.value)
    ensures Good(env, job) ==> out.Some?
    ensures out.Some? ==> forall n :: FitsIn(env, job, n) ==> |out.value| <= n
  {
    hide Parsed;
    assert Accepted(env, job, source);
    var blob := job.blobs[patch];
    var r: Outcome<bytes> := Failed;
    if IsBsDiff(blob) {
      r := env.bsdiff(source, blob);
    } else if IsImgDiff(blob) {
      r := env.imgdiff(source, blob);
    }
    assert r == Produce(env, job, source);
    var target := ParseSha1(job.target);
    if !r.Done? || Some(env.sha(r.value)) != target { return None; }
    return Some(r.value);
  }

  /** What the patches make of the accepted sources is no longer than the partition. */
  ghost predicate FitsIn(env: Env, job: Job, n: nat) {
    forall c :: Accepted(env, job, c) && Produce(env, job, c).Done? ==> |Produce(env, job, c).value| <= n
  }

  /** The partition holds the target or an accepted source. */
  ghost predicate InPlace(env: Env, job: Job, file: FileContents) {
    file.data.Some? && Parsed(job.target).Some?
    && (IsTarget(env, job, file.data.value) || Accepted(env, job, file.data.value))
  }

  ghost predicate HasOne(env: Env, job: Job, file: FileContents, cache: Option<bytes>) {
    InPlace(env, job, file) || (cache.Some? && Accepted(env, job, cache.value))
  }

  /** The partition held the target and is unchanged, or now begins with the target. */
  ghost predicate Patched(env: Env, job: Job, file: FileContents, before: bytes, after: bytes) {
    || (file.data.Some? && IsTarget(env, job, file.data.value) && after == before)
    || exists out :: out <= after && IsTarget(env, job, out)
  }

  /** An update of a partition that is interrupted while the partition is written, so that it holds no listed
      prefix any more, cannot be completed: the next run fails and empties the backup it was to be completed from. */
  method InterruptedWrite<S(!new)>(env: Env, job: Job, h: Hasher<S>, pairs: seq<Pair>, index: seq<nat>, stale: nat,
                                   st: Storage, torn: bytes) returns (ok: bool)
    requires |job.hashes| == |job.blobs| && Good(env, job) && FitsIn(env, job, |torn|) && !Accepted(env, job, [])
    requires h.Chains() && pairs != [] && Sorted(pairs, index)
    requires PartitionLoad(h, st.part, pairs, index, stale).data.Some?
    requires Accepted(env, job, PartitionLoad(h, st.part, pairs, index, stale).data.value)
    requires |torn| == |st.part| && forall k :: 0 <= k < |pairs| ==> !Holds(h, torn, pairs[k])
    modifies st
    ensures !ok && st.part == torn && !st.Recoverable(env, job, h, pairs, index, stale)
  {
    hide Good, Accepted, FitsIn, Sorted, PartitionLoad, Shortest, Usable, Holds;
    var file := LoadPartitionContents(h, st.part, pairs, index, stale);
    ghost var k := LoadedHolds(h, st.part, pairs, index, stale);
    StaleSize(h, torn, pairs, index, k, stale);
    var saved := st.SaveFileContents(file, NoFault);
    st.part := torn;
    assert st.Recoverable(env, job, h, pairs, index, stale);
    ok := st.Patch(env, job, h, pairs, index, stale);
  }
}
