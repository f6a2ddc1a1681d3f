/** Whole runs of `applypatch` scripts: an undisturbed run completes every update that can still be completed,
    and the condition on the jobs under which interruptions are harmless cannot be dropped. */
module ApplyRuns {
  import opened Suffixes
  import opened BsPatch
  import opened BsDiff
  import opened ImgChunks
  import opened ImgPatch
  import opened Digests
  import opened ApplyPatch

  // ----- paths -----

  /** A program step in which no operating system call fails and the patch, if it can be applied, is applied. */
  ghost predicate Clean(env: Env, jobs: seq<Job>, s: State, s': State) {
    && ProgramStep(env, jobs, s, s')
    && match s.pc
       case Enter(j) =>
         j < |jobs| && j < |s.disk.files| ==>
           s'.pc == Decide(env, jobs[j], j, s.disk.files[j], s.disk.files[j], s.disk.cache)
       case Writing(j, c, _, _, _) =>
         j < |jobs| && Produce(env, jobs[j], c).Done? ==> s'.pc.Made?
       case Try(_, _, _, _) => !s'.pc.Stopped?
       case Backup(_, _, _) => !s'.pc.Stopped?
       case Ready(_, _, _, _, _) => !s'.pc.Stopped?
       case _ => true
  }

  ghost predicate Step(env: Env, jobs: seq<Job>, clean: bool, s: State, s': State) {
    if clean then Clean(env, jobs, s, s') else Next(env, jobs, s, s')
  }

  ghost predicate StepAt(env: Env, jobs: seq<Job>, clean: bool, tr: seq<State>, i: nat)
    requires i + 1 < |tr|
  {
    Step(env, jobs, clean, tr[i], tr[i + 1])
  }

  ghost predicate Path(env: Env, jobs: seq<Job>, clean: bool, tr: seq<State>) {
    tr != [] && forall i :: 0 <= i < |tr| - 1 ==> StepAt(env, jobs, clean, tr, i)
  }

  ghost predicate Reaches(env: Env, jobs: seq<Job>, clean: bool, s: State, s': State) {
    exists tr :: Path(env, jobs, clean, tr) && tr[0] == s && tr[|tr| - 1] == s'
  }

  lemma ReachesSelf(env: Env, jobs: seq<Job>, clean: bool, s: State)
    ensures Reaches(env, jobs, clean, s, s)
  {
    hide Step;
    assert Path(env, jobs, clean, [s]) && [s][0] == s;
  }

  lemma ReachesStep(env: Env, jobs: seq<Job>, clean: bool, s: State, m: State, s': State)
    requires Step(env, jobs, clean, s, m) && Reaches(env, jobs, clean, m, s')
    ensures Reaches(env, jobs, clean, s, s')
  {
    hide Step;
    var tr :| Path(env, jobs, clean, tr) && tr[0] == m && tr[|tr| - 1] == s';
    var all := [s] + tr;
    forall i | 0 <= i < |all| - 1
      ensures StepAt(env, jobs, clean, all, i)
    {
      if i > 0 { assert StepAt(env, jobs, clean, tr, i - 1); }
    }
    assert Path(env, jobs, clean, all) && all[0] == s && all[|all| - 1] == s';
  }

  // ----- an undisturbed run completes -----

  /** Every source that is accepted comes with a patch that makes the target of it. */
  ghost predicate Good(env: Env, job: Job) {
    && Parsed(job.target).Some?
    && forall c :: Accepted(env, job, c) ==>
         Produce(env, job, c).Done? && IsTarget(env, job, Produce(env, job, c).value)
  }

  ghost predicate AllGood(env: Env, jobs: seq<Job>) {
    forall j :: 0 <= j < |jobs| ==> Good(env, jobs[j])
  }

  ghost predicate Running(pc: Pc) {
    !pc.Idle? && !pc.Stopped? && !pc.Lost?
  }

  /** Calls left, stage of the call, bytes left to back up. */
  ghost function Left(jobs: seq<Job>, s: State): (r: nat) {
    if Running(s.pc) && s.pc.job <= |jobs| then |jobs| - s.pc.job else 0
  }

  ghost function Stage(s: State): (r: nat) {
    match s.pc
    case Enter(_) => 7
    case Try(_, _, _, _) => 6
    case Backup(_, _, _) => 5
    case Saved(_, _) => 4
    case Writing(_, _, _, _, _) => 3
    case Made(_, _, _, _, _) => 2
    case Ready(_, _, _, _, _) => 1
    case _ => 0
  }

  ghost function BytesLeft(s: State): (r: nat) {
    if s.pc.Backup? && s.pc.written <= |s.pc.data| then |s.pc.data| - s.pc.written else 0
  }

  ghost predicate Lower(jobs: seq<Job>, s': State, s: State) {
    || Left(jobs, s') < Left(jobs, s)
    || (Left(jobs, s') == Left(jobs, s)
        && (Stage(s') < Stage(s) || (Stage(s') == Stage(s) && BytesLeft(s') < BytesLeft(s))))
  }

  /** The start of a call finds something to do whenever the disk is recoverable. */
  lemma DecideFinds(env: Env, jobs: seq<Job>, d: Disk, j: int)
    requires 0 <= j < |jobs| && WfDisk(jobs, d) && RecoverableFrom(env, jobs, d, j) && Good(env, jobs[j])
    ensures !Decide(env, jobs[j], j, d.files[j], d.files[j], d.cache).Stopped?
  {
    hide Accepted, IsTarget, Produce;
    var k :| j <= k && RecoverableAt(env, jobs, d, k);
    assert AtTarget(env, jobs, d, j) || HasSource(env, jobs, d, j) || HasCopy(env, jobs, d, j);
  }

  /** An undisturbed step never fails and brings the run closer to its end. */
  lemma CleanDescends(env: Env, jobs: seq<Job>, s: State, s': State)
    requires AllGood(env, jobs) && Inv(env, jobs, s) && Clean(env, jobs, s, s') && Running(s.pc)
    ensures Lower(jobs, s', s) && s'.pc != Stopped(false) && !s'.pc.Lost?
  {
    hide Accepted, IsTarget, Produce, RecoverableFrom, AllDone, RestFine, Decide;
    if s.pc.Enter? && s.pc.job < |jobs| {
      DecideFinds(env, jobs, s.disk, s.pc.job);
      DecideForward(env, jobs, s.disk, s.pc.job);
    }
  }

  lemma DecideForward(env: Env, jobs: seq<Job>, d: Disk, j: nat)
    requires j < |jobs| && WfDisk(jobs, d)
    ensures var pc := Decide(env, jobs[j], j, d.files[j], d.files[j], d.cache);
            pc.Stopped? || pc == Enter(j + 1) || (pc.Try? && pc.job == j)
  {
  }

  /** An undisturbed run that is not over can go on. */
  lemma CleanEnabled(env: Env, jobs: seq<Job>, s: State) returns (s': State)
    requires AllGood(env, jobs) && Inv(env, jobs, s) && Running(s.pc)
    ensures Clean(env, jobs, s, s')
  {
    hide Accepted, IsTarget, Produce, RecoverableFrom, AllDone, RestFine, Decide;
    var d := s.disk;
    match s.pc
    case Enter(j) =>
      s' := State(d, if j < |jobs| then Decide(env, jobs[j], j, d.files[j], d.files[j], d.cache) else Stopped(true));
      assert j < |jobs| ==> MayRead(d.files[j], d.files[j]) && MayRead(d.cache, d.cache);
    case Try(j, c, fromCopy, retry) =>
      s' := if fromCopy then State(d, Writing(j, c, true, 0, false)) else State(d.(cache := Some([])), Backup(j, c, 0));
    case Backup(j, c, k) =>
      s' := if k == |c| then State(d, Saved(j, c)) else State(d.(cache := Some(c[..|c|])), Backup(j, c, |c|));
    case Saved(j, c) => s' := State(d, Writing(j, c, false, 0, true));
    case Writing(j, c, fromCopy, retry, made) =>
      var out := Produce(env, jobs[j], c).value;
      s' := State(d.(temps := d.temps[j := Some(out)]), Made(j, c, fromCopy, made, out));
    case Made(j, c, fromCopy, made, out) =>
      s' := State(d, if IsTarget(env, jobs[j], out) then Ready(j, c, fromCopy, made, out) else Stopped(false));
    case Ready(j, c, fromCopy, made, out) =>
      s' := State(d.(files := d.files[j := d.temps[j]], temps := d.temps[j := None]), Renamed(j, made));
    case Renamed(j, made) => s' := State(d, Enter(j + 1));
  }

  lemma {:induction false} CleanEnds(env: Env, jobs: seq<Job>, s: State) returns (end: State)
    requires Distinct(jobs) && AllGood(env, jobs) && Inv(env, jobs, s) && Running(s.pc)
    ensures Reaches(env, jobs, true, s, end) && Inv(env, jobs, end) && end.pc == Stopped(true)
    decreases Left(jobs, s), Stage(s), BytesLeft(s)
  {
    hide Inv, Clean, Next, AllGood, Distinct, Left, Stage, BytesLeft, Reaches;
    var m := CleanEnabled(env, jobs, s);
    CleanDescends(env, jobs, s, m);
    CleanIsNext(env, jobs, s, m);
    StepKeeps(env, jobs, s, m);
    if m.pc.Stopped? {
      end := m;
      ReachesSelf(env, jobs, true, m);
    } else {
      end := CleanEnds(env, jobs, m);
    }
    ReachesStep(env, jobs, true, s, m, end);
  }

  lemma CleanIsNext(env: Env, jobs: seq<Job>, s: State, s': State)
    requires Clean(env, jobs, s, s')
    ensures Next(env, jobs, s, s') && !s'.pc.Idle?
  {
  }

  /** Every undisturbed run keeps the invariant and gets strictly closer to its end with each step, so it is
      finite; by `CleanEnabled` it can only end in success. */
  lemma {:induction false} CleanRuns(env: Env, jobs: seq<Job>, tr: seq<State>, i: nat)
    requires Distinct(jobs) && AllGood(env, jobs) && Path(env, jobs, true, tr) && i < |tr|
    requires Inv(env, jobs, tr[0]) && forall k :: 0 <= k < |tr| - 1 ==> Running(tr[k].pc)
    requires tr[0].pc != Stopped(false) && !tr[0].pc.Lost?
    ensures Inv(env, jobs, tr[i]) && tr[i].pc != Stopped(false) && !tr[i].pc.Lost?
    ensures i > 0 ==> Lower(jobs, tr[i], tr[i - 1])
  {
    hide Inv, Clean, Next, AllGood, Distinct, Lower;
    if i > 0 {
      CleanRuns(env, jobs, tr, i - 1);
      assert StepAt(env, jobs, true, tr, i - 1);
      CleanDescends(env, jobs, tr[i - 1], tr[i]);
      CleanIsNext(env, jobs, tr[i - 1], tr[i]);
      StepKeeps(env, jobs, tr[i - 1], tr[i]);
    }
  }

  /** After any sequence of interrupted runs, starting the script once more and letting it run undisturbed
      patches every file. */
  lemma Completes(env: Env, jobs: seq<Job>, tr: seq<State>, i: nat) returns (end: State)
    requires Distinct(jobs) && AllGood(env, jobs) && Run(env, jobs, tr) && i < |tr|
    requires tr[0].pc.Idle? && Fresh(env, jobs, tr[0].disk)
    ensures Reaches(env, jobs, true, State(tr[i].disk, Enter(0)), end)
    ensures end.pc == Stopped(true) && AllDone(env, jobs, end.disk, |jobs|)
  {
    hide Next, AllGood, Distinct, Reaches, Working, Recoverable;
    FreshRecoverable(env, jobs, tr[0].disk);
    RunKeeps(env, jobs, tr, i);
    InvRecoverable(env, jobs, tr[i]);
    RestartKeeps(env, jobs, tr[i], State(tr[i].disk, Enter(0)));
    end := CleanEnds(env, jobs, State(tr[i].disk, Enter(0)));
  }

  // ----- the patches of the two diff programs are good -----

  /** The patchers are the modelled ones, with these decompressors and bonus data. */
  ghost predicate Patchers(env: Env, z: Zlib, bz: Bzip2, bonus: Option<bytes>) {
    && (forall c, blob :: env.bsdiff(c, blob) == ApplyMem(bz, c, blob, 0))
    && (forall c, blob :: env.imgdiff(c, blob) == ApplyImage(z, bz, c, blob, bonus))
  }

  /** A patch that turns src into tgt: one made by bsdiff, or an image patch that applies to tgt. */
  ghost predicate Turns(z: Zlib, bz: Bzip2, bonus: Option<bytes>, src: bytes, tgt: bytes, patch: bytes) {
    PatchFor(bz, src, tgt, patch) || ApplyImage(z, bz, src, patch, bonus) == Done(tgt)
  }

  lemma PatchIsMarked(bz: Bzip2, src: bytes, tgt: bytes, patch: bytes)
    requires PatchFor(bz, src, tgt, patch)
    ensures IsBsDiff(patch) && ApplyMem(bz, src, patch, 0) == Done(tgt)
  {
    hide Rebuild;
    var none: bytes := [];
    assert ApplyMem(bz, src, none + patch + none, |none|) == Done(tgt);
    assert none + patch + none == patch;
  }

  lemma ImageIsMarked(z: Zlib, bz: Bzip2, bonus: Option<bytes>, src: bytes, tgt: bytes, patch: bytes)
    requires ApplyImage(z, bz, src, patch, bonus) == Done(tgt)
    ensures IsImgDiff(patch) && !IsBsDiff(patch)
  {
    hide ApplyFrom;
  }

  /** No other content has the hash of one of the sources. */
  ghost predicate NoCollision(env: Env, sources: seq<bytes>) {
    forall c, i :: 0 <= i < |sources| && env.sha(c) == env.sha(sources[i]) ==> c == sources[i]
  }

  /** The job lists the hashes of the target and of the sources. */
  ghost predicate Lists(env: Env, job: Job, sources: seq<bytes>, tgt: bytes) {
    && |job.hashes| == |job.blobs| == |sources| && Parsed(job.target) == Some(env.sha(tgt))
    && forall i :: 0 <= i < |sources| ==> Parsed(job.hashes[i]) == Some(env.sha(sources[i]))
  }

  /** Jobs made by the two diff programs satisfy the condition for completion. */
  lemma DiffsAreGood(env: Env, z: Zlib, bz: Bzip2, bonus: Option<bytes>, job: Job, sources: seq<bytes>, tgt: bytes)
    requires Patchers(env, z, bz, bonus) && NoCollision(env, sources) && Lists(env, job, sources, tgt)
    requires forall i :: 0 <= i < |sources| ==> Turns(z, bz, bonus, sources[i], tgt, job.blobs[i])
    ensures Good(env, job)
  {
    hide Parsed, PatchFor, ApplyMem, ApplyImage, IsBsDiff, IsImgDiff;
    forall c | Accepted(env, job, c)
      ensures Produce(env, job, c) == Done(tgt)
    {
      var i := PatchIndex(env, job, c).value;
      var blob := job.blobs[i];
      assert c == sources[i] && Turns(z, bz, bonus, sources[i], tgt, blob);
      if PatchFor(bz, c, tgt, blob) {
        PatchIsMarked(bz, c, tgt, blob);
      } else {
        ImageIsMarked(z, bz, bonus, c, tgt, blob);
      }
    }
  }

  // ----- a job that lists its own target as a source -----

  /** From the start of call i the script passes over files that are patched. */
  lemma {:induction false} PassOver(env: Env, jobs: seq<Job>, d: Disk, i: nat, k: nat, end: State)
    requires WfDisk(jobs, d) && i <= k <= |jobs| && Reaches(env, jobs, false, State(d, Enter(k)), end)
    requires forall m :: i <= m < k ==> AtTarget(env, jobs, d, m)
    ensures Reaches(env, jobs, false, State(d, Enter(i)), end)
    decreases k - i
  {
    hide Reaches, Accepted, WritingStep, MadeStep;
    if i < k {
      assert AtTarget(env, jobs, d, i);
      PassOver(env, jobs, d, i + 1, k, end);
      assert MayRead(d.files[i], d.files[i]) && MayRead(d.cache, d.cache);
      assert EnterStep(env, jobs, State(d, Enter(i)), State(d, Enter(i + 1)));
      ReachesStep(env, jobs, false, State(d, Enter(i)), State(d, Enter(i + 1)), end);
    }
  }

  /** All files are patched except file k, which holds its source b. */
  ghost predicate OnlyLeft(env: Env, jobs: seq<Job>, d: Disk, k: nat, b: bytes) {
    && WfDisk(jobs, d) && k < |jobs| && d.files[k] == Some(b)
    && Accepted(env, jobs[k], b) && !IsTarget(env, jobs[k], b) && Parsed(jobs[k].target).Some?
    && forall i :: 0 <= i < |jobs| && i != k ==> AtTarget(env, jobs, d, i)
  }

  /** The disk when power is lost after file k has been moved to the backup. */
  ghost function Moved(d: Disk, k: nat, b: bytes): (r: Disk)
    requires k < |d.files|
  {
    d.(files := d.files[k := None], cache := Some(b))
  }

  lemma MoveThere(env: Env, jobs: seq<Job>, d: Disk, k: nat, b: bytes, end: State)
    requires OnlyLeft(env, jobs, d, k, b) && Reaches(env, jobs, false, State(Moved(d, k, b), Idle), end)
    ensures Reaches(env, jobs, false, State(d, Idle), end)
  {
    hide Reaches, IsTarget, Accepted, WritingStep, MadeStep;
    var d0, d1 := d.(cache := Some([])), d.(cache := Some(b));
    var w := State(Moved(d, k, b), Writing(k, b, false, 0, true));
    ReachesStep(env, jobs, false, w, State(w.disk, Idle), end);
    assert SavedStep(State(d1, Saved(k, b)), w);
    ReachesStep(env, jobs, false, State(d1, Saved(k, b)), w, end);
    assert BackupStep(State(d1, Backup(k, b, |b|)), State(d1, Saved(k, b)));
    ReachesStep(env, jobs, false, State(d1, Backup(k, b, |b|)), State(d1, Saved(k, b)), end);
    if b != [] {
      assert b[..|b|] == b;
      assert BackupStep(State(d0, Backup(k, b, 0)), State(d1, Backup(k, b, |b|)));
      ReachesStep(env, jobs, false, State(d0, Backup(k, b, 0)), State(d1, Backup(k, b, |b|)), end);
    }
    assert TryStep(State(d, Try(k, b, false, 1)), State(d0, Backup(k, b, 0)));
    ReachesStep(env, jobs, false, State(d, Try(k, b, false, 1)), State(d0, Backup(k, b, 0)), end);
    EnterThere(env, jobs, d, k, b, end);
  }

  lemma EnterThere(env: Env, jobs: seq<Job>, d: Disk, k: nat, b: bytes, end: State)
    requires OnlyLeft(env, jobs, d, k, b) && Reaches(env, jobs, false, State(d, Try(k, b, false, 1)), end)
    ensures Reaches(env, jobs, false, State(d, Idle), end)
  {
    hide Reaches, IsTarget, Accepted, WritingStep, MadeStep;
    assert MayRead(d.files[k], d.files[k]) && MayRead(d.cache, d.cache);
    assert EnterStep(env, jobs, State(d, Enter(k)), State(d, Try(k, b, false, 1)));
    ReachesStep(env, jobs, false, State(d, Enter(k)), State(d, Try(k, b, false, 1)), end);
    PassOver(env, jobs, d, 0, k, end);
    ReachesStep(env, jobs, false, State(d, Idle), State(d, Enter(0)), end);
  }

  /** The first reading of file j fails, the second does not, and the backup is truncated for file j. */
  lemma Truncate(env: Env, jobs: seq<Job>, d: Disk, j: nat) returns (end: State)
    requires WfDisk(jobs, d) && j < |jobs| && ListsTarget(jobs[j]) && AtTarget(env, jobs, d, j)
    requires forall m :: 0 <= m < j ==> AtTarget(env, jobs, d, m)
    ensures Reaches(env, jobs, false, State(d, Idle), end) && end.disk == d.(cache := Some([]))
  {
    hide Reaches, WritingStep, MadeStep;
    var t := d.files[j].value;
    end := State(d.(cache := Some([])), Backup(j, t, 0));
    ReachesSelf(env, jobs, false, end);
    assert TryStep(State(d, Try(j, t, false, 1)), end);
    ReachesStep(env, jobs, false, State(d, Try(j, t, false, 1)), end, end);
    assert MayRead(d.files[j], None) && MayRead(d.files[j], d.files[j]) && MayRead(d.cache, None);
    assert Decide(env, jobs[j], j, None, d.files[j], None) == Try(j, t, false, 1);
    assert EnterStep(env, jobs, State(d, Enter(j)), State(d, Try(j, t, false, 1)));
    ReachesStep(env, jobs, false, State(d, Enter(j)), State(d, Try(j, t, false, 1)), end);
    PassOver(env, jobs, d, 0, j, end);
    ReachesStep(env, jobs, false, State(d, Idle), State(d, Enter(0)), end);
  }

  /** The condition of `AlwaysRecoverable` cannot be dropped: if job j lists its own target and a later file k
      is the one still to be patched, then one interruption and one failed reading lose the source of file k. */
  lemma ListedTargetLosesCopy(env: Env, jobs: seq<Job>, d: Disk, j: nat, k: nat, b: bytes) returns (end: State)
    requires OnlyLeft(env, jobs, d, k, b) && j < k && ListsTarget(jobs[j]) && !Accepted(env, jobs[k], [])
    ensures Fresh(env, jobs, d) && Reaches(env, jobs, false, State(d, Idle), end)
    ensures !Recoverable(env, jobs, end.disk)
  {
    hide Reaches, IsTarget, Accepted, ListsTarget;
    var d' := Moved(d, k, b);
    forall i | 0 <= i < |jobs| && i != k
      ensures AtTarget(env, jobs, d', i)
    {
      assert AtTarget(env, jobs, d, i);
    }
    end := Truncate(env, jobs, d', j);
    MoveThere(env, jobs, d, k, b, end);
    assert !AtTarget(env, jobs, end.disk, k) && !HasSource(env, jobs, end.disk, k) && !HasCopy(env, jobs, end.disk, k);
    assert HasSource(env, jobs, d, k);
  }

  // ----- the check before an update -----

  /** What loading a file gives. */
  datatype Loaded = Missing | Unreadable | Contents(data: bytes)

  /** The comment above `applypatch_check`: the file or the backup has one of the hashes.
      With no hashes at all, a file that can be loaded is enough. */
  ghost predicate Promised(env: Env, hashes: seq<string>, file: Loaded, cache: Loaded) {
    || (file.Contents? && (hashes == [] || FirstMatch(env.sha(file.data), hashes, 0).Some?))
    || (cache.Contents? && FirstMatch(env.sha(cache.data), hashes, 0).Some?)
  }

  const ENOENT: int := 2

  /** `applypatch_check`.  It passes exactly when the promise holds and the file exists: a file that is missing
      is rejected even if the backup is good. */
  method ApplyPatchCheck(env: Env, hashes: seq<string>, file: Loaded, cache: Loaded) returns (code: int)
    ensures code == 0 <==> Promised(env, hashes, file, cache) && !file.Missing?
    ensures code == -ENOENT <==> file.Missing?
  {
    hide FirstMatch;
    if file.Missing? { return -ENOENT; }
    var match1: Option<nat> := None;
    if file.Contents? && hashes != [] { match1 := FindMatchingPatch(env.sha(file.data), hashes); }
    if !file.Contents? || (hashes != [] && match1.None?) {
      if !cache.Contents? { return 1; }
      var match2 := FindMatchingPatch(env.sha(cache.data), hashes);
      if match2.None? { return 1; }
    }
    return 0;
  }

  ghost function Load(file: Option<bytes>): (r: Loaded) {
    if file.Some? then Contents(file.value) else Missing
  }

  /** The case the check gets wrong is the one the backup is for: once the source has been deleted, what the
      comment promises holds for every job in progress, but the file is missing. */
  lemma DeletedSourceFailsCheck(env: Env, jobs: seq<Job>, s: State, s': State)
    requires Inv(env, jobs, s) && SavedStep(s, s') && s'.disk != s.disk
    ensures var j := s.pc.job;
            && Promised(env, jobs[j].hashes, Load(s'.disk.files[j]), Load(s'.disk.cache))
            && Load(s'.disk.files[j]).Missing?
            && RecoverableFrom(env, jobs, s'.disk, j)
  {
    hide IsTarget, RestFine, AllDone, RecoverableFrom, FirstMatch;
    var j := s.pc.job;
    SavedKeeps(env, jobs, s, s');
    WorkingRecoverable(env, jobs, s'.disk, j, s.pc.data, false, true);
  }
}
