/** `applypatch` of applypatch/applypatch.c as a protocol that may be interrupted at any point.

    An update script patches a list of files in place (target name "-"), in order, one call of
    `applypatch` per file, and stops at the first call that fails.  All calls share the one backup
    file CACHE_TEMP_SOURCE.  Every filesystem action is a step of its own; between any two steps the
    device may lose power, after which the script is run again from the start. */
module ApplyPatch {
  import opened Suffixes
  import opened BsPatch
  import opened ImgChunks
  import opened ImgPatch
  import opened Digests

  /** The code `applypatch` calls: the hash, and the two patchers, which take a source and a patch. */
  datatype Env = Env(sha: bytes -> bytes,
                     bsdiff: (bytes, bytes) -> Outcome<bytes>, imgdiff: (bytes, bytes) -> Outcome<bytes>)

  /** The arguments of one call: target hash, a patch for every source hash that is accepted, and the target size. */
  datatype Job = Job(target: string, hashes: seq<string>, blobs: seq<bytes>, size: nat)

  /** files[j] is the file of job j, temps[j] its ".patch" file, cache is CACHE_TEMP_SOURCE. */
  datatype Disk = Disk(files: seq<Option<bytes>>, temps: seq<Option<bytes>>, cache: Option<bytes>)

  /** Where the script is.  `data` is the source read into memory, `made` the flag made_copy. */
  datatype Pc =
    | Idle
    | Enter(job: nat)
    | Try(job: nat, data: bytes, fromCopy: bool, retry: nat)
    | Backup(job: nat, data: bytes, written: nat)
    | Saved(job: nat, data: bytes)
    | Writing(job: nat, data: bytes, fromCopy: bool, retry: nat, made: bool)
    | Made(job: nat, data: bytes, fromCopy: bool, made: bool, out: bytes)
    | Ready(job: nat, data: bytes, fromCopy: bool, made: bool, out: bytes)
    | Renamed(job: nat, made: bool)
    | Stopped(ok: bool)
    | Lost  // the patcher never returns, or has left its memory

  datatype State = State(disk: Disk, pc: Pc)

  // ----- what the hashes decide -----

  ghost predicate IsTarget(env: Env, job: Job, c: bytes) {
    Parsed(job.target) == Some(env.sha(c))
  }

  ghost function PatchIndex(env: Env, job: Job, c: bytes): (r: Option<nat>) {
    FirstMatch(env.sha(c), job.hashes, 0)
  }

  ghost predicate Accepted(env: Env, job: Job, c: bytes) {
    PatchIndex(env, job, c).Some?
  }

  /** The format of a patch is told by its first eight bytes. */
  predicate IsBsDiff(blob: bytes) { |blob| >= 8 && blob[..8] == MAGIC }

  predicate IsImgDiff(blob: bytes) { |blob| >= 8 && blob[..8] == IMG_MAGIC }

  /** What patching the source c of a job produces. */
  ghost function Produce(env: Env, job: Job, c: bytes): (r: Outcome<bytes>) {
    var i := PatchIndex(env, job, c);
    if i.None? || i.value >= |job.blobs| then Failed
    else if IsBsDiff(job.blobs[i.value]) then env.bsdiff(c, job.blobs[i.value])
    else if IsImgDiff(job.blobs[i.value]) then env.imgdiff(c, job.blobs[i.value])
    else Failed
  }

  /** The patch for the source c of a job has a known format. */
  ghost predicate Known(env: Env, job: Job, c: bytes) {
    var i := PatchIndex(env, job, c);
    i.Some? && i.value < |job.blobs| && (IsBsDiff(job.blobs[i.value]) || IsImgDiff(job.blobs[i.value]))
  }

  // ----- the steps -----

  /** Reading a file may fail; the program then goes on as if it were missing. */
  ghost predicate MayRead(file: Option<bytes>, got: Option<bytes>) {
    got == file || got == None
  }

  /** The decision at the start of a call.  The file is read as the target, and read again as the
      source if that failed; only the first reading is compared with the target hash. */
  ghost function Decide(env: Env, job: Job, j: nat, file: Option<bytes>, again: Option<bytes>, cache: Option<bytes>)
    : (pc: Pc)
  {
    var source := if file.Some? then file else again;
    if Parsed(job.target).None? then Stopped(false)
    else if file.Some? && IsTarget(env, job, file.value) then Enter(j + 1)
    else if source.Some? && Accepted(env, job, source.value) then Try(j, source.value, false, 1)
    else if cache.Some? && Accepted(env, job, cache.value) then Try(j, cache.value, true, 1)
    else Stopped(false)
  }

  ghost predicate EnterStep(env: Env, jobs: seq<Job>, s: State, s': State) {
    && s.pc.Enter? && s'.disk == s.disk
    && var j := s.pc.job;
       if j < |jobs| && j < |s.disk.files| then
         exists file, again, cache ::
           && MayRead(s.disk.files[j], file) && MayRead(s.disk.files[j], again) && MayRead(s.disk.cache, cache)
           && s'.pc == Decide(env, jobs[j], j, file, again, cache)
       else s'.pc == Stopped(true)
  }

  /** Enough space: go ahead.  Not enough: a source in place is backed up first, a source that is
      the backup already is used as it is. */
  ghost predicate TryStep(s: State, s': State) {
    && s.pc.Try?
    && var Try(j, c, fromCopy, retry) := s.pc;
       || (retry > 0 && s'.disk == s.disk && s'.pc == Writing(j, c, fromCopy, retry, false))
       || (fromCopy && s'.disk == s.disk && s'.pc == Writing(j, c, true, 0, false))
       || (!fromCopy && s'.disk == s.disk && s'.pc == Stopped(false))
       || (!fromCopy && s'.disk == s.disk.(cache := Some([])) && s'.pc == Backup(j, c, 0))
  }

  /** SaveFileContents: more bytes of the source reach the backup, or writing fails. */
  ghost predicate BackupStep(s: State, s': State) {
    && s.pc.Backup?
    && var Backup(j, c, k) := s.pc;
       || (exists n :: k < n <= |c| && s'.disk == s.disk.(cache := Some(c[..n])) && s'.pc == Backup(j, c, n))
       || (s'.disk == s.disk && s'.pc == Stopped(false))
       || (k == |c| && s'.disk == s.disk && s'.pc == Saved(j, c))
  }

  /** The source is deleted to make room (an error of unlink is ignored). */
  ghost predicate SavedStep(s: State, s': State) {
    && s.pc.Saved? && s.pc.job < |s.disk.files|
    && var Saved(j, c) := s.pc;
       && s'.pc == Writing(j, c, false, 0, true)
       && (s'.disk == s.disk || s'.disk == s.disk.(files := s.disk.files[j := None]))
  }

  /** The patch is applied: the output file holds anything until it is complete; a failure is retried once,
      this time with the backup, unless the format of the patch is unknown. */
  ghost predicate WritingStep(env: Env, jobs: seq<Job>, s: State, s': State) {
    && s.pc.Writing? && s.pc.job < |s.disk.temps| && s.pc.job < |jobs|
    && var Writing(j, c, fromCopy, retry, made) := s.pc;
       || (exists t :: s'.disk == s.disk.(temps := s.disk.temps[j := Some(t)])
                       && (s'.pc == s.pc || (s'.pc == Stopped(false) && (retry == 0 || !Known(env, jobs[j], c)))))
       || (s'.disk == s.disk && s'.pc == Stopped(false))
       || (!Produce(env, jobs[j], c).Done? && !Produce(env, jobs[j], c).Failed? && s'.disk == s.disk && s'.pc == Lost)
       || (retry > 0 && Known(env, jobs[j], c)
           && s'.disk == s.disk.(temps := s.disk.temps[j := None]) && s'.pc == Try(j, c, fromCopy, 0))
       || (exists out :: Produce(env, jobs[j], c) == Done(out)
                         && s'.disk == s.disk.(temps := s.disk.temps[j := Some(out)])
                         && s'.pc == Made(j, c, fromCopy, made, out))
  }

  /** The hash of the output is compared with the target hash. */
  ghost predicate MadeStep(env: Env, jobs: seq<Job>, s: State, s': State) {
    && s.pc.Made? && s.pc.job < |jobs| && s'.disk == s.disk
    && var Made(j, c, fromCopy, made, out) := s.pc;
       s'.pc == if IsTarget(env, jobs[j], out) then Ready(j, c, fromCopy, made, out) else Stopped(false)
  }

  ghost predicate ReadyStep(s: State, s': State) {
    && s.pc.Ready? && s.pc.job < |s.disk.files| == |s.disk.temps|
    && var Ready(j, c, fromCopy, made, out) := s.pc;
       || (s'.disk == s.disk && s'.pc == Stopped(false))
       || (s'.disk == s.disk.(files := s.disk.files[j := s.disk.temps[j]], temps := s.disk.temps[j := None])
           && s'.pc == Renamed(j, made))
  }

  /** A backup made by this call is deleted (an error of unlink is ignored). */
  ghost predicate RenamedStep(s: State, s': State) {
    && s.pc.Renamed? && s'.pc == Enter(s.pc.job + 1)
    && (s'.disk == s.disk || (s.pc.made && s'.disk == s.disk.(cache := None)))
  }

  /** A step of the program that is not an interruption. */
  ghost predicate ProgramStep(env: Env, jobs: seq<Job>, s: State, s': State) {
    || EnterStep(env, jobs, s, s') || TryStep(s, s') || BackupStep(s, s') || SavedStep(s, s')
    || WritingStep(env, jobs, s, s') || MadeStep(env, jobs, s, s') || ReadyStep(s, s') || RenamedStep(s, s')
  }

  /** Power is lost at any time; afterwards the script starts from the beginning. */
  ghost predicate Next(env: Env, jobs: seq<Job>, s: State, s': State) {
    || ProgramStep(env, jobs, s, s')
    || s' == State(s.disk, Idle)
    || (s.pc.Idle? && s' == State(s.disk, Enter(0)))
  }

  ghost predicate NextAt(env: Env, jobs: seq<Job>, tr: seq<State>, i: nat)
    requires i + 1 < |tr|
  {
    Next(env, jobs, tr[i], tr[i + 1])
  }

  ghost predicate Run(env: Env, jobs: seq<Job>, tr: seq<State>) {
    tr != [] && forall i :: 0 <= i < |tr| - 1 ==> NextAt(env, jobs, tr, i)
  }

  // ----- recoverability -----

  ghost predicate WfDisk(jobs: seq<Job>, d: Disk) {
    |d.files| == |d.temps| == |jobs|
  }

  ghost predicate AtTarget(env: Env, jobs: seq<Job>, d: Disk, j: int) {
    0 <= j < |jobs| && j < |d.files| && d.files[j].Some? && IsTarget(env, jobs[j], d.files[j].value)
  }

  ghost predicate HasSource(env: Env, jobs: seq<Job>, d: Disk, j: int) {
    0 <= j < |jobs| && j < |d.files| && d.files[j].Some? && Accepted(env, jobs[j], d.files[j].value)
  }

  ghost predicate HasCopy(env: Env, jobs: seq<Job>, d: Disk, j: int) {
    0 <= j < |jobs| && d.cache.Some? && Accepted(env, jobs[j], d.cache.value)
  }

  ghost predicate AllDone(env: Env, jobs: seq<Job>, d: Disk, n: int) {
    forall i :: 0 <= i < n ==> AtTarget(env, jobs, d, i)
  }

  /** The files after j are patched already or still patchable in place. */
  ghost predicate RestFine(env: Env, jobs: seq<Job>, d: Disk, j: int) {
    forall i :: j < i < |jobs| ==> AtTarget(env, jobs, d, i) || HasSource(env, jobs, d, i)
  }

  /** The files before k are patched; file k is patched, patchable, or its source is in the backup;
      the others are patched or patchable. */
  ghost predicate RecoverableAt(env: Env, jobs: seq<Job>, d: Disk, k: int) {
    && 0 <= k <= |jobs| && AllDone(env, jobs, d, k) && RestFine(env, jobs, d, k)
    && (k < |jobs| ==> AtTarget(env, jobs, d, k) || HasSource(env, jobs, d, k) || HasCopy(env, jobs, d, k))
  }

  ghost predicate RecoverableFrom(env: Env, jobs: seq<Job>, d: Disk, j: int) {
    exists k :: j <= k && RecoverableAt(env, jobs, d, k)
  }

  ghost predicate Recoverable(env: Env, jobs: seq<Job>, d: Disk) {
    RecoverableFrom(env, jobs, d, 0)
  }

  /** What is known while job j works on source c. */
  ghost predicate Working(env: Env, jobs: seq<Job>, d: Disk, j: int, c: bytes, fromCopy: bool, made: bool) {
    && 0 <= j < |jobs| && AllDone(env, jobs, d, j) && Accepted(env, jobs[j], c)
    && (fromCopy ==> !made && RecoverableFrom(env, jobs, d, j))
    && (!fromCopy ==> RestFine(env, jobs, d, j)
                      && if made then d.cache == Some(c) else j < |d.files| && d.files[j] == Some(c))
  }

  ghost predicate Inv(env: Env, jobs: seq<Job>, s: State) {
    && WfDisk(jobs, s.disk)
    && match s.pc
       case Idle => Recoverable(env, jobs, s.disk)
       case Lost => Recoverable(env, jobs, s.disk)
       case Stopped(ok) => Recoverable(env, jobs, s.disk) && (ok ==> AllDone(env, jobs, s.disk, |jobs|))
       case Enter(j) => j <= |jobs| && AllDone(env, jobs, s.disk, j) && RecoverableFrom(env, jobs, s.disk, j)
       case Try(j, c, fromCopy, _) => Working(env, jobs, s.disk, j, c, fromCopy, false)
       case Backup(j, c, k) =>
         Working(env, jobs, s.disk, j, c, false, false) && k <= |c| && s.disk.cache == Some(c[..k])
       case Saved(j, c) =>
         Working(env, jobs, s.disk, j, c, false, false) && s.disk.cache == Some(c)
       case Writing(j, c, fromCopy, retry, made) =>
         Working(env, jobs, s.disk, j, c, fromCopy, made) && (retry > 0 ==> !made)
       case Made(j, c, fromCopy, made, out) =>
         Working(env, jobs, s.disk, j, c, fromCopy, made) && s.disk.temps[j] == Some(out)
         && Produce(env, jobs[j], c) == Done(out)
       case Ready(j, c, fromCopy, made, out) =>
         Working(env, jobs, s.disk, j, c, fromCopy, made) && s.disk.temps[j] == Some(out)
         && IsTarget(env, jobs[j], out)
       case Renamed(j, made) =>
         j < |jobs| && AllDone(env, jobs, s.disk, j + 1) && RecoverableFrom(env, jobs, s.disk, j + 1)
         && (made ==> RestFine(env, jobs, s.disk, j))
  }

  /** The job lists its own target hash among the hashes of its sources. */
  ghost predicate ListsTarget(job: Job) {
    Parsed(job.target).Some? && FirstMatch(Parsed(job.target).value, job.hashes, 0).Some?
  }

  /** Only the last job may list its own target as a source. */
  ghost predicate Distinct(jobs: seq<Job>) {
    forall j :: 0 <= j < |jobs| - 1 ==> !ListsTarget(jobs[j])
  }

  lemma TargetNotAccepted(env: Env, job: Job, c: bytes)
    requires IsTarget(env, job, c) && Accepted(env, job, c)
    ensures ListsTarget(job)
  {
  }

  lemma FromWeaken(env: Env, jobs: seq<Job>, d: Disk, j: int, i: int)
    requires RecoverableFrom(env, jobs, d, j) && i <= j
    ensures RecoverableFrom(env, jobs, d, i)
  {
    hide RecoverableAt;
  }

  lemma WorkingRecoverable(env: Env, jobs: seq<Job>, d: Disk, j: int, c: bytes, fromCopy: bool, made: bool)
    requires Working(env, jobs, d, j, c, fromCopy, made)
    ensures RecoverableFrom(env, jobs, d, j) && Recoverable(env, jobs, d)
  {
    hide Accepted, IsTarget;
    if !fromCopy { assert RecoverableAt(env, jobs, d, j); }
    FromWeaken(env, jobs, d, j, 0);
  }

  /** Recoverability depends on the files and the backup only. */
  lemma SameFiles(env: Env, jobs: seq<Job>, d: Disk, d': Disk)
    requires d'.files == d.files && d'.cache == d.cache
    ensures forall j, c, f, m :: Working(env, jobs, d, j, c, f, m) ==> Working(env, jobs, d', j, c, f, m)
  {
    hide Accepted, IsTarget;
    assert forall j :: AtTarget(env, jobs, d', j) == AtTarget(env, jobs, d, j);
    assert forall j :: HasSource(env, jobs, d', j) == HasSource(env, jobs, d, j);
    assert forall j :: HasCopy(env, jobs, d', j) == HasCopy(env, jobs, d, j);
    assert forall k :: RecoverableAt(env, jobs, d, k) ==> RecoverableAt(env, jobs, d', k);
    assert forall j :: RecoverableFrom(env, jobs, d, j) ==> RecoverableFrom(env, jobs, d', j);
  }

  /** A change of file j or of the backup leaves the other files as they are. */
  lemma OtherFiles(env: Env, jobs: seq<Job>, d: Disk, d': Disk, j: int)
    requires |d'.files| == |d.files|
    requires forall i :: 0 <= i < |d.files| && i != j ==> d'.files[i] == d.files[i]
    ensures AllDone(env, jobs, d, j) ==> AllDone(env, jobs, d', j)
    ensures RestFine(env, jobs, d, j) ==> RestFine(env, jobs, d', j)
  {
    hide Accepted, IsTarget;
    assert forall i :: i != j ==> AtTarget(env, jobs, d', i) == AtTarget(env, jobs, d, i);
    assert forall i :: i != j ==> HasSource(env, jobs, d', i) == HasSource(env, jobs, d, i);
  }

  /** With file j patched, the disk is recoverable from j + 1 on. */
  lemma NextJob(env: Env, jobs: seq<Job>, d: Disk, j: int)
    requires 0 <= j < |jobs| && AllDone(env, jobs, d, j) && AtTarget(env, jobs, d, j)
    requires RecoverableFrom(env, jobs, d, j)
    ensures AllDone(env, jobs, d, j + 1) && RecoverableFrom(env, jobs, d, j + 1)
  {
    hide AtTarget, HasSource, HasCopy;
    var k :| j <= k && RecoverableAt(env, jobs, d, k);
    if k == j { assert RecoverableAt(env, jobs, d, j + 1); }
  }

  lemma EnterKeeps(env: Env, jobs: seq<Job>, s: State, s': State)
    requires Distinct(jobs) && Inv(env, jobs, s) && EnterStep(env, jobs, s, s')
    ensures Inv(env, jobs, s')
  {
    hide Accepted, IsTarget, HasCopy, ListsTarget, RestFine, AllDone;
    var j, d := s.pc.job, s.disk;
    FromWeaken(env, jobs, d, j, 0);
    if j < |jobs| {
      var file, again, cache :| MayRead(d.files[j], file) && MayRead(d.files[j], again) && MayRead(d.cache, cache)
                                && s'.pc == Decide(env, jobs[j], j, file, again, cache);
      if s'.pc.Enter? {
        NextJob(env, jobs, d, j);
      } else if s'.pc.Try? && !s'.pc.fromCopy {
        SourceInPlace(env, jobs, d, j);
      }
    }
  }

  /** A file that is accepted as a source is the one the recovery is about, or nothing follows it. */
  lemma SourceInPlace(env: Env, jobs: seq<Job>, d: Disk, j: int)
    requires Distinct(jobs) && HasSource(env, jobs, d, j) && RecoverableFrom(env, jobs, d, j)
    ensures RestFine(env, jobs, d, j)
  {
    hide Accepted, IsTarget, HasCopy, ListsTarget;
    var k :| j <= k && RecoverableAt(env, jobs, d, k);
    if k > j {
      assert AtTarget(env, jobs, d, j);
      TargetNotAccepted(env, jobs[j], d.files[j].value);
    }
  }

  lemma TryKeeps(env: Env, jobs: seq<Job>, s: State, s': State)
    requires Inv(env, jobs, s) && TryStep(s, s')
    ensures Inv(env, jobs, s')
  {
    hide Accepted, IsTarget, RestFine, AllDone, RecoverableFrom, Produce;
    WorkingRecoverable(env, jobs, s.disk, s.pc.job, s.pc.data, s.pc.fromCopy, false);
    OtherFiles(env, jobs, s.disk, s'.disk, s.pc.job);
  }

  lemma BackupKeeps(env: Env, jobs: seq<Job>, s: State, s': State)
    requires Inv(env, jobs, s) && BackupStep(s, s')
    ensures Inv(env, jobs, s')
  {
    hide Accepted, IsTarget, RestFine, AllDone, RecoverableFrom, Produce;
    WorkingRecoverable(env, jobs, s.disk, s.pc.job, s.pc.data, false, false);
    OtherFiles(env, jobs, s.disk, s'.disk, s.pc.job);
    assert s.pc.data[..|s.pc.data|] == s.pc.data;
  }

  lemma SavedKeeps(env: Env, jobs: seq<Job>, s: State, s': State)
    requires Inv(env, jobs, s) && SavedStep(s, s')
    ensures Inv(env, jobs, s')
  {
    hide Accepted, IsTarget, RestFine, AllDone, RecoverableFrom, Produce;
    OtherFiles(env, jobs, s.disk, s'.disk, s.pc.job);
  }

  lemma WritingKeeps(env: Env, jobs: seq<Job>, s: State, s': State)
    requires Inv(env, jobs, s) && WritingStep(env, jobs, s, s')
    ensures Inv(env, jobs, s')
  {
    hide Working, IsTarget, AllDone, RecoverableFrom, Produce, Known;
    var Writing(j, c, fromCopy, retry, made) := s.pc;
    SameFiles(env, jobs, s.disk, s'.disk);
    assert Working(env, jobs, s'.disk, j, c, fromCopy, made);
    WorkingRecoverable(env, jobs, s'.disk, j, c, fromCopy, made);
  }

  lemma MadeKeeps(env: Env, jobs: seq<Job>, s: State, s': State)
    requires Inv(env, jobs, s) && MadeStep(env, jobs, s, s')
    ensures Inv(env, jobs, s')
  {
    hide Working, IsTarget, AllDone, RecoverableFrom, Produce;
    var Made(j, c, fromCopy, made, out) := s.pc;
    WorkingRecoverable(env, jobs, s.disk, j, c, fromCopy, made);
  }

  /** The rename puts the target in place, and takes nothing away that a later job needs. */
  lemma PatchedRecoverable(env: Env, jobs: seq<Job>, d: Disk, d': Disk, j: int, c: bytes, fromCopy: bool, made: bool)
    requires Working(env, jobs, d, j, c, fromCopy, made) && |d'.files| == |d.files| && d'.cache == d.cache
    requires forall i :: 0 <= i < |d.files| && i != j ==> d'.files[i] == d.files[i]
    requires AtTarget(env, jobs, d', j)
    ensures RecoverableFrom(env, jobs, d', j) && AllDone(env, jobs, d', j)
    ensures made ==> RestFine(env, jobs, d', j)
  {
    hide Accepted, IsTarget;
    OtherFiles(env, jobs, d, d', j);
    if fromCopy {
      var k :| j <= k && RecoverableAt(env, jobs, d, k);
      assert forall i :: i != j ==> AtTarget(env, jobs, d', i) == AtTarget(env, jobs, d, i);
      assert forall i :: i != j ==> HasSource(env, jobs, d', i) == HasSource(env, jobs, d, i);
      assert forall i :: HasCopy(env, jobs, d', i) == HasCopy(env, jobs, d, i);
      assert RecoverableAt(env, jobs, d', k);
    } else {
      assert RecoverableAt(env, jobs, d', j);
    }
  }

  lemma ReadyKeeps(env: Env, jobs: seq<Job>, s: State, s': State)
    requires Inv(env, jobs, s) && ReadyStep(s, s')
    ensures Inv(env, jobs, s')
  {
    hide Working, IsTarget, AllDone, RecoverableFrom, Produce, RestFine;
    var Ready(j, c, fromCopy, made, out) := s.pc;
    WorkingRecoverable(env, jobs, s.disk, j, c, fromCopy, made);
    if s'.pc.Renamed? {
      PatchedRecoverable(env, jobs, s.disk, s'.disk, j, c, fromCopy, made);
      NextJob(env, jobs, s'.disk, j);
    }
  }

  /** Once a job that made the backup is done, nothing depends on the backup. */
  lemma RenamedKeeps(env: Env, jobs: seq<Job>, s: State, s': State)
    requires Inv(env, jobs, s) && RenamedStep(s, s')
    ensures Inv(env, jobs, s')
  {
    hide Accepted, IsTarget;
    var d, d', j := s.disk, s'.disk, s.pc.job;
    if d' != d {
      assert forall i :: AtTarget(env, jobs, d', i) == AtTarget(env, jobs, d, i);
      assert forall i :: HasSource(env, jobs, d', i) == HasSource(env, jobs, d, i);
      assert RecoverableAt(env, jobs, d', j + 1);
    }
  }

  lemma StepKeeps(env: Env, jobs: seq<Job>, s: State, s': State)
    requires Distinct(jobs) && Inv(env, jobs, s) && Next(env, jobs, s, s')
    ensures Inv(env, jobs, s')
  {
    hide *;
    InvRecoverable(env, jobs, s);
    NextCases(env, jobs, s, s');
    if EnterStep(env, jobs, s, s') { EnterKeeps(env, jobs, s, s'); }
    else if TryStep(s, s') { TryKeeps(env, jobs, s, s'); }
    else if BackupStep(s, s') { BackupKeeps(env, jobs, s, s'); }
    else if SavedStep(s, s') { SavedKeeps(env, jobs, s, s'); }
    else if WritingStep(env, jobs, s, s') { WritingKeeps(env, jobs, s, s'); }
    else if MadeStep(env, jobs, s, s') { MadeKeeps(env, jobs, s, s'); }
    else if ReadyStep(s, s') { ReadyKeeps(env, jobs, s, s'); }
    else if RenamedStep(s, s') { RenamedKeeps(env, jobs, s, s'); }
    else { RestartKeeps(env, jobs, s, s'); }
  }

  lemma NextCases(env: Env, jobs: seq<Job>, s: State, s': State)
    requires Next(env, jobs, s, s')
    ensures ProgramStep(env, jobs, s, s') || (s'.disk == s.disk && (s'.pc.Idle? || s'.pc == Enter(0)))
    ensures ProgramStep(env, jobs, s, s') ==>
              || EnterStep(env, jobs, s, s') || TryStep(s, s') || BackupStep(s, s') || SavedStep(s, s')
              || WritingStep(env, jobs, s, s') || MadeStep(env, jobs, s, s') || ReadyStep(s, s') || RenamedStep(s, s')
  {
  }

  lemma RestartKeeps(env: Env, jobs: seq<Job>, s: State, s': State)
    requires WfDisk(jobs, s.disk) && Recoverable(env, jobs, s.disk) && s'.disk == s.disk
    requires s'.pc.Idle? || s'.pc == Enter(0)
    ensures Inv(env, jobs, s')
  {
  }

  /** In every state of the protocol each file is patched or can still be patched. */
  lemma InvRecoverable(env: Env, jobs: seq<Job>, s: State)
    requires Inv(env, jobs, s)
    ensures WfDisk(jobs, s.disk) && Recoverable(env, jobs, s.disk)
  {
    hide Working, IsTarget, AllDone, RecoverableFrom, Produce, RestFine;
    match s.pc
    case Enter(j) => FromWeaken(env, jobs, s.disk, j, 0);
    case Try(j, c, fromCopy, _) => WorkingRecoverable(env, jobs, s.disk, j, c, fromCopy, false);
    case Backup(j, c, _) => WorkingRecoverable(env, jobs, s.disk, j, c, false, false);
    case Saved(j, c) => WorkingRecoverable(env, jobs, s.disk, j, c, false, false);
    case Writing(j, c, fromCopy, _, made) => WorkingRecoverable(env, jobs, s.disk, j, c, fromCopy, made);
    case Made(j, c, fromCopy, made, _) => WorkingRecoverable(env, jobs, s.disk, j, c, fromCopy, made);
    case Ready(j, c, fromCopy, made, _) => WorkingRecoverable(env, jobs, s.disk, j, c, fromCopy, made);
    case Renamed(j, _) => FromWeaken(env, jobs, s.disk, j + 1, 0);
    case _ =>
  }

  /** Before the update: every file is patched already or holds an accepted source. */
  ghost predicate Fresh(env: Env, jobs: seq<Job>, d: Disk) {
    WfDisk(jobs, d) && RestFine(env, jobs, d, -1)
  }

  lemma {:induction false} RunKeeps(env: Env, jobs: seq<Job>, tr: seq<State>, i: nat)
    requires Distinct(jobs) && Run(env, jobs, tr) && Inv(env, jobs, tr[0]) && i < |tr|
    ensures Inv(env, jobs, tr[i])
  {
    hide Inv, Next, Distinct;
    if i > 0 {
      RunKeeps(env, jobs, tr, i - 1);
      assert NextAt(env, jobs, tr, i - 1);
      StepKeeps(env, jobs, tr[i - 1], tr[i]);
    }
  }

  /** However often the update is interrupted, in every state of every run all files before some file k are
      patched, file k is patched or its source is in place or in the backup, and the files after k are patched
      or still have their source.  When the script has reported success, all files are patched. */
  lemma AlwaysRecoverable(env: Env, jobs: seq<Job>, tr: seq<State>, i: nat)
    requires Distinct(jobs) && Run(env, jobs, tr) && i < |tr|
    requires tr[0].pc.Idle? && Fresh(env, jobs, tr[0].disk)
    ensures Recoverable(env, jobs, tr[i].disk)
    ensures tr[i].pc == Stopped(true) ==> AllDone(env, jobs, tr[i].disk, |jobs|)
  {
    hide Next, Distinct;
    FreshRecoverable(env, jobs, tr[0].disk);
    RunKeeps(env, jobs, tr, i);
    InvRecoverable(env, jobs, tr[i]);
  }

  lemma FreshRecoverable(env: Env, jobs: seq<Job>, d: Disk)
    requires Fresh(env, jobs, d)
    ensures Recoverable(env, jobs, d)
  {
    hide AtTarget, HasSource;
    assert RecoverableAt(env, jobs, d, 0);
  }
}
