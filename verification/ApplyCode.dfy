/** The control flow of `applypatch` and `GenerateTarget` (applypatch/applypatch.c) for file targets, as a program
    on a device that records every state it passes through.  The record is a path of the protocol, so all that is
    proved about paths holds of the device at every moment of every run. */
module ApplyCode {
  import opened Suffixes
  import opened BsPatch
  import opened ImgChunks
  import opened Digests
  import opened ApplyPatch
  import opened ApplyRuns

  /** How a call or a script ends: it returns success or failure, or the patcher never returns. */
  datatype Ending = Success | Failure | Never

  /** Where the protocol stands at the end of call j. */
  function EndPc(e: Ending, j: nat): (pc: Pc) {
    match e
    case Success => Enter(j + 1)
    case Failure => Stopped(false)
    case Never => Lost
  }

  /** What a system call is for. */
  datatype Call = Reading | Saving | Deleting | Opening | Output | Renaming

  /** There is enough space for a target: 256k, and half as much again as its size. */
  ghost predicate Enough(free: nat, size: nat) {
    free > 0x4_0000 && free > size * 3 / 2
  }

  /** The filesystem.  `fault` tells, by the purpose and the number of a system call, whether it fails or falls
      short, and `room` the free space that is reported. */
  class Device {
    var disk: Disk
    var calls: nat
    const fault: (Call, nat) -> bool
    const room: nat -> nat
    ghost var tr: seq<State>

    /** The record is a run of the protocol that ends with the disk as it is and the program at pc. */
    ghost predicate At(env: Env, jobs: seq<Job>, pc: Pc)
      reads this`disk, this`tr
    {
      tr != [] && Run(env, jobs, tr) && tr[|tr| - 1] == State(disk, pc) && WfDisk(jobs, disk)
    }

    constructor (env: Env, jobs: seq<Job>, d: Disk, fault: (Call, nat) -> bool, room: nat -> nat)
      requires WfDisk(jobs, d)
      ensures At(env, jobs, Idle) && tr == [State(d, Idle)] && disk == d && this.fault == fault && this.room == room
    {
      disk, calls, tr := d, 0, [State(d, Idle)];
      this.fault, this.room := fault, room;
    }

    /** No system call fails. */
    ghost predicate Sane() {
      NoFault(fault)
    }

    /** Nothing fails, except that the output may be cut short. */
    ghost predicate Calm() {
      OutputOnly(fault)
    }

    /** The output was cut short between two moments. */
    ghost predicate Short(from: nat, to: nat) {
      exists t :: from <= t < to && fault(Output, t)
    }

    /** Nothing fails; or there is always space for the target, and the output is cut short at most once. */
    ghost predicate Bearable(size: nat) {
      Sane() || (Calm() && Once(fault) && Plenty(room, size))
    }

    ghost predicate AllBearable(jobs: seq<Job>) {
      forall j :: 0 <= j < |jobs| ==> Bearable(jobs[j].size)
    }

    method Fails(call: Call) returns (r: bool)
      modifies this`calls
      ensures calls == old(calls) + 1 && r == fault(call, old(calls))
    {
      r := fault(call, calls);
      calls := calls + 1;
    }

    /** `FreeSpaceForFile` */
    method FreeSpace() returns (free: nat)
      modifies this`calls
      ensures calls == old(calls) + 1 && free == room(old(calls))
    {
      free := room(calls);
      calls := calls + 1;
    }

    /** One action: the disk changes as a step of the protocol allows. */
    method Do(env: Env, jobs: seq<Job>, ghost from: Pc, d: Disk, ghost pc: Pc)
      requires At(env, jobs, from) && Next(env, jobs, State(disk, from), State(d, pc)) && WfDisk(jobs, d)
      modifies this`disk, this`tr
      ensures At(env, jobs, pc) && disk == d && old(tr) <= tr
    {
      hide Next;
      tr := tr + [State(d, pc)];
      disk := d;
      RunMore(env, jobs, old(tr), State(d, pc));
    }

    /** `LoadFileContents`, which may fail. */
    method Load(file: Option<bytes>) returns (got: Option<bytes>)
      modifies this`calls
      ensures MayRead(file, got) && (Calm() ==> got == file) && old(calls) <= calls
    {
      var f := Fails(Reading);
      got := if f then None else file;
    }

    /** The source and its patch: from the file, which is read again if that failed, or from the backup. */
    method FindSource(env: Env, jobs: seq<Job>, j: nat, file: Option<bytes>)
      returns (source: Option<bytes>, use: nat, fromCopy: bool)
      requires j < |jobs| && WfDisk(jobs, disk) && |jobs[j].hashes| == |jobs[j].blobs| && MayRead(disk.files[j], file)
      requires Parsed(jobs[j].target).Some? && (file.Some? ==> !IsTarget(env, jobs[j], file.value))
      modifies this`calls
      ensures old(calls) <= calls
      ensures Next(env, jobs, State(disk, Enter(j)),
                   State(disk, if source.Some? then Try(j, source.value, fromCopy, 1) else Stopped(false)))
      ensures source.Some? ==> PatchIndex(env, jobs[j], source.value) == Some(use) && use < |jobs[j].blobs|
      ensures Calm() && file == disk.files[j] && source.None? ==>
                Decide(env, jobs[j], j, disk.files[j], disk.files[j], disk.cache) == Stopped(false)
    {
      hide Parsed, FirstMatch, Next, IsTarget;
      var again := file;
      if file.None? { again := Load(disk.files[j]); }
      var m: Option<nat> := None;
      if again.Some? { m := FindMatchingPatch(env.sha(again.value), jobs[j].hashes); }
      if m.Some? {
        Decided(env, jobs, State(disk, Enter(j)), file, again, None);
        return again, m.value, false;
      }
      var copy := Load(disk.cache);
      Decided(env, jobs, State(disk, Enter(j)), file, again, copy);
      if copy.Some? { m := FindMatchingPatch(env.sha(copy.value), jobs[j].hashes); }
      if m.None? { return None, 0, true; }
      return copy, m.value, true;
    }

    /** One call of `applypatch` with "-" as target name. */
    method ApplyPatchCall(env: Env, jobs: seq<Job>, j: nat) returns (e: Ending)
      requires j < |jobs| && At(env, jobs, Enter(j)) && |jobs[j].hashes| == |jobs[j].blobs|
      modifies this
      ensures At(env, jobs, EndPc(e, j)) && old(tr) <= tr
      ensures Bearable(jobs[j].size) && Good(env, jobs[j]) && !e.Success? ==>
                Decide(env, jobs[j], j, old(disk).files[j], old(disk).files[j], old(disk).cache) == Stopped(false)
      ensures Sane() && Good(env, jobs[j]) && e.Success? ==> disk.cache == old(disk.cache) || disk.cache == None
    {
      hide Parsed, Run, Next, PatchIndex, Good;
      var target := ParseSha1(jobs[j].target);
      var file := Load(disk.files[j]);
      if target.None? || (file.Some? && Some(env.sha(file.value)) == target) {
        Decided(env, jobs, State(disk, Enter(j)), file, file, None);
        Do(env, jobs, Enter(j), disk, if target.None? then Stopped(false) else Enter(j + 1));
        return if target.Some? then Success else Failure;
      }
      var source, use, fromCopy := FindSource(env, jobs, j, file);
      if source.None? {
        Do(env, jobs, Enter(j), disk, Stopped(false));
        return Failure;
      }
      Do(env, jobs, Enter(j), disk, Try(j, source.value, fromCopy, 1));
      e := GenerateTarget(env, jobs, j, source.value, use, fromCopy);
    }

    /** `SaveFileContents` to the backup, and the deletion of the source. */
    method BackUp(env: Env, jobs: seq<Job>, j: nat, c: bytes, ghost retry: nat) returns (ok: bool)
      requires j < |jobs| && At(env, jobs, Try(j, c, false, retry))
      modifies this
      ensures At(env, jobs, if ok then Writing(j, c, false, 0, true) else Stopped(false)) && old(tr) <= tr
      ensures old(calls) <= calls && (Calm() ==> ok)
      ensures Calm() ==> disk == old(disk).(cache := Some(c), files := old(disk).files[j := None])
    {
      hide Run, WritingStep, EnterStep, MadeStep, ReadyStep, RenamedStep;
      var full := Fails(Saving);
      if full {
        Do(env, jobs, Try(j, c, false, retry), disk, Stopped(false));
        return false;
      }
      Do(env, jobs, Try(j, c, false, retry), disk.(cache := Some([])), Backup(j, c, 0));
      var k := 0;
      while k < |c|
        invariant 0 <= k <= |c| && At(env, jobs, Backup(j, c, k)) && old(tr) <= tr && old(calls) <= calls
        invariant disk == old(disk).(cache := Some(c[..k]))
      {
        var short := Fails(Saving);
        if short {
          Do(env, jobs, Backup(j, c, k), disk, Stopped(false));
          return false;
        }
        Do(env, jobs, Backup(j, c, k), disk.(cache := Some(c[..k + 1])), Backup(j, c, k + 1));
        k := k + 1;
      }
      assert c[..k] == c;
      Do(env, jobs, Backup(j, c, k), disk, Saved(j, c));
      var kept := Fails(Deleting);
      Do(env, jobs, Saved(j, c), if kept then disk else disk.(files := disk.files[j := None]),
         Writing(j, c, false, 0, true));
      ok := true;
    }

    /** Opening the output file and applying the patch, by its format.  `stopped` is set if that ends the call. */
    method WriteTarget(env: Env, jobs: seq<Job>, j: nat, c: bytes, use: nat, fromCopy: bool, retry: nat,
                       ghost made: bool)
      returns (stopped: bool, r: Outcome<bytes>)
      requires j < |jobs| && At(env, jobs, Writing(j, c, fromCopy, retry, made))
      requires PatchIndex(env, jobs[j], c) == Some(use) && use < |jobs[j].blobs|
      modifies this
      ensures old(tr) <= tr && (stopped ==> r.Failed?) && (!stopped && r.Failed? ==> Known(env, jobs[j], c))
      ensures At(env, jobs, if stopped then Stopped(false) else match r
                                                                case Done(out) => Made(j, c, fromCopy, made, out)
                                                                case Failed => Writing(j, c, fromCopy, retry, made)
                                                                case _ => Lost)
      ensures old(calls) <= calls && disk.cache == old(disk.cache)
      ensures Calm() && Produce(env, jobs[j], c).Done? ==>
                !stopped && (r == Produce(env, jobs[j], c) || (r.Failed? && Short(old(calls), calls)))
    {
      hide Run, Next, PatchIndex, IsBsDiff, IsImgDiff;
      ghost var pc := Writing(j, c, fromCopy, retry, made);
      var bad := Fails(Opening);
      WritingStops(env, jobs, disk, j, c, fromCopy, retry, made);
      if bad {
        Do(env, jobs, pc, disk, Stopped(false));
        return true, Failed;
      }
      WritingAny(env, jobs, disk, j, c, fromCopy, retry, made, []);
      Do(env, jobs, pc, disk.(temps := disk.temps[j := Some([])]), pc);
      var blob := jobs[j].blobs[use];
      if IsBsDiff(blob) {
        r := env.bsdiff(c, blob);
      } else if IsImgDiff(blob) {
        r := env.imgdiff(c, blob);
      } else {
        WritingStops(env, jobs, disk, j, c, fromCopy, retry, made);
        Do(env, jobs, pc, disk, Stopped(false));
        return true, Failed;
      }
      stopped := false;
      var short := Fails(Output);
      if r.Done? && short {
        WritingAny(env, jobs, disk, j, c, fromCopy, retry, made, r.value[..|r.value| / 2]);
        Do(env, jobs, pc, disk.(temps := disk.temps[j := Some(r.value[..|r.value| / 2])]), pc);
        r := Failed;
      } else if r.Done? {
        WritingDone(env, jobs, disk, j, c, fromCopy, retry, made, r.value);
        Do(env, jobs, pc, disk.(temps := disk.temps[j := Some(r.value)]), Made(j, c, fromCopy, made, r.value));
      } else if !r.Failed? {
        WritingLost(env, jobs, disk, j, c, fromCopy, retry, made);
        Do(env, jobs, pc, disk, Lost);
      }
    }

    /** The check of the hash, the rename, and the removal of the backup. */
    method Finish(env: Env, jobs: seq<Job>, j: nat, ghost c: bytes, ghost fromCopy: bool, made: bool, out: bytes)
      returns (ok: bool)
      requires j < |jobs| && At(env, jobs, Made(j, c, fromCopy, made, out))
      modifies this
      ensures At(env, jobs, if ok then Enter(j + 1) else Stopped(false)) && old(tr) <= tr
      ensures old(calls) <= calls && (Calm() && IsTarget(env, jobs[j], out) ==> ok)
      ensures Calm() && ok ==> disk.cache == if made then None else old(disk.cache)
    {
      hide Run, TryStep, EnterStep, WritingStep, BackupStep, SavedStep, Parsed;
      var target := ParseSha1(jobs[j].target);
      if target != Some(env.sha(out)) {
        Do(env, jobs, Made(j, c, fromCopy, made, out), disk, Stopped(false));
        return false;
      }
      Do(env, jobs, Made(j, c, fromCopy, made, out), disk, Ready(j, c, fromCopy, made, out));
      var bad := Fails(Renaming);
      if bad {
        Do(env, jobs, Ready(j, c, fromCopy, made, out), disk, Stopped(false));
        return false;
      }
      Do(env, jobs, Ready(j, c, fromCopy, made, out),
         disk.(files := disk.files[j := disk.temps[j]], temps := disk.temps[j := None]), Renamed(j, made));
      var kept := Fails(Deleting);
      Do(env, jobs, Renamed(j, made), if made && !kept then disk.(cache := None) else disk, Enter(j + 1));
      ok := true;
    }

    /** Looks for space; without it a source in place is backed up and deleted.  `left` is the number of retries
        that remain. */
    method Prepare(env: Env, jobs: seq<Job>, j: nat, c: bytes, fromCopy: bool, retry: nat)
      returns (ok: bool, made: bool, left: nat)
      requires j < |jobs| && At(env, jobs, Try(j, c, fromCopy, retry))
      modifies this
      ensures old(tr) <= tr && old(calls) <= calls && (Calm() ==> ok)
      ensures At(env, jobs, if ok then Writing(j, c, fromCopy, left, made) else Stopped(false))
      ensures var enough := retry > 0 && Enough(room(old(calls)), jobs[j].size);
              left == (if enough then retry else 0) && made == (!enough && !fromCopy)
      ensures !made ==> disk.cache == old(disk.cache)
    {
      hide Run, Next;
      var enough := false;
      if retry > 0 {
        var free := FreeSpace();
        enough := free > 0x4_0000 && free > jobs[j].size * 3 / 2;
      }
      left := if enough then retry else 0;
      made := !enough && !fromCopy;
      if made {
        ok := BackUp(env, jobs, j, c, retry);
      } else {
        TryWrites(env, jobs, disk, j, c, fromCopy, retry, enough);
        Do(env, jobs, Try(j, c, fromCopy, retry), disk, Writing(j, c, fromCopy, left, false));
        ok := true;
      }
    }

    /** One round of the retry loop. */
    method Attempt(env: Env, jobs: seq<Job>, j: nat, c: bytes, use: nat, fromCopy: bool, retry: nat)
      returns (again: bool, e: Ending)
      requires j < |jobs| && At(env, jobs, Try(j, c, fromCopy, retry))
      requires PatchIndex(env, jobs[j], c) == Some(use) && use < |jobs[j].blobs|
      modifies this
      ensures old(tr) <= tr && old(calls) <= calls && (again ==> retry > 0)
      ensures At(env, jobs, if again then Try(j, c, fromCopy, 0) else EndPc(e, j))
      ensures Calm() && Good(env, jobs[j]) ==> (!again && e.Success?) || Short(old(calls), calls)
      ensures Calm() && Good(env, jobs[j]) && retry > 0 && Plenty(room, jobs[j].size) ==> again || e.Success?
      ensures Sane() && Good(env, jobs[j]) && retry > 0 ==>
                disk.cache == if fromCopy || Enough(room(old(calls)), jobs[j].size) then old(disk.cache) else None
    {
      hide Run, Next, PatchIndex, Good, Produce, IsTarget;
      GoodOutput(env, jobs[j], c);
      var ready, made, left := Prepare(env, jobs, j, c, fromCopy, retry);
      if !ready { return false, Failure; }
      var stopped, r := WriteTarget(env, jobs, j, c, use, fromCopy, left, made);
      if stopped { return false, Failure; }
      if r.Done? {
        var ok := Finish(env, jobs, j, c, fromCopy, made, r.value);
        return false, if ok then Success else Failure;
      }
      if !r.Failed? { return false, Never; }
      if left == 0 {
        WritingStops(env, jobs, disk, j, c, fromCopy, left, made);
        Do(env, jobs, Writing(j, c, fromCopy, left, made), disk, Stopped(false));
        return false, Failure;
      }
      WritingRetries(env, jobs, disk, j, c, fromCopy, left, made);
      Do(env, jobs, Writing(j, c, fromCopy, left, made), disk.(temps := disk.temps[j := None]), Try(j, c, fromCopy, 0));
      return true, Failure;
    }

    /** `GenerateTarget` */
    method GenerateTarget(env: Env, jobs: seq<Job>, j: nat, c: bytes, use: nat, fromCopy: bool) returns (e: Ending)
      requires j < |jobs| && At(env, jobs, Try(j, c, fromCopy, 1))
      requires PatchIndex(env, jobs[j], c) == Some(use) && use < |jobs[j].blobs|
      modifies this
      ensures At(env, jobs, EndPc(e, j)) && old(tr) <= tr
      ensures Bearable(jobs[j].size) && Good(env, jobs[j]) ==> e.Success?
      ensures Sane() && Good(env, jobs[j]) ==>
                disk.cache == if fromCopy || Enough(room(old(calls)), jobs[j].size) then old(disk.cache) else None
    {
      hide Run, PatchIndex, Good;
      var retry: nat, again := 1, true;
      e := Failure;
      ghost var start := calls;
      while again
        invariant old(tr) <= tr && start <= calls && retry <= 1
        invariant At(env, jobs, if again then Try(j, c, fromCopy, retry) else EndPc(e, j))
        invariant again && retry == 1 ==> disk == old(disk) && calls == start
        invariant again && retry == 0 && Calm() && Good(env, jobs[j]) ==> Short(start, calls)
        invariant !again && Bearable(jobs[j].size) && Good(env, jobs[j]) ==> e.Success?
        invariant !again && Sane() && Good(env, jobs[j]) ==>
                    disk.cache == if fromCopy || Enough(room(start), jobs[j].size) then old(disk.cache) else None
        decreases again, retry
      {
        ghost var from := calls;
        again, e := Attempt(env, jobs, j, c, use, fromCopy, retry);
        if Bearable(jobs[j].size) { ShortOnce(start, from, calls); }
        if again { retry := 0; }
      }
    }

    /** The output is not cut short twice, nor at all if nothing fails. */
    lemma ShortOnce(a: nat, b: nat, c: nat)
      ensures Sane() ==> Calm() && !Short(a, b) && !Short(b, c)
      ensures Once(fault) ==> !(Short(a, b) && Short(b, c))
    {
    }

    /** The script: one call after the other, until one fails. */
    method Script(env: Env, jobs: seq<Job>) returns (e: Ending)
      requires At(env, jobs, Idle) && forall j :: 0 <= j < |jobs| ==> |jobs[j].hashes| == |jobs[j].blobs|
      modifies this
      ensures At(env, jobs, if e.Never? then Lost else Stopped(e.Success?)) && old(tr) <= tr
      ensures AllBearable(jobs) && AllGood(env, jobs) && Distinct(jobs) && Inv(env, jobs, old(tr)[0]) ==> e.Success?
      ensures Sane() && AllGood(env, jobs) && e.Success? ==> disk.cache == old(disk.cache) || disk.cache == None
    {
      hide Run, EnterStep, WritingStep, TryStep, BackupStep, SavedStep, MadeStep, ReadyStep, RenamedStep, Inv, Decide,
           Distinct, Good;
      Do(env, jobs, Idle, disk, Enter(0));
      var j := 0;
      while j < |jobs|
        invariant 0 <= j <= |jobs| && At(env, jobs, Enter(j)) && old(tr) <= tr && old(tr) != []
        invariant Sane() && AllGood(env, jobs) ==> disk.cache == old(disk.cache) || disk.cache == None
      {
        if AllGood(env, jobs) && Distinct(jobs) && Inv(env, jobs, tr[0]) { SourceAtHand(env, jobs, tr, j); }
        e := ApplyPatchCall(env, jobs, j);
        if !e.Success? { return; }
        j := j + 1;
      }
      AllCalled(env, jobs, disk, j);
      Do(env, jobs, Enter(j), disk, Stopped(true));
      e := Success;
    }
  }

  ghost predicate NoFault(fault: (Call, nat) -> bool) {
    forall call, t :: !fault(call, t)
  }

  ghost predicate OutputOnly(fault: (Call, nat) -> bool) {
    forall call, t :: fault(call, t) ==> call == Output
  }

  ghost predicate Once(fault: (Call, nat) -> bool) {
    forall t, u :: fault(Output, t) && fault(Output, u) ==> t == u
  }

  ghost predicate Plenty(room: nat -> nat, size: nat) {
    forall t :: Enough(room(t), size)
  }

  ghost predicate PlentyForAll(room: nat -> nat, jobs: seq<Job>) {
    forall j :: 0 <= j < |jobs| ==> Plenty(room, jobs[j].size)
  }

  lemma GoodOutput(env: Env, job: Job, c: bytes)
    requires PatchIndex(env, job, c).Some?
    ensures Good(env, job) ==> Produce(env, job, c).Done? && IsTarget(env, job, Produce(env, job, c).value)
  {
    hide Parsed;
    assert Accepted(env, job, c);
  }

  /** In a run of the protocol a call finds a source. */
  lemma SourceAtHand(env: Env, jobs: seq<Job>, tr: seq<State>, j: nat)
    requires AllGood(env, jobs) && Distinct(jobs) && Run(env, jobs, tr) && Inv(env, jobs, tr[0])
    requires j < |jobs| && tr[|tr| - 1].pc == Enter(j)
    ensures var d := tr[|tr| - 1].disk;
            WfDisk(jobs, d) && !Decide(env, jobs[j], j, d.files[j], d.files[j], d.cache).Stopped?
  {
    hide Next, Distinct, Decide, RecoverableFrom, AllDone, Good;
    RunKeeps(env, jobs, tr, |tr| - 1);
    DecideFinds(env, jobs, tr[|tr| - 1].disk, j);
  }

  lemma AllCalled(env: Env, jobs: seq<Job>, d: Disk, j: nat)
    requires j == |jobs|
    ensures Next(env, jobs, State(d, Enter(j)), State(d, Stopped(true)))
  {
    hide TryStep, WritingStep, BackupStep, SavedStep, MadeStep, ReadyStep, RenamedStep;
    assert EnterStep(env, jobs, State(d, Enter(j)), State(d, Stopped(true)));
  }

  /** With enough space, or with the backup as the source, the patch is applied. */
  lemma TryWrites(env: Env, jobs: seq<Job>, d: Disk, j: nat, c: bytes, fromCopy: bool, retry: nat, enough: bool)
    requires if enough then retry > 0 else fromCopy
    ensures Next(env, jobs, State(d, Try(j, c, fromCopy, retry)),
                 State(d, Writing(j, c, fromCopy, if enough then retry else 0, false)))
  {
    hide EnterStep, WritingStep, BackupStep, SavedStep, MadeStep, ReadyStep, RenamedStep;
    assert TryStep(State(d, Try(j, c, fromCopy, retry)),
                   State(d, Writing(j, c, fromCopy, if enough then retry else 0, false)));
  }

  lemma WritingStops(env: Env, jobs: seq<Job>, d: Disk, j: nat, c: bytes, fromCopy: bool, retry: nat, made: bool)
    requires j < |d.temps| && j < |jobs|
    ensures Next(env, jobs, State(d, Writing(j, c, fromCopy, retry, made)), State(d, Stopped(false)))
  {
    hide EnterStep, TryStep, BackupStep, SavedStep, MadeStep, ReadyStep, RenamedStep, Produce, Known;
    assert WritingStep(env, jobs, State(d, Writing(j, c, fromCopy, retry, made)), State(d, Stopped(false)));
  }

  /** Until it is complete, the output file may hold anything. */
  lemma WritingAny(env: Env, jobs: seq<Job>, d: Disk, j: nat, c: bytes, fromCopy: bool, retry: nat, made: bool,
                   t: bytes)
    requires j < |d.temps| && j < |jobs|
    ensures var pc := Writing(j, c, fromCopy, retry, made);
            Next(env, jobs, State(d, pc), State(d.(temps := d.temps[j := Some(t)]), pc))
  {
    hide EnterStep, TryStep, BackupStep, SavedStep, MadeStep, ReadyStep, RenamedStep, Produce, Known;
    var pc := Writing(j, c, fromCopy, retry, made);
    assert WritingStep(env, jobs, State(d, pc), State(d.(temps := d.temps[j := Some(t)]), pc));
  }

  lemma WritingDone(env: Env, jobs: seq<Job>, d: Disk, j: nat, c: bytes, fromCopy: bool, retry: nat, made: bool,
                    out: bytes)
    requires j < |d.temps| && j < |jobs| && Produce(env, jobs[j], c) == Done(out)
    ensures Next(env, jobs, State(d, Writing(j, c, fromCopy, retry, made)),
                 State(d.(temps := d.temps[j := Some(out)]), Made(j, c, fromCopy, made, out)))
  {
    hide EnterStep, TryStep, BackupStep, SavedStep, MadeStep, ReadyStep, RenamedStep, Produce, Known;
    assert WritingStep(env, jobs, State(d, Writing(j, c, fromCopy, retry, made)),
                       State(d.(temps := d.temps[j := Some(out)]), Made(j, c, fromCopy, made, out)));
  }

  lemma WritingLost(env: Env, jobs: seq<Job>, d: Disk, j: nat, c: bytes, fromCopy: bool, retry: nat, made: bool)
    requires j < |d.temps| && j < |jobs| && !Produce(env, jobs[j], c).Done? && !Produce(env, jobs[j], c).Failed?
    ensures Next(env, jobs, State(d, Writing(j, c, fromCopy, retry, made)), State(d, Lost))
  {
    hide EnterStep, TryStep, BackupStep, SavedStep, MadeStep, ReadyStep, RenamedStep, Produce, Known;
    assert WritingStep(env, jobs, State(d, Writing(j, c, fromCopy, retry, made)), State(d, Lost));
  }

  /** A patch of a known format that fails is tried again if it was the first attempt. */
  lemma WritingRetries(env: Env, jobs: seq<Job>, d: Disk, j: nat, c: bytes, fromCopy: bool, retry: nat, made: bool)
    requires j < |d.temps| && j < |jobs| && retry > 0 && Known(env, jobs[j], c)
    ensures Next(env, jobs, State(d, Writing(j, c, fromCopy, retry, made)),
                 State(d.(temps := d.temps[j := None]), Try(j, c, fromCopy, 0)))
  {
    hide EnterStep, TryStep, BackupStep, SavedStep, MadeStep, ReadyStep, RenamedStep, Produce, Known;
    assert WritingStep(env, jobs, State(d, Writing(j, c, fromCopy, retry, made)),
                       State(d.(temps := d.temps[j := None]), Try(j, c, fromCopy, 0)));
  }

  lemma RunMore(env: Env, jobs: seq<Job>, tr: seq<State>, s: State)
    requires Run(env, jobs, tr) && Next(env, jobs, tr[|tr| - 1], s)
    ensures Run(env, jobs, tr + [s])
  {
    hide Next;
    var all := tr + [s];
    forall i | 0 <= i < |all| - 1 ensures NextAt(env, jobs, all, i) {
      if i < |tr| - 1 { assert NextAt(env, jobs, tr, i); }
    }
  }

  /** What the start of a call decides is a step. */
  lemma Decided(env: Env, jobs: seq<Job>, s: State, file: Option<bytes>, again: Option<bytes>, cache: Option<bytes>)
    requires s.pc.Enter? && s.pc.job < |jobs| && WfDisk(jobs, s.disk)
    requires MayRead(s.disk.files[s.pc.job], file) && MayRead(s.disk.files[s.pc.job], again)
    requires MayRead(s.disk.cache, cache)
    ensures Next(env, jobs, s, State(s.disk, Decide(env, jobs[s.pc.job], s.pc.job, file, again, cache)))
  {
    hide Decide, WritingStep, TryStep, BackupStep, SavedStep, MadeStep, ReadyStep, RenamedStep;
    assert EnterStep(env, jobs, s, State(s.disk, Decide(env, jobs[s.pc.job], s.pc.job, file, again, cache)));
  }

  /** A script that is started on a recoverable disk (a fresh one is, and so is any that an interrupted run leaves),
      whatever fails on the way and wherever it stops: every state the device passed through is recoverable, and
      success means that every file is patched.  With good patches it succeeds if no call fails, whatever the space,
      and leaves no backup of its own; and also if there is space and one output is cut short. */
  method RunOnce(env: Env, jobs: seq<Job>, d: Disk, fault: (Call, nat) -> bool, room: nat -> nat)
    returns (e: Ending, d': Disk, ghost tr: seq<State>)
    requires WfDisk(jobs, d) && Recoverable(env, jobs, d) && Distinct(jobs)
    requires forall j :: 0 <= j < |jobs| ==> |jobs[j].hashes| == |jobs[j].blobs|
    ensures tr != [] && tr[0].disk == d && tr[|tr| - 1].disk == d'
    ensures forall i :: 0 <= i < |tr| ==> WfDisk(jobs, tr[i].disk) && Recoverable(env, jobs, tr[i].disk)
    ensures e.Success? ==> AllDone(env, jobs, d', |jobs|)
    ensures NoFault(fault) && AllGood(env, jobs) ==> e.Success? && (d'.cache == d.cache || d'.cache == None)
    ensures OutputOnly(fault) && Once(fault) && PlentyForAll(room, jobs) && AllGood(env, jobs) ==> e.Success?
  {
    hide Next, Distinct, Recoverable, AllDone, RestFine, AllGood;
    assert Inv(env, jobs, State(d, Idle)) by { RestartKeeps(env, jobs, State(d, Idle), State(d, Idle)); }
    var dev := new Device(env, jobs, d, fault, room);
    e := dev.Script(env, jobs);
    d', tr := dev.disk, dev.tr;
    forall i | 0 <= i < |tr|
      ensures WfDisk(jobs, tr[i].disk) && Recoverable(env, jobs, tr[i].disk)
      ensures tr[i].pc == Stopped(true) ==> AllDone(env, jobs, tr[i].disk, |jobs|)
    {
      RunKeeps(env, jobs, tr, i);
      InvRecoverable(env, jobs, tr[i]);
    }
  }
}
