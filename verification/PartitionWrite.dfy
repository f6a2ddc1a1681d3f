/** Writing an EMMC partition and verifying it (applypatch/applypatch.c). */
module PartitionWrite {
  import opened Suffixes

  /** What the system calls on the device do, by their number: whether a call fails, how many bytes it transfers, and
      what the device then holds where bytes were written, which may also depend on the attempt. */
  datatype Medium = Medium(fails: nat -> bool, count: nat -> nat, store: (nat, nat, bytes) -> bytes) {
    ghost predicate NeverFails() { forall t :: !fails(t) }

    /** On this attempt the device stores what it is given. */
    ghost predicate Faithful(attempt: nat) { forall t, b :: Stored(attempt, t, b) == b }

    /** At least one byte, and no more than asked for. */
    function Transferred(t: nat, want: nat): (n: nat)
      requires want > 0
      ensures 0 < n <= want
    {
      if 0 < count(t) <= want then count(t) else want
    }

    function Stored(attempt: nat, t: nat, b: bytes): (r: bytes)
      ensures |r| == |b|
    {
      if |store(attempt, t, b)| == |b| then store(attempt, t, b) else b
    }
  }

  const WRITE_SIZE: nat := 0x100000
  const BUFFER_SIZE: nat := 4096

  // ----- writing -----

  /** How an operation ends: its result, what the device holds, and the number of the next system call. */
  datatype Written = Written(ok: bool, dev: bytes, t: nat)

  function Put(dev: bytes, p: nat, b: bytes): (r: bytes)
    requires p + |b| <= |dev|
    ensures |r| == |dev| && forall k :: 0 <= k < |dev| ==> r[k] == if p <= k < p + |b| then b[k - p] else dev[k]
  {
    dev[..p] + b + dev[p + |b|..]
  }

  /** How much the next write call is asked for, and has room for. */
  function Room(size: nat, len: nat, start: nat): (n: nat)
    requires start < len
    ensures start + n <= len && (n > 0 ==> start + n <= size) && (len <= size ==> n > 0)
  {
    var want := if len - start > WRITE_SIZE then WRITE_SIZE else len - start;
    if start >= size then 0 else if size - start < want then size - start else want
  }

  /** The write loop from `start` to the end of the data. */
  function WriteAll(m: Medium, attempt: nat, dev: bytes, data: bytes, start: nat, t: nat): (r: Written)
    requires start <= |data|
    ensures |r.dev| == |dev|
    decreases |data| - start
  {
    if start == |data| then Written(true, dev, t)
    else
      var room := Room(|dev|, |data|, start);
      if m.fails(t) || room == 0 then Written(false, dev, t + 1)
      else
        var n := m.Transferred(t, room);
        WriteAll(m, attempt, Put(dev, start, m.Stored(attempt, t, data[start..start + n])), data, start + n, t + 1)
  }

  /** Only the range from `start` to the end of the data is written; it ends up as the data if the device stores what
      it is given; and nothing but a failing call or a short device stops it. */
  ghost predicate InRange(m: Medium, attempt: nat, dev: bytes, data: bytes, start: nat, r: Written) {
    && |r.dev| == |dev|
    && (forall k :: 0 <= k < |dev| && !(start <= k < |data|) ==> r.dev[k] == dev[k])
    && (r.ok && start < |data| ==> |data| <= |dev|)
    && (r.ok && m.Faithful(attempt) ==> forall k :: start <= k < |data| ==> k < |dev| && r.dev[k] == data[k])
    && (m.NeverFails() && |data| <= |dev| ==> r.ok)
  }

  lemma {:induction false} WritesRange(m: Medium, attempt: nat, dev: bytes, data: bytes, start: nat, t: nat)
    requires start <= |data|
    ensures InRange(m, attempt, dev, data, start, WriteAll(m, attempt, dev, data, start, t))
    decreases |data| - start
  {
    hide WriteAll, Room, Put, InRange;
    if start == |data| {
      WriteDone(m, attempt, dev, data, t);
      DoneInRange(m, attempt, dev, data, t);
    } else {
      var room := Room(|dev|, |data|, start);
      WriteStep(m, attempt, dev, data, start, t);
      if m.fails(t) || room == 0 {
        FailedInRange(m, attempt, dev, data, start, t);
      } else {
        var n := m.Transferred(t, room);
        var b := m.Stored(attempt, t, data[start..start + n]);
        WritesRange(m, attempt, Put(dev, start, b), data, start + n, t + 1);
        MoreInRange(m, attempt, dev, data, start, n, b, WriteAll(m, attempt, Put(dev, start, b), data, start + n, t + 1));
      }
    }
  }

  lemma DoneInRange(m: Medium, attempt: nat, dev: bytes, data: bytes, t: nat)
    ensures InRange(m, attempt, dev, data, |data|, Written(true, dev, t))
  {
  }

  lemma FailedInRange(m: Medium, attempt: nat, dev: bytes, data: bytes, start: nat, t: nat)
    requires start < |data| && (m.fails(t) || Room(|dev|, |data|, start) == 0)
    ensures InRange(m, attempt, dev, data, start, Written(false, dev, t + 1))
  {
  }

  lemma MoreInRange(m: Medium, attempt: nat, dev: bytes, data: bytes, start: nat, n: nat, b: bytes, r: Written)
    requires 0 < n == |b| && start + n <= |data| && start + n <= |dev|
    requires m.Faithful(attempt) ==> b == data[start..start + n]
    requires InRange(m, attempt, Put(dev, start, b), data, start + n, r)
    ensures InRange(m, attempt, dev, data, start, r)
  {
    hide Put, Medium.Faithful, Medium.NeverFails;
    if r.ok && m.Faithful(attempt) {
      forall k | start <= k < |data|
        ensures k < |dev| && r.dev[k] == data[k]
      {
        if k < start + n { assert r.dev[k] == b[k - start]; }
      }
    }
  }

  /** One `write` call at position p: the device now holds what it made of the bytes. */
  method WriteAt(dev: array<byte>, p: nat, b: bytes)
    requires p + |b| <= dev.Length
    modifies dev
    ensures dev[..] == Put(old(dev[..]), p, b)
  {
    forall k | p <= k < p + |b| { dev[k] := b[k - p]; }
  }

  lemma WriteStep(m: Medium, attempt: nat, dev: bytes, data: bytes, start: nat, t: nat)
    requires start < |data|
    ensures var room := Room(|dev|, |data|, start);
            if m.fails(t) || room == 0 then WriteAll(m, attempt, dev, data, start, t) == Written(false, dev, t + 1)
            else
              var n := m.Transferred(t, room);
              var dev' := Put(dev, start, m.Stored(attempt, t, data[start..start + n]));
              WriteAll(m, attempt, dev, data, start, t) == WriteAll(m, attempt, dev', data, start + n, t + 1)
  {
    hide Put, Room;
  }

  lemma WriteDone(m: Medium, attempt: nat, dev: bytes, data: bytes, t: nat)
    ensures WriteAll(m, attempt, dev, data, |data|, t) == Written(true, dev, t)
  {
  }

  /** The write loop. */
  method WriteFrom(m: Medium, attempt: nat, dev: array<byte>, data: bytes, from: nat, t0: nat)
    returns (ok: bool, t: nat)
    requires from <= |data|
    modifies dev
    ensures Written(ok, dev[..], t) == WriteAll(m, attempt, old(dev[..]), data, from, t0)
  {
    hide Put, WriteAll;
    t := t0;
    var start := from;
    while start < |data|
      invariant from <= start <= |data|
      invariant WriteAll(m, attempt, dev[..], data, start, t) == WriteAll(m, attempt, old(dev[..]), data, from, t0)
    {
      var want := if |data| - start > WRITE_SIZE then WRITE_SIZE else |data| - start;
      var room := if start >= dev.Length then 0 else if dev.Length - start < want then dev.Length - start else want;
      WriteStep(m, attempt, dev[..], data, start, t);
      if m.fails(t) || room == 0 { return false, t + 1; }
      var n := m.Transferred(t, room);
      WriteAt(dev, start, m.Stored(attempt, t, data[start..start + n]));
      start := start + n;
      t := t + 1;
    }
    WriteDone(m, attempt, dev[..], data, t);
    ok := true;
  }

  // ----- verifying -----

  /** How reading n bytes ends, with `got` of them read: whether it succeeds, and the next system call. */
  function ReadEnd(m: Medium, n: nat, got: nat, t: nat): (r: (bool, nat))
    requires got <= n
    decreases n - got
  {
    if got == n then (true, t)
    else if m.fails(t) then (false, t + 1)
    else ReadEnd(m, n, got + m.Transferred(t, n - got), t + 1)
  }

  lemma {:induction false} ReadsOn(m: Medium, n: nat, got: nat, t: nat)
    requires got <= n && m.NeverFails()
    ensures ReadEnd(m, n, got, t).0
    decreases n - got
  {
    if got < n { ReadsOn(m, n, got + m.Transferred(t, n - got), t + 1); }
  }

  /** The inner read loop: n bytes at position p. */
  method ReadAt(m: Medium, dev: array<byte>, p: nat, n: nat, t0: nat) returns (ok: bool, buffer: bytes, t: nat)
    requires p + n <= dev.Length
    ensures (ok, t) == ReadEnd(m, n, 0, t0)
    ensures ok ==> buffer == dev[p..p + n]
  {
    t, buffer := t0, [];
    while |buffer| < n
      invariant |buffer| <= n && buffer == dev[p..p + |buffer|]
      invariant ReadEnd(m, n, |buffer|, t) == ReadEnd(m, n, 0, t0)
      decreases n - |buffer|
    {
      if m.fails(t) { return false, buffer, t + 1; }
      var c := m.Transferred(t, n - |buffer|);
      assert dev[p..p + |buffer| + c] == dev[p..p + |buffer|] + dev[p + |buffer|..p + |buffer| + c];
      buffer := buffer + dev[p + |buffer|..p + |buffer| + c];
      t := t + 1;
    }
    ok := true;
  }

  /** How the verification ends: `start` is the first bad block, or the length of the data. */
  datatype Verified = Verified(ok: bool, start: nat, t: nat)

  function BlockEnd(len: nat, p: nat): (e: nat)
    requires p <= len
    ensures p <= e <= len && (p < len ==> p < e <= p + BUFFER_SIZE)
  {
    if len - p > BUFFER_SIZE then p + BUFFER_SIZE else len
  }

  /** The verification from block p on. */
  function VerifyAll(m: Medium, dev: bytes, data: bytes, p: nat, t: nat): (r: Verified)
    requires p <= |data| <= |dev|
    decreases |data| - p
  {
    if p == |data| then Verified(true, p, t)
    else
      var e := BlockEnd(|data|, p);
      var read := ReadEnd(m, e - p, 0, t);
      if !read.0 then Verified(false, |data|, read.1)
      else if dev[p..e] != data[p..e] then Verified(true, p, read.1)
      else VerifyAll(m, dev, data, e, read.1)
  }

  /** The block that starts at p, and nothing before it, differs from the data. */
  ghost predicate FirstBad(dev: bytes, data: bytes, p: nat) {
    && p < |data| <= |dev| && p % BUFFER_SIZE == 0 && dev[..p] == data[..p]
    && exists k :: p <= k < |data| && k < p + BUFFER_SIZE && dev[k] != data[k]
  }

  lemma {:induction false} FindsBad(m: Medium, dev: bytes, data: bytes, p: nat, t: nat)
    requires p <= |data| <= |dev| && dev[..p] == data[..p] && (p % BUFFER_SIZE == 0 || p == |data|)
    ensures var r := VerifyAll(m, dev, data, p, t);
            && (r.ok && r.start == |data| ==> dev[..|data|] == data)
            && (r.ok && r.start != |data| ==> FirstBad(dev, data, r.start))
            && (m.NeverFails() ==> r.ok)
    decreases |data| - p
  {
    if p == |data| {
      assert data[..p] == data;
    } else {
      var e := BlockEnd(|data|, p);
      var read := ReadEnd(m, e - p, 0, t);
      if m.NeverFails() { ReadsOn(m, e - p, 0, t); }
      if dev[p..e] != data[p..e] {
        var i := Difference(dev[p..e], data[p..e]);
        assert dev[p + i] != data[p + i];
      } else {
        assert dev[..e] == dev[..p] + dev[p..e] && data[..e] == data[..p] + data[p..e];
        FindsBad(m, dev, data, e, read.1);
      }
    }
  }

  lemma Difference(a: bytes, b: bytes) returns (i: nat)
    requires |a| == |b| && a != b
    ensures i < |a| && a[i] != b[i]
  {
    i :| i < |a| && a[i] != b[i];
  }

  /** The verification pass. */
  method Verify(m: Medium, dev: array<byte>, data: bytes, t0: nat) returns (ok: bool, start: nat, t: nat)
    requires |data| <= dev.Length
    ensures Verified(ok, start, t) == VerifyAll(m, dev[..], data, 0, t0)
  {
    start, t, ok := |data|, t0, true;
    var p: nat := 0;
    while p < |data|
      invariant VerifyAll(m, dev[..], data, if p < |data| then p else |data|, t) == VerifyAll(m, dev[..], data, 0, t0)
    {
      var n := if |data| - p > BUFFER_SIZE then BUFFER_SIZE else |data| - p;
      var buffer;
      ok, buffer, t := ReadAt(m, dev, p, n, t);
      if !ok { return false, start, t; }
      assert dev[p..p + n] == dev[..][p..p + n];
      if buffer != data[p..p + n] { return true, p, t; }
      p := p + BUFFER_SIZE;
    }
  }

  // ----- both attempts -----

  /** The attempts from `attempt` on, which writes from `start`. */
  function Attempts(m: Medium, attempt: nat, dev: bytes, data: bytes, start: nat, t: nat): (r: Written)
    requires start < |data| || (start == 0 && data == [])
    ensures |r.dev| == |dev|
    decreases 2 - attempt
  {
    if attempt >= 2 then Written(false, dev, t)
    else
      var w := WriteAll(m, attempt, dev, data, start, t);
      WritesRange(m, attempt, dev, data, start, t);
      if !w.ok then w
      else
        var v := VerifyAll(m, w.dev, data, 0, w.t);
        if !v.ok || v.start >= |data| then Written(v.ok, w.dev, v.t)
        else Attempts(m, attempt + 1, w.dev, data, v.start, v.t)
  }

  /** Success means that the device holds the data, and nothing beyond the data is changed. */
  lemma {:induction false} AttemptsHold(m: Medium, attempt: nat, dev: bytes, data: bytes, start: nat, t: nat)
    requires start < |data| || (start == 0 && data == [])
    ensures var r := Attempts(m, attempt, dev, data, start, t);
            && (r.ok ==> |data| <= |dev| && r.dev[..|data|] == data)
            && (forall k :: |data| <= k < |dev| ==> r.dev[k] == dev[k])
    decreases 2 - attempt
  {
    hide WriteAll, VerifyAll;
    if attempt < 2 {
      var w := WriteAll(m, attempt, dev, data, start, t);
      WritesRange(m, attempt, dev, data, start, t);
      if w.ok {
        var v := VerifyAll(m, w.dev, data, 0, w.t);
        FindsBad(m, w.dev, data, 0, w.t);
        VerifyBounds(m, w.dev, data, 0, w.t);
        if v.ok && v.start < |data| { AttemptsHold(m, attempt + 1, w.dev, data, v.start, v.t); }
      }
    }
  }

  lemma {:induction false} VerifyBounds(m: Medium, dev: bytes, data: bytes, p: nat, t: nat)
    requires p <= |data| <= |dev|
    ensures p <= VerifyAll(m, dev, data, p, t).start <= |data|
    decreases |data| - p
  {
    if p < |data| {
      var e := BlockEnd(|data|, p);
      var read := ReadEnd(m, e - p, 0, t);
      if read.0 && dev[p..e] == data[p..e] { VerifyBounds(m, dev, data, e, read.1); }
    }
  }

  /** An attempt on which the device stores what it is given succeeds, if no call fails and what lies before `start` is
      good. */
  lemma FaithfulSucceeds(m: Medium, attempt: nat, dev: bytes, data: bytes, start: nat, t: nat)
    requires start < |data| || (start == 0 && data == [])
    requires attempt < 2 && m.NeverFails() && m.Faithful(attempt)
    requires |data| <= |dev| && dev[..start] == data[..start]
    ensures Attempts(m, attempt, dev, data, start, t).ok
  {
    hide WriteAll, VerifyAll;
    var w := WriteAll(m, attempt, dev, data, start, t);
    WritesRange(m, attempt, dev, data, start, t);
    forall k | 0 <= k < |data| ensures w.dev[k] == data[k] {
      if k < start { assert dev[..start][k] == data[..start][k]; }
    }
    FindsBad(m, w.dev, data, 0, w.t);
    VerifyBounds(m, w.dev, data, 0, w.t);
  }

  /** Whatever the first attempt leaves, a faithful second one succeeds: it writes from the first bad block on. */
  lemma SecondSucceeds(m: Medium, dev: bytes, data: bytes)
    requires m.NeverFails() && m.Faithful(1) && |data| <= |dev|
    ensures Attempts(m, 0, dev, data, 0, 0).ok
  {
    hide WriteAll, VerifyAll;
    var w := WriteAll(m, 0, dev, data, 0, 0);
    WritesRange(m, 0, dev, data, 0, 0);
    var v := VerifyAll(m, w.dev, data, 0, w.t);
    FindsBad(m, w.dev, data, 0, w.t);
    VerifyBounds(m, w.dev, data, 0, w.t);
    if v.start < |data| { FaithfulSucceeds(m, 1, w.dev, data, v.start, v.t); }
  }

  /** The second attempt begins at the first bad block that the first one has left, and nothing before it is written. */
  lemma SecondKeeps(m: Medium, dev: bytes, data: bytes)
    requires WriteAll(m, 0, dev, data, 0, 0).ok && |data| <= |dev|
    ensures var w := WriteAll(m, 0, dev, data, 0, 0);
            var v := VerifyAll(m, w.dev, data, 0, w.t);
            v.ok && v.start < |data| ==>
              FirstBad(w.dev, data, v.start) && Attempts(m, 0, dev, data, 0, 0).dev[..v.start] == w.dev[..v.start]
  {
    hide WriteAll, VerifyAll;
    var w := WriteAll(m, 0, dev, data, 0, 0);
    var v := VerifyAll(m, w.dev, data, 0, w.t);
    FindsBad(m, w.dev, data, 0, w.t);
    if v.ok && v.start < |data| {
      WritesRange(m, 1, w.dev, data, v.start, v.t);
      var w1 := WriteAll(m, 1, w.dev, data, v.start, v.t);
      assert Attempts(m, 0, dev, data, 0, 0).dev == w1.dev;
      assert w1.dev[..v.start] == w.dev[..v.start];
    }
  }

  /** `WriteToPartition` for an EMMC device.  `t` is the number of system calls made. */
  method WriteToPartition(m: Medium, dev: array<byte>, data: bytes) returns (ok: bool, t: nat)
    modifies dev
    ensures Written(ok, dev[..], t) == Attempts(m, 0, old(dev[..]), data, 0, 0)
    ensures ok ==> |data| <= dev.Length && dev[..|data|] == data
    ensures forall k :: |data| <= k < dev.Length ==> dev[k] == old(dev[k])
    ensures m.NeverFails() && |data| <= dev.Length && (m.Faithful(0) || m.Faithful(1)) ==> ok
  {
    hide WriteAll, VerifyAll, Attempts;
    ghost var goal := Attempts(m, 0, dev[..], data, 0, 0);
    Promises(m, dev[..], data);
    ok, t := TwoAttempts(m, dev, data);
    assert forall k :: 0 <= k < dev.Length ==> dev[k] == goal.dev[k];
    assert |data| <= dev.Length ==> dev[..|data|] == goal.dev[..|data|];
  }

  lemma Promises(m: Medium, dev: bytes, data: bytes)
    ensures var r := Attempts(m, 0, dev, data, 0, 0);
            && (r.ok ==> |data| <= |dev| && r.dev[..|data|] == data)
            && (forall k :: |data| <= k < |dev| ==> r.dev[k] == dev[k])
            && (m.NeverFails() && |data| <= |dev| && (m.Faithful(0) || m.Faithful(1)) ==> r.ok)
  {
    hide WriteAll, VerifyAll, Attempts, Medium.NeverFails, Medium.Faithful;
    AttemptsHold(m, 0, dev, data, 0, 0);
    if m.NeverFails() && |data| <= |dev| {
      if m.Faithful(0) { FaithfulSucceeds(m, 0, dev, data, 0, 0); }
      if m.Faithful(1) { SecondSucceeds(m, dev, data); }
    }
  }

  /** The loop over the attempts. */
  method TwoAttempts(m: Medium, dev: array<byte>, data: bytes) returns (ok: bool, t: nat)
    modifies dev
    ensures Written(ok, dev[..], t) == Attempts(m, 0, old(dev[..]), data, 0, 0)
  {
    hide WriteAll, VerifyAll;
    t := 0;
    var start: nat, attempt: nat := 0, 0;
    ghost var goal := Attempts(m, 0, dev[..], data, 0, 0);
    while attempt < 2
      invariant attempt <= 2 && (start < |data| || (start == 0 && data == []))
      invariant Attempts(m, attempt, dev[..], data, start, t) == goal
    {
      WritesRange(m, attempt, dev[..], data, start, t);
      ok, t := WriteFrom(m, attempt, dev, data, start, t);
      if !ok { return; }
      ok, start, t := Verify(m, dev, data, t);
      if !ok || start >= |data| { return; }
      attempt := attempt + 1;
    }
    ok := false;
  }
}
