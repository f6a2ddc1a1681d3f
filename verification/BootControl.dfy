/** The restart protocol of recovery.c: the arguments are kept in the bootloader control block, so that recovery
    starts again with the same arguments after any interruption, until it has finished. */
module BootControl {
  import opened ImgChunks

  const MAX_ARGS: nat := 100
  const RECOVERY_SIZE: nat := 768
  const NEWLINE: char := '\n'

  // ----- the argument list as text -----

  ghost predicate Word(s: string) {
    s != "" && NEWLINE !in s
  }

  ghost predicate Words(ws: seq<string>) {
    forall i :: 0 <= i < |ws| ==> Word(ws[i])
  }

  /** Every word on a line of its own. */
  function Joined(ws: seq<string>): (s: string) {
    if ws == [] then "" else ws[0] + [NEWLINE] + Joined(ws[1..])
  }

  function LineLength(s: string): (n: nat)
    ensures n <= |s| && (forall i :: 0 <= i < n ==> s[i] != NEWLINE) && (n < |s| ==> s[n] == NEWLINE)
  {
    if s == "" || s[0] == NEWLINE then 0 else 1 + LineLength(s[1..])
  }

  /** What `strtok` with "\n" returns, call after call: empty lines are skipped. */
  function Tokens(s: string): (ws: seq<string>)
    decreases |s|
  {
    if s == "" then []
    else if s[0] == NEWLINE then Tokens(s[1..])
    else [s[..LineLength(s)]] + Tokens(s[LineLength(s)..])
  }

  lemma LineLengthIs(w: string, rest: string)
    requires Word(w) && (rest == "" || rest[0] == NEWLINE)
    ensures LineLength(w + rest) == |w|
  {
    var n := LineLength(w + rest);
    assert forall i :: 0 <= i < |w| ==> (w + rest)[i] == w[i];
    assert rest != "" ==> (w + rest)[|w|] == NEWLINE;
  }

  lemma TokenFirst(w: string, rest: string)
    requires Word(w) && (rest == "" || rest[0] == NEWLINE)
    ensures Tokens(w + rest) == [w] + Tokens(rest)
  {
    LineLengthIs(w, rest);
    assert (w + rest)[..|w|] == w && (w + rest)[|w|..] == rest;
  }

  lemma {:induction false} TokensJoined(ws: seq<string>)
    requires Words(ws)
    ensures Tokens(Joined(ws)) == ws
    decreases |ws|
  {
    hide Tokens;
    if ws != [] {
      var rest := [NEWLINE] + Joined(ws[1..]);
      TokenFirst(ws[0], rest);
      assert ws[0] + rest == Joined(ws);
      SkipNewline(Joined(ws[1..]));
      TokensJoined(ws[1..]);
      assert ws == [ws[0]] + ws[1..];
    } else {
      NoTokens();
    }
  }

  lemma SkipNewline(s: string)
    ensures Tokens([NEWLINE] + s) == Tokens(s)
  {
  }

  lemma NoTokens()
    ensures Tokens("") == []
  {
  }

  /** The last newline may be missing. */
  lemma {:induction false} TokensCut(ws: seq<string>)
    requires Words(ws) && ws != []
    ensures |Joined(ws)| > 0 && Tokens(Joined(ws)[..|Joined(ws)| - 1]) == ws
    decreases |ws|
  {
    hide Tokens;
    var j, r := Joined(ws), Joined(ws[1..]);
    if |ws| == 1 {
      assert j[..|j| - 1] == ws[0] + "";
      TokenFirst(ws[0], "");
      NoTokens();
    } else {
      TokensCut(ws[1..]);
      var rest := [NEWLINE] + r[..|r| - 1];
      assert j[..|j| - 1] == ws[0] + rest;
      TokenFirst(ws[0], rest);
      SkipNewline(r[..|r| - 1]);
      assert ws == [ws[0]] + ws[1..];
    }
  }

  /** A text is at least as long as its words with one newline between any two. */
  lemma {:induction false} TokensLength(s: string)
    ensures |Joined(Tokens(s))| <= |s| + 1
    ensures s != "" && s[0] == NEWLINE ==> |Joined(Tokens(s))| <= |s|
    decreases |s|
  {
    if s != "" {
      if s[0] == NEWLINE {
        TokensLength(s[1..]);
      } else {
        var n := LineLength(s);
        TokensLength(s[n..]);
        assert Tokens(s)[1..] == Tokens(s[n..]);
        if n == |s| { NoTokens(); }
      }
    }
  }

  // ----- the control block -----

  datatype Boot = Boot(command: string, recovery: string)

  const CLEARED: Boot := Boot("", "")
  const BOOT_RECOVERY: string := "boot-recovery"

  function Encoded(args: seq<string>): (s: string) {
    Joined(["recovery"] + args)
  }

  function Cut(s: string): (r: string) {
    if |s| < RECOVERY_SIZE then s else s[..RECOVERY_SIZE - 1]
  }

  /** The control block for an argument list. */
  function Record(args: seq<string>): (b: Boot) {
    Boot(BOOT_RECOVERY, Cut(Encoded(args)))
  }

  /** The arguments in a control block, if it holds any for recovery. */
  function Decoded(recovery: string): (r: Option<seq<string>>) {
    var ws := Tokens(recovery);
    if ws == [] || ws[0] != "recovery" then None
    else Some(if |ws| > MAX_ARGS then ws[1..MAX_ARGS] else ws[1..])
  }

  /** An argument list is read back from the control block exactly if its text, without the last newline, has room. */
  lemma RecordReadBack(args: seq<string>)
    requires Words(args) && |args| < MAX_ARGS
    ensures Decoded(Record(args).recovery) == Some(args) <==> |Encoded(args)| <= RECOVERY_SIZE
  {
    hide Tokens, Joined;
    var ws := ["recovery"] + args;
    var e := Encoded(args);
    assert Words(ws) by { assert Word("recovery"); }
    assert ws[1..] == args;
    TokensJoined(ws);
    TokensCut(ws);
    if |e| > RECOVERY_SIZE {
      TokensLength(e[..RECOVERY_SIZE - 1]);
      var t := Tokens(Cut(e));
      if Decoded(Cut(e)) == Some(args) { TooLong(t, args, e); }
    }
  }

  /** A list of 100 words or more is cut to 99, so it cannot be what was read. */
  lemma TooLong(t: seq<string>, args: seq<string>, e: string)
    requires t != [] && t[0] == "recovery" && |args| < MAX_ARGS && e == Encoded(args)
    requires args == if |t| > MAX_ARGS then t[1..MAX_ARGS] else t[1..]
    ensures |Joined(t)| >= |e|
  {
    var ws := ["recovery"] + args;
    if |t| <= MAX_ARGS {
      assert t == ws;
    } else {
      assert t == ws + t[MAX_ARGS..];
      JoinedMore(ws, t[MAX_ARGS..]);
    }
  }

  lemma {:induction false} JoinedMore(a: seq<string>, b: seq<string>)
    ensures |Joined(a + b)| >= |Joined(a)|
    decreases |a|
  {
    if a != [] {
      assert (a + b)[1..] == a[1..] + b;
      JoinedMore(a[1..], b);
    }
  }

  // ----- get_args -----

  /** `strlcat` into the field of the control block. */
  method StrLCat(dst: string, src: string) returns (r: string)
    requires |dst| < RECOVERY_SIZE
    ensures r == Cut(dst + src)
  {
    var room := RECOVERY_SIZE - 1 - |dst|;
    r := dst + if |src| <= room then src else src[..room];
  }

  lemma CutAppend(a: string, b: string)
    ensures Cut(Cut(a) + b) == Cut(a + b)
  {
  }

  lemma {:induction false} JoinedAppend(a: seq<string>, b: seq<string>)
    ensures Joined(a + b) == Joined(a) + Joined(b)
    decreases |a|
  {
    if a == [] {
      assert a + b == b;
    } else {
      assert (a + b)[1..] == a[1..] + b;
      JoinedAppend(a[1..], b);
    }
  }

  /** The loop that writes the arguments back. */
  method WriteBack(args: seq<string>) returns (b: Boot)
    ensures b == Record(args)
  {
    hide Cut, Joined;
    var text := "recovery\n";
    JoinedOne("recovery");
    CutShort("recovery\n");
    assert ["recovery"] + args[..0] == ["recovery"] && "recovery\n" == "recovery" + [NEWLINE];
    var i := 0;
    while i < |args|
      invariant 0 <= i <= |args| && text == Cut(Joined(["recovery"] + args[..i]))
    {
      ghost var before := Joined(["recovery"] + args[..i]);
      CutLength(before);
      text := StrLCat(text, args[i]);
      CutAppend(before, args[i]);
      CutLength(before + args[i]);
      text := StrLCat(text, [NEWLINE]);
      CutAppend(before + args[i], [NEWLINE]);
      JoinedOne(args[i]);
      JoinedAppend(["recovery"] + args[..i], [args[i]]);
      assert ["recovery"] + args[..i] + [args[i]] == ["recovery"] + args[..i + 1];
      assert before + args[i] + [NEWLINE] == before + (args[i] + [NEWLINE]);
      i := i + 1;
    }
    assert args[..i] == args;
    b := Boot(BOOT_RECOVERY, text);
  }

  lemma JoinedOne(w: string)
    ensures Joined([w]) == w + [NEWLINE]
  {
  }

  lemma CutShort(s: string)
    requires |s| < RECOVERY_SIZE
    ensures Cut(s) == s
  {
  }

  lemma CutLength(s: string)
    ensures |Cut(s)| < RECOVERY_SIZE
  {
  }

  /** One call of `strtok`: the next word and what is left. */
  method StrTok(s: string) returns (w: Option<string>, rest: string)
    ensures |rest| <= |s| && (w.Some? ==> |rest| < |s|)
    ensures Tokens(s) == if w.Some? then [w.value] + Tokens(rest) else []
  {
    var i := 0;
    while i < |s| && s[i] == NEWLINE
      invariant 0 <= i <= |s| && Tokens(s[i..]) == Tokens(s)
    {
      assert s[i..][1..] == s[i + 1..];
      i := i + 1;
    }
    if i == |s| { return None, ""; }
    var n := LineLength(s[i..]);
    return Some(s[i..][..n]), s[i..][n..];
  }

  /** The loop over the control block; at most MAX_ARGS - 1 arguments. */
  method ReadBoot(recovery: string) returns (r: Option<seq<string>>)
    ensures r == Decoded(recovery)
  {
    hide Tokens;
    var w, rest := StrTok(recovery);
    if w.None? || w.value != "recovery" { return None; }
    var args: seq<string> := [];
    ghost var all := Tokens(recovery);
    while |args| + 1 < MAX_ARGS
      invariant |args| < MAX_ARGS && |args| + 1 <= |all|
      invariant args == all[1..|args| + 1] && Tokens(rest) == all[|args| + 1..]
      decreases MAX_ARGS - |args|
    {
      w, rest := StrTok(rest);
      if w.None? {
        assert all[1..] == all[1..|args| + 1];
        return Some(args);
      }
      args := args + [w.value];
    }
    assert |all| == MAX_ARGS ==> all[1..] == all[1..MAX_ARGS];
    return Some(args);
  }

  /** The arguments recovery is to use.  The command file is read only if the command line and the control block
      have none. */
  function Chosen(argv: seq<string>, boot: Boot, file: seq<string>): (args: seq<string>) {
    if argv != [] then argv
    else if Decoded(boot.recovery).Some? && Decoded(boot.recovery).value != [] then Decoded(boot.recovery).value
    else file
  }

  /** `get_args`.  `file` stands for the arguments in the command file, empty if there is none. */
  method GetArgs(argv: seq<string>, boot: Boot, file: seq<string>) returns (args: seq<string>, boot': Boot)
    ensures args == Chosen(argv, boot, file) && boot' == Record(args)
    ensures argv != [] ==> args == argv
    ensures argv == [] && Decoded(boot.recovery).Some? && Decoded(boot.recovery).value != [] ==>
              args == Decoded(boot.recovery).value
    ensures argv == [] && (Decoded(boot.recovery).None? || Decoded(boot.recovery).value == []) ==> args == file
  {
    hide Decoded, Record;
    args := argv;
    if args == [] {
      var r := ReadBoot(boot.recovery);
      if r.Some? { args := r.value; }
    }
    if args == [] { args := file; }
    boot' := WriteBack(args);
  }

  // ----- the protocol -----

  datatype Phase = Off | Starting | Working(args: seq<string>) | Finished | MainSystem

  /** The control block, the arguments in the command file on /cache, and what the device is doing. */
  datatype State = State(boot: Boot, file: seq<string>, phase: Phase)

  ghost predicate Step(s: State, s': State) {
    || s' == s.(phase := Off)  // power lost, or a reboot
    || (s.phase.Off? && s' == s.(phase := if s.boot.command == BOOT_RECOVERY then Starting else MainSystem))
    || (s.phase.Starting?
        && s' == State(Record(Chosen([], s.boot, s.file)), s.file, Working(Chosen([], s.boot, s.file))))
    || (s.phase.Working? && s' == s.(file := []))  // /cache is erased
    || (s.phase.Working? && s' == s.(boot := CLEARED, phase := Finished))
    || (s.phase.Finished? && s' == s.(file := []))
  }

  ghost predicate StepAt(tr: seq<State>, i: nat)
    requires i + 1 < |tr|
  {
    Step(tr[i], tr[i + 1])
  }

  ghost predicate Run(tr: seq<State>) {
    tr != [] && forall i :: 0 <= i < |tr| - 1 ==> StepAt(tr, i)
  }

  /** The list survives: not too many words, not too long. */
  ghost predicate Storable(args: seq<string>) {
    Words(args) && |args| < MAX_ARGS && |Encoded(args)| <= RECOVERY_SIZE
  }

  /** Recovery is at work on these arguments, or will be when power returns. */
  ghost predicate Pending(s: State, args: seq<string>) {
    && s.boot == Record(args) && (args == [] ==> s.file == [])
    && (s.phase.Off? || s.phase.Starting? || s.phase == Working(args))
  }

  /** The next boot is the main system. */
  ghost predicate Over(s: State) {
    s.boot == CLEARED && (s.phase.Off? || s.phase.Finished? || s.phase.MainSystem?)
  }

  lemma PendingStep(s: State, s': State, args: seq<string>)
    requires Storable(args) && Pending(s, args) && Step(s, s')
    ensures Pending(s', args) || (s.phase == Working(args) && Over(s'))
  {
    hide Decoded, Encoded, Cut, Words;
    RecordReadBack(args);
  }

  lemma OverStep(s: State, s': State)
    requires Over(s) && Step(s, s')
    ensures Over(s')
  {
  }

  /** From the moment the control block is written until it is cleared, whatever is interrupted or erased, recovery
      works on the same arguments; once it is cleared, recovery never starts again by itself. */
  lemma {:induction false} SameArguments(tr: seq<State>, args: seq<string>, i: nat)
    requires Storable(args) && Run(tr) && Pending(tr[0], args) && i < |tr|
    ensures Pending(tr[i], args) || Over(tr[i])
    ensures tr[i].phase.Working? ==> tr[i].phase.args == args
    ensures i > 0 && Over(tr[i - 1]) ==> Over(tr[i])
  {
    hide Step, Record, Storable;
    if i > 0 {
      SameArguments(tr, args, i - 1);
      assert StepAt(tr, i - 1);
      if Pending(tr[i - 1], args) { PendingStep(tr[i - 1], tr[i], args); }
      if Over(tr[i - 1]) { OverStep(tr[i - 1], tr[i]); }
    }
  }

  /** The main system has left arguments in the command file and set the control block to start recovery. */
  ghost predicate Commanded(s: State, args: seq<string>) {
    s.boot == Boot(BOOT_RECOVERY, "") && s.file == args && (s.phase.Off? || s.phase.Starting?)
  }

  lemma CommandedStep(s: State, s': State, args: seq<string>)
    requires Commanded(s, args) && Step(s, s')
    ensures Commanded(s', args) || (s.phase.Starting? && s'.phase == Working(args) && Pending(s', args))
  {
    hide Record;
    assert Tokens("") == [];
  }

  lemma NotCleared(args: seq<string>)
    ensures Record(args) != CLEARED
  {
  }

  /** From the command of the main system on, recovery works on the arguments in the command file and on no others,
      whatever is interrupted or erased, until the control block is cleared; afterwards it never starts by itself. */
  lemma {:induction false} CommandCarriedOut(tr: seq<State>, args: seq<string>, i: nat)
    requires Storable(args) && Run(tr) && i < |tr| && tr[0] == State(Boot(BOOT_RECOVERY, ""), args, Off)
    ensures Commanded(tr[i], args) || Pending(tr[i], args) || Over(tr[i])
    ensures tr[i].phase.Working? ==> tr[i].phase.args == args
    ensures i > 0 && Over(tr[i - 1]) ==> Over(tr[i])
    ensures i > 0 && Over(tr[i]) ==> Over(tr[i - 1]) || tr[i - 1].phase == Working(args)
  {
    hide Step, Record, Storable;
    if i > 0 {
      CommandCarriedOut(tr, args, i - 1);
      NotCleared(args);
      assert StepAt(tr, i - 1);
      if Commanded(tr[i - 1], args) { CommandedStep(tr[i - 1], tr[i], args); }
      if Pending(tr[i - 1], args) { PendingStep(tr[i - 1], tr[i], args); }
      if Over(tr[i - 1]) { OverStep(tr[i - 1], tr[i]); }
    }
  }
}
