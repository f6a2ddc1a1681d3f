/** The settings file of recovery_settings.c: lines of the form key=value, read with `fgets` into a fixed buffer. */
module Settings {
  import opened ImgChunks

  /** The size of the line buffer (PROPERTY_VALUE_MAX in Android's properties.h). */
  const BUFFER: nat := 92
  const NEWLINE: char := '\n'

  // ----- lines -----

  /** The number of characters the next `fgets` returns. */
  function LineLength(t: string, n: nat): (k: nat)
    requires n <= |t| && n < BUFFER
    ensures n <= k <= |t| && k < BUFFER
    decreases |t| - n
  {
    if n == |t| || n == BUFFER - 1 then n
    else if t[n] == NEWLINE then n + 1
    else LineLength(t, n + 1)
  }

  lemma LineProgress(t: string)
    requires t != ""
    ensures LineLength(t, 0) > 0
  {
  }

  /** What the `fgets` loop gets. */
  function Lines(t: string): (ls: seq<string>)
    decreases |t|
  {
    if t == "" then []
    else
      LineProgress(t);
      [t[..LineLength(t, 0)]] + Lines(t[LineLength(t, 0)..])
  }

  function Concat(ls: seq<string>): (t: string) {
    if ls == [] then "" else ls[0] + Concat(ls[1..])
  }

  /** A line that fits the buffer, with its newline. */
  ghost predicate Proper(l: string) {
    0 < |l| < BUFFER && l[|l| - 1] == NEWLINE && forall k :: 0 <= k < |l| - 1 ==> l[k] != NEWLINE
  }

  ghost predicate AllProper(ls: seq<string>) {
    forall i :: 0 <= i < |ls| ==> Proper(ls[i])
  }

  lemma {:induction false} LengthOfLine(l: string, rest: string, n: nat)
    requires Proper(l) && n < |l|
    ensures LineLength(l + rest, n) == |l|
    decreases |l| - n
  {
    assert (l + rest)[n] == l[n];
    if n < |l| - 1 { LengthOfLine(l, rest, n + 1); }
  }

  lemma {:induction false} LinesOfConcat(ls: seq<string>)
    requires AllProper(ls)
    ensures Lines(Concat(ls)) == ls
    decreases |ls|
  {
    hide LineLength, Proper;
    if ls != [] {
      var l, rest := ls[0], Concat(ls[1..]);
      assert Proper(l) && |l| > 0 by { ProperLength(l); }
      LengthOfLine(l, rest, 0);
      assert (l + rest)[..|l|] == l && (l + rest)[|l|..] == rest;
      LinesOfConcat(ls[1..]);
      assert ls == [l] + ls[1..];
    }
  }

  lemma ProperLength(l: string)
    requires Proper(l)
    ensures 0 < |l| < BUFFER
  {
  }

  // ----- entries -----

  ghost predicate KeyOk(k: string) {
    '=' !in k && NEWLINE !in k
  }

  predicate Matches(l: string, key: string) {
    key + "=" <= l
  }

  /** The text after the first '='. */
  function AfterEquals(l: string): (v: string)
    ensures |v| <= |l|
  {
    if l == "" then "" else if l[0] == '=' then l[1..] else AfterEquals(l[1..])
  }

  function Chopped(v: string): (r: string) {
    if v != "" && v[|v| - 1] == NEWLINE then v[..|v| - 1] else v
  }

  /** What a file says about a key.  Unclear: a line ends with the '=' of the key, and the program looks at the
      character before its buffer. */
  datatype Setting = Value(text: string) | NoValue | Unclear

  /** What one line says about the key. */
  function Said(l: string, key: string): (r: Setting) {
    if !Matches(l, key) then NoValue
    else if AfterEquals(l) == "" then Unclear
    else if Chopped(AfterEquals(l)) == "" then NoValue
    else Value(Chopped(AfterEquals(l)))
  }

  /** The value of the first line for the key that has one. */
  function Lookup(ls: seq<string>, key: string): (r: Setting) {
    if ls == [] then NoValue else if !Said(ls[0], key).NoValue? then Said(ls[0], key) else Lookup(ls[1..], key)
  }

  function Normal(l: string): (r: string) {
    if l != "" && l[|l| - 1] == NEWLINE then l else l + [NEWLINE]
  }

  /** The lines for other keys, each with a newline. */
  function Others(ls: seq<string>, key: string): (r: seq<string>) {
    if ls == [] then []
    else (if Matches(ls[0], key) then [] else [Normal(ls[0])]) + Others(ls[1..], key)
  }

  function EntryLine(key: string, value: string): (l: string) {
    key + "=" + value + [NEWLINE]
  }

  /** The lines a new file begins with. */
  function Header(): (ls: seq<string>)
    ensures |ls| == 6
  {
    ["#PhilZ Touch Settings File" + [NEWLINE],
     ("#Edit only in appropriate UNIX " + "format (Notepad+++...)") + [NEWLINE],
     "#Entries are in the form of:" + [NEWLINE], SAMPLE, "#Do not add spaces in between!" + [NEWLINE], [NEWLINE]]
  }

  const SAMPLE: string := EntryLine("#key", "value")

  /** The lines of the file that a write leaves behind. */
  function NewLines(file: Option<string>, key: string, value: string): (ls: seq<string>) {
    (if file.Some? then Others(Lines(file.value), key) else Header()) + [EntryLine(key, value)]
  }

  /** No line is longer than the buffer, with a newline added to the last one if it has none. */
  ghost predicate Fits(t: string) {
    forall i :: 0 <= i < |Lines(t)| ==> Proper(Normal(Lines(t)[i]))
  }

  /** The program has room for the lines. */
  ghost predicate AllFit(ls: seq<string>) {
    forall i :: 0 <= i < |ls| ==> |ls[i]| < BUFFER
  }

  ghost predicate FileFits(file: Option<string>) {
    file.Some? ==> Fits(file.value)
  }

  ghost predicate EntryOk(key: string, value: string) {
    KeyOk(key) && value != "" && NEWLINE !in value && |EntryLine(key, value)| < BUFFER
  }

  // ----- the program -----

  /** `fgets` on the rest of the file. */
  method FGets(t: string) returns (n: nat)
    ensures n == LineLength(t, 0)
  {
    n := 0;
    while n < |t| && n < BUFFER - 1
      invariant 0 <= n <= |t| && n < BUFFER && LineLength(t, n) == LineLength(t, 0)
    {
      n := n + 1;
      if t[n - 1] == NEWLINE { return; }
    }
  }

  datatype Answer = Answer(ret: int, value: string) | Undefined

  /** `read_config_file`: 0 with the value, 1 with the default if there is none, -1 if there is no file. */
  method ReadConfigFile(file: Option<string>, key: string, def: string) returns (r: Answer)
    ensures file.None? ==> r == Answer(-1, def)
    ensures file.Some? ==> r == match Lookup(Lines(file.value), key)
                                case Value(v) => Answer(0, v)
                                case NoValue => Answer(1, def)
                                case Unclear => Undefined
  {
    hide LineLength, Matches, AfterEquals, Chopped;
    if file.None? { return Answer(-1, def); }
    var t := file.value;
    while t != ""
      invariant Lookup(Lines(t), key) == Lookup(Lines(file.value), key)
      decreases |t|
    {
      var n := FGets(t);
      LineProgress(t);
      var line := t[..n];
      assert Lines(t)[0] == line && Lines(t)[1..] == Lines(t[n..]);
      if Matches(line, key) {
        var value := AfterEquals(line);
        if value == "" { return Undefined; }
        value := Chopped(value);
        if value != "" { return Answer(0, value); }
      }
      t := t[n..];
    }
    return Answer(1, def);
  }

  method WriteHeader() returns (text: string)
    ensures text == Concat(Header())
  {
    hide Header;
    text := "";
    var i := 0;
    while i < |Header()|
      invariant 0 <= i <= |Header()| && text == Concat(Header()[..i])
    {
      ConcatOne(Header()[..i], Header()[i]);
      assert Header()[..i + 1] == Header()[..i] + [Header()[i]];
      text := text + Header()[i];
      i := i + 1;
    }
    assert Header()[..i] == Header();
  }

  /** None if a newline is added to a line that fills the buffer. */
  method CopyOthers(file: string, key: string) returns (r: Option<string>)
    ensures r.Some? <==> AllFit(Others(Lines(file), key))
    ensures r.Some? ==> r.value == Concat(Others(Lines(file), key))
  {
    hide LineLength, Matches, Normal, Others, Concat, Lines;
    var t, text := file, "";
    ghost var done: seq<string> := [];
    NoLines(key);
    while t != ""
      invariant text == Concat(done) && Others(Lines(file), key) == done + Others(Lines(t), key) && AllFit(done)
      decreases |t|
    {
      var n := FGets(t);
      LineProgress(t);
      var line := t[..n];
      OthersStep(t, key);
      if !Matches(line, key) {
        if |Normal(line)| >= BUFFER {
          assert Others(Lines(file), key)[|done|] == Normal(line);
          return None;
        }
        ConcatOne(done, Normal(line));
        text := text + Normal(line);
        done := done + [Normal(line)];
      }
      t := t[n..];
    }
    assert done + [] == done;
    return Some(text);
  }

  lemma NoLines(key: string)
    ensures Others(Lines(""), key) == [] && Concat([]) == ""
  {
  }

  lemma OthersStep(t: string, key: string)
    requires t != ""
    ensures var n := LineLength(t, 0);
            Others(Lines(t), key) ==
                (if Matches(t[..n], key) then [] else [Normal(t[..n])]) + Others(Lines(t[n..]), key)
  {
  }

  /** `write_config_file`: the new contents of the file; None if a line does not fit its buffer. */
  method WriteConfigFile(file: Option<string>, key: string, value: string) returns (r: Option<string>)
    ensures r.Some? <==> AllFit(NewLines(file, key, value))
    ensures r.Some? ==> r.value == Concat(NewLines(file, key, value))
  {
    hide Header, Lines, Others, EntryLine, AllFit, Concat;
    var text;
    ghost var before;
    if file.None? {
      before := Header();
      HeaderFits();
      text := WriteHeader();
    } else {
      before := Others(Lines(file.value), key);
      FitSplit(before, EntryLine(key, value));
      var copied := CopyOthers(file.value, key);
      if copied.None? { return None; }
      text := copied.value;
    }
    FitSplit(before, EntryLine(key, value));
    if |EntryLine(key, value)| >= BUFFER { return None; }
    ConcatOne(before, EntryLine(key, value));
    return Some(text + EntryLine(key, value));
  }

  lemma FitSplit(ls: seq<string>, l: string)
    ensures AllFit(ls + [l]) <==> AllFit(ls) && |l| < BUFFER
  {
    if AllFit(ls + [l]) {
      assert (ls + [l])[|ls|] == l;
      assert forall i :: 0 <= i < |ls| ==> (ls + [l])[i] == ls[i];
    }
  }

  lemma HeaderFits()
    ensures AllFit(Header())
  {
  }

  lemma {:induction false} ConcatOne(ls: seq<string>, l: string)
    ensures Concat(ls + [l]) == Concat(ls) + l
    decreases |ls|
  {
    if ls == [] {
      assert ls + [l] == [l] && [l][1..] == [] && l + "" == l;
    } else {
      assert (ls + [l])[1..] == ls[1..] + [l];
      ConcatOne(ls[1..], l);
    }
  }

  // ----- laws -----

  /** What a read of the key gives, if not the default. */
  function SettingOf(file: Option<string>, key: string): (r: Setting) {
    if file.Some? then Lookup(Lines(file.value), key) else NoValue
  }

  ghost function Written(file: Option<string>, key: string, value: string): (f: Option<string>) {
    Some(Concat(NewLines(file, key, value)))
  }

  lemma {:induction false} LookupAppend(a: seq<string>, b: seq<string>, key: string)
    ensures Lookup(a + b, key) == if Lookup(a, key).NoValue? then Lookup(b, key) else Lookup(a, key)
    decreases |a|
  {
    hide Said;
    if a == [] {
      assert a + b == b;
    } else {
      assert (a + b)[1..] == a[1..] + b;
      LookupAppend(a[1..], b, key);
    }
  }

  /** A line is for one key only, even if one key is a prefix of another. */
  lemma OneKey(l: string, a: string, b: string)
    requires KeyOk(a) && KeyOk(b) && Matches(l, a) && Matches(l, b)
    ensures a == b
  {
    assert l[|a|] == '=' && l[|b|] == '=';
    assert forall i :: 0 <= i < |a| ==> l[i] == a[i];
    assert forall i :: 0 <= i < |b| ==> l[i] == b[i];
  }

  /** What follows the '=' of a key without '='. */
  lemma {:induction false} AfterKey(l: string, key: string)
    requires '=' !in key && Matches(l, key)
    ensures AfterEquals(l) == l[|key| + 1..]
    decreases |key|
  {
    if key == "" {
      assert l[0] == ("" + "=")[0];
    } else {
      assert l[0] == (key + "=")[0] == key[0];
      assert key[1..] + "=" == (key + "=")[1..] <= l[1..];
      AfterKey(l[1..], key[1..]);
    }
  }

  /** A newline at the end of a line that is missing matters only after the '='. */
  lemma NormalSame(l: string, key: string)
    requires KeyOk(key)
    ensures Said(Normal(l), key) == if Said(l, key).Unclear? then NoValue else Said(l, key)
    ensures Matches(Normal(l), key) == Matches(l, key)
  {
    hide AfterEquals;
    var n := Normal(l);
    if Matches(n, key) {
      assert n[|key|] == '=';
      assert l == n[..|l|];
      assert key + "=" == n[..|key| + 1];
      AfterKey(l, key);
      AfterKey(n, key);
      assert n != l ==> n[|key| + 1..] == l[|key| + 1..] + [NEWLINE];
    }
  }

  /** Leaving out the lines of a key changes no other; but a line that ended with its '=' is complete now. */
  lemma {:induction false} OthersLookup(ls: seq<string>, key: string, other: string)
    requires KeyOk(key) && KeyOk(other)
    ensures other == key ==> Lookup(Others(ls, key), other) == NoValue
    ensures other != key && !Lookup(ls, other).Unclear? ==> Lookup(Others(ls, key), other) == Lookup(ls, other)
    ensures !Lookup(Others(ls, key), other).Unclear?
    decreases |ls|
  {
    hide Said, Matches, KeyOk, Normal;
    if ls != [] {
      OthersLookup(ls[1..], key, other);
      var l := ls[0];
      NormalSame(l, other);
      SaidMatches(l, other);
      assert [] + Others(ls[1..], key) == Others(ls[1..], key);
      if Matches(l, key) {
        if Matches(l, other) { OneKey(l, key, other); }
      } else {
        LookupAppend([Normal(l)], Others(ls[1..], key), other);
        LookupOne(Normal(l), other);
      }
    }
  }

  lemma SaidMatches(l: string, key: string)
    ensures !Matches(l, key) ==> Said(l, key) == NoValue
  {
  }

  lemma LookupOne(l: string, key: string)
    ensures Lookup([l], key) == Said(l, key)
  {
  }

  lemma {:induction false} OthersProper(ls: seq<string>, key: string)
    requires forall i :: 0 <= i < |ls| ==> Proper(Normal(ls[i]))
    ensures AllProper(Others(ls, key))
    decreases |ls|
  {
    hide Proper, Normal, Matches;
    if ls != [] { OthersProper(ls[1..], key); }
  }

  /** A line of text without '='. */
  ghost predicate Comment(s: string) {
    |s| < BUFFER - 1 && forall i :: 0 <= i < |s| ==> s[i] != NEWLINE && s[i] != '='
  }

  lemma Comment1() ensures Comment("#PhilZ Touch Settings File") {}

  lemma Comment2() ensures Comment("#Edit only in appropriate UNIX ") && Comment("format (Notepad+++...)") {}

  lemma Comment3() ensures Comment("#Entries are in the form of:") {}

  lemma Comment5() ensures Comment("#Do not add spaces in between!") {}

  lemma CommentJoin(a: string, b: string)
    requires Comment(a) && Comment(b) && |a| + |b| < BUFFER - 1
    ensures Comment(a + b)
  {
  }

  lemma CommentLine(s: string, key: string)
    requires Comment(s)
    ensures Proper(s + [NEWLINE]) && (KeyOk(key) ==> !Matches(s + [NEWLINE], key))
  {
    var l := s + [NEWLINE];
    assert forall i :: 0 <= i < |l| ==> l[i] != '=';
    assert (key + "=")[|key|] == '=';
  }

  lemma SampleOk()
    ensures EntryOk("#key", "value")
  {
  }

  /** The header holds lines that fit; the only entry is for the key "#key". */
  lemma HeaderFacts(key: string)
    requires KeyOk(key)
    ensures AllProper(Header()) && Header()[3] == SAMPLE
    ensures forall i :: 0 <= i < 6 && i != 3 ==> !Matches(Header()[i], key)
    ensures Matches(Header()[3], key) <==> key == "#key"
  {
    hide Comment, Proper, Matches, KeyOk, EntryOk, EntryLine;
    Comment1();
    Comment2();
    Comment3();
    Comment5();
    NoComment();
    CommentLine("#PhilZ Touch Settings File", key);
    CommentJoin("#Edit only in appropriate UNIX ", "format (Notepad+++...)");
    CommentLine("#Edit only in appropriate UNIX " + "format (Notepad+++...)", key);
    CommentLine("#Entries are in the form of:", key);
    CommentLine("#Do not add spaces in between!", key);
    CommentLine("", key);
    assert "" + [NEWLINE] == [NEWLINE];
    SampleOk();
    EntryProper("#key", "value");
    EntryKey("#key", "value");
    if Matches(SAMPLE, key) { OneKey(SAMPLE, "#key", key); }
  }

  lemma NoComment()
    ensures Comment("")
  {
  }

  lemma EntryKey(key: string, value: string)
    requires EntryOk(key, value)
    ensures KeyOk(key)
  {
  }

  lemma EntryProper(key: string, value: string)
    requires EntryOk(key, value)
    ensures Proper(EntryLine(key, value)) && Matches(EntryLine(key, value), key)
    ensures Said(EntryLine(key, value), key) == Value(value)
  {
    hide AfterEquals;
    AfterKey(EntryLine(key, value), key);
    assert EntryLine(key, value)[|key| + 1..] == value + [NEWLINE];
  }

  /** The file that is written has the intended lines. */
  lemma WrittenLines(file: Option<string>, key: string, value: string)
    requires FileFits(file) && EntryOk(key, value)
    ensures Lines(Written(file, key, value).value) == NewLines(file, key, value)
    ensures AllProper(NewLines(file, key, value)) && FileFits(Written(file, key, value))
  {
    hide Proper, Matches, Lines, EntryLine, EntryOk, Concat, Normal, Header;
    EntryProper(key, value);
    EntryKey(key, value);
    if file.Some? { OthersProper(Lines(file.value), key); } else { HeaderFacts(key); }
    var ls := NewLines(file, key, value);
    LinesOfConcat(ls);
    forall i | 0 <= i < |ls| ensures Normal(ls[i]) == ls[i] { NormalProper(ls[i]); }
  }

  lemma NormalProper(l: string)
    requires Proper(l)
    ensures Normal(l) == l
  {
  }

  /** A key reads as what was written last. */
  lemma ReadBack(file: Option<string>, key: string, value: string)
    requires FileFits(file) && EntryOk(key, value)
    ensures SettingOf(Written(file, key, value), key) == Value(value) <==>
            file.Some? || key != "#key" || value == "value"
  {
    hide Matches, Said, Lines, EntryLine, Concat, Others, Lookup, Header;
    WrittenLines(file, key, value);
    EntryProper(key, value);
    var before := if file.Some? then Others(Lines(file.value), key) else Header();
    LookupAppend(before, [EntryLine(key, value)], key);
    LookupOne(EntryLine(key, value), key);
    if file.Some? { OthersLookup(Lines(file.value), key, key); } else { HeaderLookup(key); }
  }

  lemma {:induction false} LengthOfLast(t: string, n: nat)
    requires NEWLINE !in t && n <= |t| < BUFFER
    ensures LineLength(t, n) == |t|
    decreases |t| - n
  {
    if n < |t| { LengthOfLast(t, n + 1); }
  }

  /** A file that ends with the '=' of a key makes a read of the key undefined. */
  lemma BareKey(key: string)
    requires KeyOk(key) && |key| + 1 < BUFFER
    ensures SettingOf(Some(key + "="), key) == Unclear
  {
    hide LineLength, AfterEquals;
    var t := key + "=";
    LengthOfLast(t, 0);
    assert t[..|t|] == t && t[|t|..] == "" && Lines("") == [];
    assert Lines(t) == [t] + [] == [t];
    AfterKey(t, key);
    LookupOne(t, key);
  }

  lemma {:induction false} LookupNone(ls: seq<string>, key: string)
    requires forall i :: 0 <= i < |ls| ==> !Matches(ls[i], key)
    ensures Lookup(ls, key) == NoValue
    decreases |ls|
  {
    hide Matches, AfterEquals;
    if ls != [] { LookupNone(ls[1..], key); }
  }

  lemma HeaderLookup(key: string)
    requires KeyOk(key)
    ensures Lookup(Header(), key) == if key == "#key" then Value("value") else NoValue
  {
    hide Matches, Said, KeyOk, Header, EntryOk, Lookup, EntryLine;
    HeaderFacts(key);
    var h := Header();
    if key == "#key" {
      assert h == h[..3] + ([h[3]] + h[4..]);
      LookupNone(h[..3], key);
      LookupAppend(h[..3], [h[3]] + h[4..], key);
      LookupAppend([h[3]], h[4..], key);
      LookupOne(h[3], key);
      SampleOk();
      EntryProper("#key", "value");
    } else {
      LookupNone(h, key);
    }
  }

  /** Reads of every other key are unchanged, except that a new file has an entry for the key of its header, and that
      a last line that ends with the '=' of the other key is completed. */
  lemma OtherKeys(file: Option<string>, key: string, value: string, other: string)
    requires FileFits(file) && EntryOk(key, value) && KeyOk(other) && other != key
    ensures SettingOf(Written(file, key, value), other) == SettingOf(file, other) <==>
            if file.Some? then !SettingOf(file, other).Unclear? else other != "#key"
  {
    hide Matches, Said, Lines, EntryLine, Concat, Others, Lookup, KeyOk, Header;
    WrittenLines(file, key, value);
    EntryProper(key, value);
    var before := if file.Some? then Others(Lines(file.value), key) else Header();
    LookupAppend(before, [EntryLine(key, value)], other);
    LookupOne(EntryLine(key, value), other);
    SaidMatches(EntryLine(key, value), other);
    if Matches(EntryLine(key, value), other) { OneKey(EntryLine(key, value), key, other); }
    if file.Some? { OthersLookup(Lines(file.value), key, other); } else { HeaderLookup(other); }
  }

  lemma {:induction false} OthersAppend(ls: seq<string>, l: string, key: string)
    ensures Others(ls + [l], key) == Others(ls, key) + if Matches(l, key) then [] else [Normal(l)]
    decreases |ls|
  {
    hide Matches, Normal;
    if ls == [] {
      assert ls + [l] == [l] && [l][1..] == [];
    } else {
      assert (ls + [l])[1..] == ls[1..] + [l];
      OthersAppend(ls[1..], l, key);
    }
  }

  lemma NormalTwice(l: string)
    ensures Normal(Normal(l)) == Normal(l)
  {
  }

  lemma {:induction false} OthersTwice(ls: seq<string>, key: string)
    requires KeyOk(key)
    ensures Others(Others(ls, key), key) == Others(ls, key)
    decreases |ls|
  {
    hide Matches, Normal, KeyOk;
    if ls != [] {
      OthersTwice(ls[1..], key);
      NormalSame(ls[0], key);
      NormalTwice(ls[0]);
      assert [] + Others(ls[1..], key) == Others(ls[1..], key);
      if !Matches(ls[0], key) {
        assert Others(ls, key)[1..] == Others(ls[1..], key);
      }
    }
  }

  lemma {:induction false} OthersNone(ls: seq<string>, key: string)
    requires forall i :: 0 <= i < |ls| ==> !Matches(ls[i], key) && Proper(ls[i])
    ensures Others(ls, key) == ls
    decreases |ls|
  {
    hide Matches, Proper, Normal;
    if ls != [] {
      OthersNone(ls[1..], key);
      NormalProper(ls[0]);
    }
  }

  lemma HeaderOthers(key: string)
    requires KeyOk(key)
    ensures Others(Header(), key) == Header() <==> key != "#key"
  {
    hide Others, Header, Matches, Proper, Lookup, KeyOk;
    HeaderFacts(key);
    if key != "#key" {
      OthersNone(Header(), key);
    } else {
      OthersLookup(Header(), key, key);
      HeaderLookup(key);
    }
  }

  /** A second write of a key takes the place of the first, with the same exception. */
  lemma Superseded(file: Option<string>, key: string, first: string, second: string)
    requires FileFits(file) && EntryOk(key, first) && EntryOk(key, second)
    ensures Written(Written(file, key, first), key, second) == Written(file, key, second) <==>
            file.Some? || key != "#key"
  {
    hide Matches, Said, Lines, EntryLine, Concat, Lookup, Proper, EntryOk, Others, Header, FileFits, KeyOk;
    WrittenLines(file, key, first);
    EntryProper(key, first);
    EntryKey(key, first);
    var before := if file.Some? then Others(Lines(file.value), key) else Header();
    if file.Some? { OthersTwice(Lines(file.value), key); } else { HeaderOthers(key); }
    OthersAppend(before, EntryLine(key, first), key);
    WrittenLines(file, key, second);
    WrittenLines(Written(file, key, first), key, second);
    assert Others(before, key) + [] == Others(before, key);
    assert Others(before, key) == before <==>
           Others(before, key) + [EntryLine(key, second)] == before + [EntryLine(key, second)] by {
      SameBefore(Others(before, key), before, EntryLine(key, second));
    }
  }

  lemma SameBefore(a: seq<string>, b: seq<string>, l: string)
    ensures a == b <==> a + [l] == b + [l]
  {
    if a + [l] == b + [l] { assert a == (a + [l])[..|a|] && b == (b + [l])[..|b|]; }
  }
}
