/** Garbage collection: the gc command deletes the blobs that no manifest uses (dedupe/dedupe.c). */
module DedupeGc {
  import opened ImgChunks
  import opened Numbers
  import opened Manifest
  import opened ManifestLines
  import opened ManifestText
  import opened Dedupe

  // ----- the order of strcmp -----

  predicate Less(a: string, b: string) {
    b != "" && (a == "" || a[0] < b[0] || (a[0] == b[0] && Less(a[1..], b[1..])))
  }

  lemma {:induction false} LessTrans(a: string, b: string, c: string)
    requires Less(a, b) && Less(b, c)
    ensures Less(a, c)
  {
    if a != "" && a[0] == b[0] == c[0] { LessTrans(a[1..], b[1..], c[1..]); }
  }

  lemma {:induction false} LessTotal(a: string, b: string)
    ensures a == b || Less(a, b) || Less(b, a)
    ensures !(a == b && Less(a, b)) && !(Less(a, b) && Less(b, a))
  {
    if a != "" && b != "" && a[0] == b[0] {
      LessTotal(a[1..], b[1..]);
      assert a == [a[0]] + a[1..] && b == [b[0]] + b[1..];
    }
  }

  /** `strcmp`: the sign of the comparison. */
  method StrCmp(a: string, b: string) returns (c: int)
    ensures c < 0 <==> Less(a, b)
    ensures c == 0 <==> a == b
    ensures c > 0 <==> Less(b, a)
  {
    LessTotal(a, b);
    var i := 0;
    while i < |a| && i < |b| && a[i] == b[i]
      invariant 0 <= i <= |a| && i <= |b| && a[..i] == b[..i]
      invariant Less(a, b) == Less(a[i..], b[i..]) && Less(b, a) == Less(b[i..], a[i..])
    {
      assert a[i..][1..] == a[i + 1..] && b[i..][1..] == b[i + 1..];
      i := i + 1;
    }
    if i == |a| && i == |b| {
      assert a[..i] == a && b[..i] == b;
      return 0;
    }
    if i == |b| || (i < |a| && a[i] > b[i]) { return 1; }
    return -1;
  }

  ghost predicate Ascending(s: seq<string>) {
    forall i, j :: 0 <= i < j < |s| ==> s[i] == s[j] || Less(s[i], s[j])
  }

  // ----- the scan -----

  ghost predicate AllBelow(s: seq<string>, j: int, x: string) {
    forall k :: 0 <= k < j && k < |s| ==> Less(s[k], x)
  }

  lemma BelowNext(s: seq<string>, j: int, x: string, y: string)
    requires AllBelow(s, j, x) && (x == y || Less(x, y))
    ensures AllBelow(s, j, y)
  {
    forall k | 0 <= k < j && k < |s| ensures Less(s[k], y) { if x != y { LessTrans(s[k], x, y); } }
  }

  /** With everything before j below x, the entry at j tells whether x occurs. */
  lemma FoundHere(s: seq<string>, j: int, x: string)
    requires Ascending(s) && 0 <= j <= |s| && AllBelow(s, j, x)
    requires j < |s| ==> s[j] == x || Less(x, s[j])
    ensures x in s <==> j < |s| && s[j] == x
  {
    if x in s {
      var k :| 0 <= k < |s| && s[k] == x;
      LessTotal(x, x);
      if j < |s| { LessTotal(x, s[j]); }
    }
  }

  lemma AscendingNext(s: seq<string>, i: int)
    requires Ascending(s) && 0 <= i < |s| - 1
    ensures s[i] == s[i + 1] || Less(s[i], s[i + 1])
  {
  }

  lemma BelowNone(s: seq<string>, x: string)
    ensures AllBelow(s, 0, x)
  {
  }

  lemma BelowMore(s: seq<string>, j: int, x: string)
    requires AllBelow(s, j, x) && (0 <= j < |s| ==> Less(s[j], x))
    ensures AllBelow(s, j + 1, x)
  {
  }

  /** The inner loop: past the used names below x.  cmp is the last comparison made. */
  method Advance(used: seq<string>, from: nat, x: string) returns (j: nat, cmp: int)
    requires from <= |used| && AllBelow(used, from, x)
    ensures from <= j <= |used| && AllBelow(used, j, x)
    ensures j < |used| ==> cmp >= 0 && (cmp == 0 <==> used[j] == x) && (cmp > 0 <==> Less(x, used[j]))
  {
    hide Less, AllBelow;
    j, cmp := from, 0;
    while j < |used|
      invariant from <= j <= |used| && AllBelow(used, j, x)
    {
      cmp := StrCmp(used[j], x);
      if cmp >= 0 { break; }
      BelowMore(used, j, x);
      j := j + 1;
    }
  }

  /** The simultaneous scan of the two sorted lists; the list of used names may repeat names. */
  method FindUnused(all: seq<string>, used: seq<string>) returns (gone: set<string>)
    requires Ascending(all) && Ascending(used)
    ensures gone == set x | x in all && x !in used
  {
    hide Less, Ascending, AllBelow;
    gone := {};
    var i, j := 0, 0;
    if all != [] { BelowNone(used, all[0]); }
    while i < |all|
      invariant 0 <= i <= |all| && 0 <= j <= |used|
      invariant i < |all| ==> AllBelow(used, j, all[i])
      invariant gone == set x | x in all[..i] && x !in used
    {
      var cmp := 0;
      j, cmp := Advance(used, j, all[i]);
      FoundHere(used, j, all[i]);
      if cmp > 0 || j >= |used| { gone := gone + {all[i]}; }
      assert all[..i + 1] == all[..i] + [all[i]];
      if i + 1 < |all| {
        AscendingNext(all, i);
        BelowNext(used, j, all[i], all[i + 1]);
      }
      i := i + 1;
    }
    assert all[..i] == all;
  }

  // ----- reading the manifests -----

  /** A manifest file as gc finds it. */
  datatype Source = Unopenable | Opened(text: string)

  /** The blob names in the lines from `at` on; None if memory is overrun. */
  function UsedFrom(version: int, text: string, at: nat): (r: Option<set<string>>)
    requires at <= |text|
    decreases |text| - at
  {
    if at == |text| then Some({})
    else
      var end := EndOfLine(text, at);
      var use := UseAt(version, text[at..end]);
      var rest := UsedFrom(version, text, end);
      if use.UseOverrun? || rest.None? then None else Some(rest.value + if use.Uses? then {use.key} else {})
  }

  /** What becomes of a manifest file: its names, or why there are none. */
  datatype Reading = Names(names: set<string>) | CannotOpen | TooNew | Overruns

  function ReadingOf(s: Source): (r: Reading) {
    if s.Unopenable? then CannotOpen
    else
      match OpeningOf(s.text)
      case NoVersion => Overruns
      case Version(v, at) =>
        if v > DEDUPE_VERSION then TooNew
        else if UsedFrom(v, s.text, at).None? then Overruns
        else Names(UsedFrom(v, s.text, at).value)
  }

  /** How the first loop of gc ends: all manifests read, or stopped at the first one that is not. */
  datatype End = AllRead | NotOpened | Newer | Lost

  /** The first manifest that is not read. */
  function FirstUnread(sources: seq<Source>, from: nat): (n: nat)
    requires from <= |sources|
    ensures from <= n <= |sources|
    decreases |sources| - from
  {
    if from < |sources| && ReadingOf(sources[from]).Names? then FirstUnread(sources, from + 1) else from
  }

  lemma {:induction false} FirstUnreadIs(sources: seq<Source>, from: nat)
    requires from <= |sources|
    ensures var n := FirstUnread(sources, from);
            && (forall k :: from <= k < n ==> ReadingOf(sources[k]).Names?)
            && (n < |sources| ==> !ReadingOf(sources[n]).Names?)
    decreases |sources| - from
  {
    hide ReadingOf;
    if from < |sources| && ReadingOf(sources[from]).Names? { FirstUnreadIs(sources, from + 1); }
  }

  function ReadingEnd(sources: seq<Source>): (e: End) {
    var n := FirstUnread(sources, 0);
    if n == |sources| then AllRead
    else match ReadingOf(sources[n])
      case CannotOpen => NotOpened
      case TooNew => Newer
      case _ => Lost
  }

  /** The names that the first n manifests use. */
  function UsedBy(sources: seq<Source>, n: nat): (r: set<string>)
    requires n <= |sources|
  {
    if n == 0 then {}
    else UsedBy(sources, n - 1) + var r := ReadingOf(sources[n - 1]); if r.Names? then r.names else {}
  }

  lemma {:induction false} InUsedBy(sources: seq<Source>, n: nat, x: string)
    requires n <= |sources|
    ensures x in UsedBy(sources, n) <==>
            exists k :: 0 <= k < n && ReadingOf(sources[k]).Names? && x in ReadingOf(sources[k]).names
  {
    hide ReadingOf;
    if n > 0 { InUsedBy(sources, n - 1, x); }
  }

  /** The names in a list of names. */
  ghost function Listed(s: seq<string>): (r: set<string>) { set x | x in s }

  lemma ListedMore(s: seq<string>, x: string)
    ensures Listed(s + [x]) == Listed(s) + {x}
  {
  }

  /** The lines of one manifest are added to the list of used names, which may repeat names. */
  method CollectKeys(version: int, text: string, from: nat, used: seq<string>) returns (r: Option<seq<string>>)
    requires from <= |text|
    ensures r.Some? <==> UsedFrom(version, text, from).Some?
    ensures r.Some? ==> Listed(r.value) == Listed(used) + UsedFrom(version, text, from).value
  {
    hide EndOfLine, UseAt, Listed;
    var at, list := from, used;
    while at < |text|
      invariant at <= |text|
      invariant UsedFrom(version, text, from).Some? <==> UsedFrom(version, text, at).Some?
      invariant UsedFrom(version, text, at).Some? ==>
                  Listed(list) + UsedFrom(version, text, at).value == Listed(used) + UsedFrom(version, text, from).value
    {
      var end := FGets(text, at);
      var use := ReadUse(version, text[at..end]);
      if use.UseOverrun? { return None; }
      if use.Uses? {
        ListedMore(list, use.key);
        list := list + [use.key];
      }
      at := end;
    }
    return Some(list);
  }

  /** The first loop of gc. */
  method ReadSources(sources: seq<Source>) returns (used: seq<string>, end: End)
    ensures end == ReadingEnd(sources)
    ensures !end.Lost? ==> Listed(used) == UsedBy(sources, FirstUnread(sources, 0))
  {
    hide OpeningOf, UsedFrom;
    used := [];
    var i := 0;
    while i < |sources|
      invariant 0 <= i <= |sources| && FirstUnread(sources, 0) == FirstUnread(sources, i)
      invariant Listed(used) == UsedBy(sources, i)
    {
      if sources[i].Unopenable? { return used, NotOpened; }
      var opening := ReadOpening(sources[i].text);
      if opening.NoVersion? { return used, Lost; }
      if opening.number > DEDUPE_VERSION { return used, Newer; }
      var more := CollectKeys(opening.number, sources[i].text, opening.at, used);
      if more.None? { return used, Lost; }
      used := more.value;
      i := i + 1;
    }
    end := AllRead;
  }

  // ----- the gc command -----

  /** What `qsort` does. */
  ghost predicate Sorts(sort: seq<string> -> seq<string>) {
    forall s :: Ascending(sort(s)) && forall x :: x in sort(s) <==> x in s
  }

  /** The blobs that gc leaves: all of them if a manifest cannot be opened, otherwise those used by the manifests
      before the first one that is not read. */
  function Swept(b: Blobs, sources: seq<Source>): (b': Blobs) {
    if ReadingEnd(sources).NotOpened? then b
    else map x | x in b && x in UsedBy(sources, FirstUnread(sources, 0)) :: b[x]
  }

  /** The gc command.  A manifest that cannot be opened stops it before anything is deleted; one of a newer version
      only stops the reading.  Both are reported. */
  method Gc(b: Blobs, listing: seq<string>, sources: seq<Source>, sort: seq<string> -> seq<string>)
    returns (end: End, failure: bool, b': Blobs)
    requires Sorts(sort) && Listed(listing) == b.Keys
    ensures end == ReadingEnd(sources)
    ensures failure <==> end.NotOpened? || end.Newer?
    ensures !end.Lost? ==> b' == Swept(b, sources)
  {
    hide Ascending, ReadingEnd, UsedBy, FirstUnread;
    var used;
    used, end := ReadSources(sources);
    failure := end.NotOpened? || end.Newer?;
    if end.NotOpened? || end.Lost? { return end, failure, b; }
    var all, names := sort(listing), sort(used);
    var gone := FindUnused(all, names);
    b' := map x | x in b && x !in gone :: b[x];
    assert forall x :: x in used <==> x in Listed(used);
    assert forall x :: x in listing <==> x in Listed(listing);
  }

  // ----- what survives -----

  /** Every blob that a readable manifest uses is left. */
  ghost predicate Survive(b: Blobs, b': Blobs, sources: seq<Source>) {
    forall k, x :: 0 <= k < |sources| && ReadingOf(sources[k]).Names? && x in ReadingOf(sources[k]).names && x in b ==>
      x in b'
  }

  /** What the manifests after the first unread one use is used before it as well. */
  ghost predicate UsedBefore(b: Blobs, sources: seq<Source>) {
    var n := FirstUnread(sources, 0);
    forall k, x :: n < k < |sources| && ReadingOf(sources[k]).Names? && x in ReadingOf(sources[k]).names && x in b ==>
      x in UsedBy(sources, n)
  }

  /** Gc keeps every used blob if and only if a manifest cannot be opened, or the blobs used by manifests after one of
      a newer version are used before it as well.  (What a run that overruns memory leaves is not told by Swept.) */
  lemma SurviveExactly(b: Blobs, sources: seq<Source>)
    ensures Survive(b, Swept(b, sources), sources) <==> ReadingEnd(sources).NotOpened? || UsedBefore(b, sources)
    ensures ReadingEnd(sources).AllRead? ==> UsedBefore(b, sources)
  {
    hide ReadingOf, UsedBy;
    var n := FirstUnread(sources, 0);
    FirstUnreadIs(sources, 0);
    if UsedBefore(b, sources) {
      forall k, x | 0 <= k < |sources| && ReadingOf(sources[k]).Names? && x in ReadingOf(sources[k]).names && x in b
        ensures x in Swept(b, sources)
      {
        InUsedBy(sources, n, x);
      }
    }
  }

  /** The blob names of items. */
  ghost function KeysOf(items: seq<Item>): (r: set<string>) {
    set i | i in items && i.body.FileBody? :: i.body.key
  }

  lemma KeysSplit(items: seq<Item>)
    requires items != []
    ensures KeysOf(items) == KeysOf(items[1..]) + if items[0].body.FileBody? then {items[0].body.key} else {}
  {
    assert items == [items[0]] + items[1..];
  }

  lemma {:induction false} UsedLines(items: seq<Item>, text: string, at: nat)
    requires AllLegible(items) && at <= |text| && text[at..] == Text(items)
    ensures UsedFrom(DEDUPE_VERSION, text, at) == Some(KeysOf(items))
    decreases |text| - at
  {
    hide Text, EndOfLine, UseAt, Legible, AllLegible, LineOf, KeysOf;
    if at == |text| {
      TextEnds(text, items);
      assert KeysOf([]) == {} by { NoKeys(); }
    } else {
      OneLine(text, at, items);
      LineUse(DEDUPE_VERSION, items[0]);
      KeysSplit(items);
      UsedLines(items[1..], text, EndOfLine(text, at));
    }
  }

  lemma NoKeys()
    ensures KeysOf([]) == {}
  {
  }

  /** Of a manifest that was written by the store, gc finds exactly the blobs of its files. */
  lemma StoredNames(items: seq<Item>)
    requires AllLegible(items)
    ensures ReadingOf(Opened(HEADER + Text(items))) == Names(KeysOf(items))
  {
    hide Text, UsedFrom, OpeningOf, KeysOf;
    var text := HEADER + Text(items);
    HeaderTwo(Text(items));
    assert text[|HEADER|..] == Text(items);
    UsedLines(items, text, |HEADER|);
  }

  /** If the first manifest is of version 3, gc deletes every blob, those of the manifests after it included. */
  lemma NewerLoses(b: Blobs, rest: string, items: seq<Item>, k: nat)
    requires AllLegible(items) && k < |items| && items[k].body.FileBody? && items[k].body.key in b
    ensures var sources := [Opened("dedupe\t3\n" + rest), Opened(HEADER + Text(items))];
            && ReadingEnd(sources).Newer? && Swept(b, sources) == map[]
            && ReadingOf(sources[1]).Names? && items[k].body.key in ReadingOf(sources[1]).names
  {
    hide Text, UsedFrom, OpeningOf, AllLegible;
    var sources := [Opened("dedupe\t3\n" + rest), Opened(HEADER + Text(items))];
    assert "dedupe\t" + [DigitChar(3)] + "\n" == "dedupe\t3\n";
    HeaderOpens(3, rest);
    assert ReadingOf(sources[0]) == TooNew && FirstUnread(sources, 0) == 0;
    StoredNames(items);
  }
}
