/** Extracting what was stored (dedupe/dedupe.c): the tree comes back, unless a link is too long. */
module DedupeExtract {
  import opened Suffixes
  import opened Numbers
  import opened Manifest
  import opened ManifestLines
  import opened ManifestText
  import opened Dedupe

  /** What the extract loop creates.  The mode of a link is not restored. */
  datatype Object =
    | FileObject(mode: nat, uid: nat, gid: nat, selabel: string, data: bytes)
    | LinkObject(uid: nat, gid: nat, selabel: string, target: string)
    | DirObject(mode: nat, uid: nat, gid: nat, selabel: string)

  type Disk = map<string, Object>

  predicate Available(i: Item, b: Blobs) {
    i.body.FileBody? ==> i.body.key in b
  }

  function Made(i: Item, b: Blobs): (o: Object)
    requires Available(i, b)
  {
    match i.body
    case FileBody(key, _) => FileObject(i.meta.mode, i.meta.uid, i.meta.gid, i.meta.selabel, b[key])
    case LinkBody(target) => LinkObject(i.meta.uid, i.meta.gid, i.meta.selabel, target)
    case DirBody => DirObject(i.meta.mode, i.meta.uid, i.meta.gid, i.meta.selabel)
  }

  ghost predicate AllAvailable(items: seq<Item>, b: Blobs) {
    forall k :: 0 <= k < |items| ==> Available(items[k], b)
  }

  /** The objects made from the first k lines. */
  ghost function Restored(items: seq<Item>, b: Blobs, k: nat): (d: Disk)
    requires k <= |items| && AllAvailable(items, b)
  {
    if k == 0 then map[] else Restored(items, b, k - 1)[items[k - 1].path := Made(items[k - 1], b)]
  }

  // ----- the extract command -----

  /** How extraction ends: all lines carried out; stopped at a newer version, an unknown type or a missing blob; or
      memory overrun. */
  datatype Extraction = Complete(disk: Disk) | Halted(disk: Disk) | Crashed

  /** The lines of a text from `at` on, carried out one after the other. */
  function ExtractFrom(version: int, text: string, at: nat, b: Blobs, disk: Disk): (r: Extraction)
    requires at <= |text|
    decreases |text| - at
  {
    if at == |text| then Complete(disk)
    else
      var end := EndOfLine(text, at);
      match RowAt(version, text[at..end])
      case Overrun => Crashed
      case UnknownType => Halted(disk)
      case Row(i) =>
        if Available(i, b) then ExtractFrom(version, text, end, b, disk[i.path := Made(i, b)]) else Halted(disk)
  }

  function Extracted(text: string, b: Blobs): (r: Extraction) {
    match OpeningOf(text)
    case NoVersion => Crashed
    case Version(v, at) => if v > DEDUPE_VERSION then Halted(map[]) else ExtractFrom(v, text, at, b, map[])
  }

  /** The extract command, on any text. */
  method Extract(text: string, b: Blobs) returns (r: Extraction)
    ensures r == Extracted(text, b)
  {
    hide OpeningOf, EndOfLine, RowAt, Made;
    var opening := ReadOpening(text);
    if opening.NoVersion? { return Crashed; }
    if opening.number > DEDUPE_VERSION { return Halted(map[]); }
    var disk: Disk, at := map[], opening.at;
    while at < |text|
      invariant at <= |text|
      invariant ExtractFrom(opening.number, text, opening.at, b, map[]) ==
                ExtractFrom(opening.number, text, at, b, disk)
    {
      var end := FGets(text, at);
      var row := ReadItem(opening.number, text[at..end]);
      if row.Overrun? { return Crashed; }
      if row.UnknownType? { return Halted(disk); }
      var i := row.item;
      if !Available(i, b) { return Halted(disk); }
      disk := disk[i.path := Made(i, b)];
      at := end;
    }
    return Complete(disk);
  }

  /** The items carried out one after the other. */
  function ExtractItems(items: seq<Item>, b: Blobs, disk: Disk): (r: Extraction) {
    if items == [] then Complete(disk)
    else if !ShortLink(items[0]) then Crashed
    else if !Available(items[0], b) then Halted(disk)
    else ExtractItems(items[1..], b, disk[items[0].path := Made(items[0], b)])
  }

  lemma {:induction false} ExtractLines(items: seq<Item>, text: string, at: nat, b: Blobs, disk: Disk)
    requires AllLegible(items) && at <= |text| && text[at..] == Text(items)
    ensures ExtractFrom(DEDUPE_VERSION, text, at, b, disk) == ExtractItems(items, b, disk)
    decreases |text| - at
  {
    hide Text, EndOfLine, RowAt, Legible, AllLegible, LineOf;
    if at == |text| {
      TextEnds(text, items);
    } else {
      OneLine(text, at, items);
      LineRow(DEDUPE_VERSION, items[0]);
      if ShortLink(items[0]) && Available(items[0], b) {
        MadeKept(items[0], b);
        ExtractLines(items[1..], text, EndOfLine(text, at), b, disk[items[0].path := Made(items[0], b)]);
      }
    }
  }

  lemma MadeKept(i: Item, b: Blobs)
    requires Available(i, b)
    ensures var k := Kept(DEDUPE_VERSION, i); k.path == i.path && Available(k, b) && Made(k, b) == Made(i, b)
  {
  }

  lemma {:induction false} ItemsDone(items: seq<Item>, b: Blobs, k: nat)
    requires k <= |items| && AllAvailable(items, b)
    ensures ExtractItems(items[k..], b, Restored(items, b, k))
            == if AllShort(items[k..]) then Complete(Restored(items, b, |items|)) else Crashed
    decreases |items| - k
  {
    hide ShortLink, Made, Available;
    if k < |items| {
      assert items[k..][0] == items[k] && items[k..][1..] == items[k + 1..];
      ItemsDone(items, b, k + 1);
      ShortSplit(items[k..]);
    }
  }

  lemma ShortSplit(items: seq<Item>)
    requires items != []
    ensures AllShort(items) <==> ShortLink(items[0]) && AllShort(items[1..])
  {
    hide ShortLink;
    if ShortLink(items[0]) && AllShort(items[1..]) {
      assert forall i :: 0 < i < |items| ==> items[i] == items[1..][i - 1];
    }
  }

  lemma AvailableSplit(items: seq<Item>, b: Blobs)
    requires items != []
    ensures AllAvailable(items, b) <==> Available(items[0], b) && AllAvailable(items[1..], b)
  {
    hide Available;
    if Available(items[0], b) && AllAvailable(items[1..], b) {
      assert forall i :: 0 < i < |items| ==> items[i] == items[1..][i - 1];
    }
  }

  lemma {:induction false} ItemsMissing(items: seq<Item>, b: Blobs, disk: Disk)
    requires !AllAvailable(items, b)
    ensures !ExtractItems(items, b, disk).Complete?
    decreases |items|
  {
    hide ShortLink, Made, Available;
    if items != [] && Available(items[0], b) && ShortLink(items[0]) {
      AvailableSplit(items, b);
      ItemsMissing(items[1..], b, disk[items[0].path := Made(items[0], b)]);
    }
  }

  /** On a manifest that was written by the store, extraction is complete if and only if no blob is missing and no
      link has more than 40 characters. */
  lemma ExtractExactly(items: seq<Item>, b: Blobs)
    requires AllLegible(items)
    ensures var r := Extracted(HEADER + Text(items), b);
            && (r.Complete? <==> AllAvailable(items, b) && AllShort(items))
            && (AllAvailable(items, b) ==>
                  r == if AllShort(items) then Complete(Restored(items, b, |items|)) else Crashed)
  {
    hide AllLegible, Text, AllAvailable, AllShort, OpeningOf, ExtractFrom, ExtractItems;
    var text := HEADER + Text(items);
    HeaderTwo(Text(items));
    assert text[|HEADER|..] == Text(items);
    ExtractLines(items, text, |HEADER|, b, map[]);
    assert items[0..] == items;
    if AllAvailable(items, b) { ItemsDone(items, b, 0); } else { ItemsMissing(items, b, map[]); }
  }

  // ----- a link that is too long -----

  /** A directory that holds one link, named l. */
  function LinkTree(target: string): (n: Node)
    ensures n.Dir? && |n.entries| == 1
  {
    Dir(Meta(0, 0, 0, "u", 0, 0, 0), [Entry("l", Link(Meta(0, 0, 0, "u", 0, 0, 0), target))])
  }

  function LinkItem(target: string): (i: Item) {
    Item(Meta(0, 0, 0, "u", 0, 0, 0), "./l", LinkBody(target))
  }

  lemma {:induction false} TabbedShort(fields: seq<string>)
    requires forall i :: 0 <= i < |fields| ==> |fields[i]| < 32
    ensures |Tabbed(fields)| <= 32 * |fields|
  {
    if fields != [] { TabbedShort(fields[1..]); }
  }

  lemma LinkLegible(target: string)
    requires Plain(target) && |target| <= 1000
    ensures Legible(DEDUPE_VERSION, LinkItem(target))
  {
    hide Printed, Tabbed;
    var i := LinkItem(target);
    NumberFields(i);
    TabbedShort(HeadFields(DEDUPE_VERSION, i));
    OneTabbed(target);
  }

  lemma OneTabbed(f: string)
    ensures |Tabbed([f])| == |f| + 1
  {
    assert Tabbed([f]) == f + [TAB] + Tabbed([]);
  }

  lemma LinkTreeItems(sha: Hash, target: string)
    requires Digests256(sha)
    ensures EntryItems(sha, LinkTree(target), ".", {}, 1) == [LinkItem(target)]
  {
    hide Items, EntryItems, Child, Masked;
    var dir := LinkTree(target);
    OneEntry(sha, dir, ".");
    assert Child(".", "l") == "./l" && Masked(dir.meta) == dir.meta by { SmallPath(); ZeroMode(dir.meta); }
    LinkItems(sha, dir.meta, target, "./l");
  }

  lemma OneEntry(sha: Hash, dir: Node, path: string)
    requires Digests256(sha) && dir.Dir? && |dir.entries| == 1
    ensures EntryItems(sha, dir, path, {}, 1) == Items(sha, dir.entries[0].node, Child(path, dir.entries[0].name), {})
  {
    hide Items, Child;
    assert EntryItems(sha, dir, path, {}, 0) == [];
  }

  lemma LinkItems(sha: Hash, m: Meta, target: string, path: string)
    requires Digests256(sha)
    ensures Items(sha, Link(m, target), path, {}) == [Item(Masked(m), path, LinkBody(target))]
  {
    hide Masked;
  }

  lemma SmallPath()
    ensures Child(".", "l") == "./l"
  {
  }

  lemma ZeroMode(m: Meta)
    requires m.mode == 0
    ensures Masked(m) == m
  {
  }

  /** A tree with a link of 41 characters or more can be stored, and its manifest makes every extraction overrun
      memory. */
  lemma LongLinkCrashes(sha: Hash, b: Blobs, target: string)
    requires Digests256(sha) && Plain(target) && 40 < |target| <= 1000
    ensures Readable(LinkTree(target)) && WellNamed(LinkTree(target))
    ensures Extracted(HEADER + Text(EntryItems(sha, LinkTree(target), ".", {}, 1)), b) == Crashed
  {
    hide Legible, Extracted, Text, EntryItems, Plain;
    LinkTreeItems(sha, target);
    LinkLegible(target);
    assert !ShortLink(LinkItem(target)) && Available(LinkItem(target), b);
    ExtractExactly([LinkItem(target)], b);
  }

  // ----- paths -----

  ghost predicate DistinctPaths(items: seq<Item>) {
    forall p, q :: 0 <= p < q < |items| ==> items[p].path != items[q].path
  }

  /** With distinct paths no line undoes another. */
  lemma {:induction false} RestoredAt(items: seq<Item>, b: Blobs, k: nat, m: nat)
    requires m < k <= |items| && AllAvailable(items, b) && DistinctPaths(items)
    ensures items[m].path in Restored(items, b, k) && Restored(items, b, k)[items[m].path] == Made(items[m], b)
  {
    hide Made, Available;
    if m < k - 1 { RestoredAt(items, b, k - 1, m); }
  }

  /** p is base or lies below it. */
  ghost predicate Under(p: string, base: string) {
    p == base || base + "/" <= p
  }

  ghost predicate NoSlash(s: string) {
    forall i :: 0 <= i < |s| ==> s[i] != '/'
  }

  lemma SameComponent(rest: string, a: string, b: string)
    requires NoSlash(a) && NoSlash(b) && (rest == a || a + "/" <= rest) && (rest == b || b + "/" <= rest)
    ensures a == b
  {
    var n := if |a| < |b| then |a| else |b|;
    assert a[..n] == rest[..n] == b[..n];
    assert forall i :: 0 <= i < |a| ==> rest[i] == a[i];
    assert forall i :: 0 <= i < |b| ==> rest[i] == b[i];
    assert a + "/" <= rest ==> rest[|a|] == '/';
    assert b + "/" <= rest ==> rest[|b|] == '/';
  }

  /** Nothing lies below two entries of a directory. */
  lemma SiblingsApart(p: string, path: string, a: string, b: string)
    requires NoSlash(a) && NoSlash(b) && Under(p, Child(path, a)) && Under(p, Child(path, b))
    ensures a == b
  {
    var rest := p[|path| + 1..];
    BelowChild(p, path, a);
    BelowChild(p, path, b);
    SameComponent(rest, a, b);
  }

  lemma BelowChild(p: string, path: string, a: string)
    requires Under(p, Child(path, a))
    ensures |p| > |path| && path + "/" <= p
    ensures var rest := p[|path| + 1..]; rest == a || a + "/" <= rest
  {
  }

  lemma UnderTrans(p: string, path: string, a: string)
    requires Under(p, Child(path, a))
    ensures Under(p, path) && p != path
  {
  }

  ghost predicate AllUnder(items: seq<Item>, base: string) {
    forall i :: 0 <= i < |items| ==> Under(items[i].path, base)
  }

  /** Names as the file system has them: no slash, and different within a directory. */
  ghost predicate WellNamed(node: Node)
    decreases node
  {
    node.Dir? ==>
      && (forall k :: 0 <= k < |node.entries| ==> NoSlash(node.entries[k].name) && WellNamed(node.entries[k].node))
      && (forall j, k :: 0 <= j < k < |node.entries| ==> node.entries[j].name != node.entries[k].name)
  }

  lemma {:induction false} ItemsUnder(sha: Hash, node: Node, path: string, ex: set<string>)
    requires Digests256(sha)
    ensures AllUnder(Items(sha, node, path, ex), path)
    decreases node, if node.Dir? then |node.entries| + 1 else 0
  {
    hide Key, Masked;
    if node.Dir? { EntriesUnder(sha, node, path, ex, |node.entries|); }
  }

  /** Every line of the first k entries lies below one of them. */
  ghost predicate BelowSome(p: string, dir: Node, path: string, k: nat)
    requires dir.Dir?
  {
    exists j :: 0 <= j < k && j < |dir.entries| && Under(p, Child(path, dir.entries[j].name))
  }

  lemma {:induction false} EntriesUnder(sha: Hash, dir: Node, path: string, ex: set<string>, k: nat)
    requires Digests256(sha) && dir.Dir? && k <= |dir.entries|
    ensures forall i :: 0 <= i < |EntryItems(sha, dir, path, ex, k)| ==>
              BelowSome(EntryItems(sha, dir, path, ex, k)[i].path, dir, path, k)
    ensures AllUnder(EntryItems(sha, dir, path, ex, k), path)
    decreases dir, k
  {
    hide Under, Items, Child, Key, Masked;
    if k > 0 {
      var e := dir.entries[k - 1];
      EntriesUnder(sha, dir, path, ex, k - 1);
      ItemsUnder(sha, e.node, Child(path, e.name), ex);
      var items := EntryItems(sha, dir, path, ex, k);
      forall i | 0 <= i < |items|
        ensures BelowSome(items[i].path, dir, path, k)
      {
        if i < |EntryItems(sha, dir, path, ex, k - 1)| {
          assert BelowSome(items[i].path, dir, path, k - 1);
          var j :| 0 <= j < k - 1 && j < |dir.entries| && Under(items[i].path, Child(path, dir.entries[j].name));
        } else {
          assert Under(items[i].path, Child(path, e.name));
        }
      }
    }
    var items := EntryItems(sha, dir, path, ex, k);
    forall i | 0 <= i < |items|
      ensures Under(items[i].path, path)
    {
      assert BelowSome(items[i].path, dir, path, k);
      var j :| 0 <= j < k && j < |dir.entries| && Under(items[i].path, Child(path, dir.entries[j].name));
      UnderTrans(items[i].path, path, dir.entries[j].name);
    }
  }

  lemma AppendDistinct(a: seq<Item>, b: seq<Item>)
    requires DistinctPaths(a) && DistinctPaths(b)
    requires forall i, j :: 0 <= i < |a| && 0 <= j < |b| ==> a[i].path != b[j].path
    ensures DistinctPaths(a + b)
  {
  }

  lemma {:induction false} ItemsDistinct(sha: Hash, node: Node, path: string, ex: set<string>)
    requires Digests256(sha) && WellNamed(node)
    ensures DistinctPaths(Items(sha, node, path, ex))
    decreases node, if node.Dir? then |node.entries| + 1 else 0
  {
    hide Under, Child, Key, Masked, EntryItems;
    if node.Dir? {
      EntriesDistinct(sha, node, path, ex, |node.entries|);
      EntriesUnder(sha, node, path, ex, |node.entries|);
      var items := EntryItems(sha, node, path, ex, |node.entries|);
      forall j | 0 <= j < |items|
        ensures items[j].path != path
      {
        assert BelowSome(items[j].path, node, path, |node.entries|);
        var k :| 0 <= k < |node.entries| && Under(items[j].path, Child(path, node.entries[k].name));
        UnderTrans(items[j].path, path, node.entries[k].name);
      }
      AppendDistinct([Item(Masked(node.meta), path, DirBody)], items);
    }
  }

  lemma {:induction false} EntriesDistinct(sha: Hash, dir: Node, path: string, ex: set<string>, k: nat)
    requires Digests256(sha) && dir.Dir? && k <= |dir.entries| && WellNamed(dir)
    ensures DistinctPaths(EntryItems(sha, dir, path, ex, k))
    decreases dir, k
  {
    hide Under, Child, Key, Masked, Items, DistinctPaths, NoSlash;
    if k > 0 {
      var e := dir.entries[k - 1];
      EntriesDistinct(sha, dir, path, ex, k - 1);
      if Child(path, e.name) !in ex {
        ItemsDistinct(sha, e.node, Child(path, e.name), ex);
        EntryApart(sha, dir, path, ex, k);
        AppendDistinct(EntryItems(sha, dir, path, ex, k - 1), Items(sha, e.node, Child(path, e.name), ex));
      } else {
        assert EntryItems(sha, dir, path, ex, k - 1) + [] == EntryItems(sha, dir, path, ex, k - 1);
      }
    } else {
      NoneDistinct();
    }
  }

  lemma NoneDistinct()
    ensures DistinctPaths([])
  {
  }

  /** The lines of an entry are apart from those of the entries before it. */
  lemma EntryApart(sha: Hash, dir: Node, path: string, ex: set<string>, k: nat)
    requires Digests256(sha) && dir.Dir? && 0 < k <= |dir.entries| && WellNamed(dir)
    ensures var e := dir.entries[k - 1];
            var a, b := EntryItems(sha, dir, path, ex, k - 1), Items(sha, e.node, Child(path, e.name), ex);
            forall i, j :: 0 <= i < |a| && 0 <= j < |b| ==> a[i].path != b[j].path
  {
    hide Under, Child, Items, EntryItems, NoSlash;
    var e := dir.entries[k - 1];
    var a, b := EntryItems(sha, dir, path, ex, k - 1), Items(sha, e.node, Child(path, e.name), ex);
    EntriesUnder(sha, dir, path, ex, k - 1);
    ItemsUnder(sha, e.node, Child(path, e.name), ex);
    forall i, j | 0 <= i < |a| && 0 <= j < |b|
      ensures a[i].path != b[j].path
    {
      assert BelowSome(a[i].path, dir, path, k - 1);
      var m :| 0 <= m < k - 1 && m < |dir.entries| && Under(a[i].path, Child(path, dir.entries[m].name));
      assert Under(b[j].path, Child(path, e.name));
      if a[i].path == b[j].path { SiblingsApart(a[i].path, path, dir.entries[m].name, e.name); }
    }
  }

  // ----- the tree comes back -----

  ghost predicate HoldsObject(d: Disk, path: string, o: Object) {
    path in d && d[path] == o
  }

  /** The disk holds the node and everything below it, except what was excluded. */
  ghost predicate Restores(d: Disk, node: Node, path: string, ex: set<string>)
    decreases node
  {
    match node
    case File(m, data) =>
      && data.Some? && path in d && d[path].FileObject? && KeepsBits(d[path].mode, m.mode)
      && d[path] == FileObject(d[path].mode, m.uid, m.gid, m.selabel, data.value)
    case Link(m, target) => HoldsObject(d, path, LinkObject(m.uid, m.gid, m.selabel, target))
    case Dir(m, entries) =>
      && path in d && d[path].DirObject? && KeepsBits(d[path].mode, m.mode)
      && d[path] == DirObject(d[path].mode, m.uid, m.gid, m.selabel)
      && RestoresEntries(d, node, path, ex)
    case Special => true
  }

  ghost predicate RestoresEntries(d: Disk, dir: Node, path: string, ex: set<string>)
    decreases dir, 0
  {
    dir.Dir? ==>
      forall k :: 0 <= k < |dir.entries| && Child(path, dir.entries[k].name) !in ex ==>
        Restores(d, dir.entries[k].node, Child(path, dir.entries[k].name), ex)
  }

  /** No other content has the digest of a file of the tree. */
  ghost predicate NoCollision(sha: Hash, node: Node)
    decreases node
  {
    match node
    case File(_, data) => data.Some? ==> forall c :: sha(c) == sha(data.value) ==> c == data.value
    case Dir(_, entries) => forall k :: 0 <= k < |entries| ==> NoCollision(sha, entries[k].node)
    case _ => true
  }

  /** Every line has been carried out. */
  ghost predicate CarriedOut(d: Disk, items: seq<Item>, b: Blobs) {
    forall k :: 0 <= k < |items| ==> Available(items[k], b) && HoldsObject(d, items[k].path, Made(items[k], b))
  }

  lemma {:induction false} CarriedOutRestores(sha: Hash, d: Disk, b: Blobs, node: Node, path: string, ex: set<string>)
    requires Digests256(sha) && NoCollision(sha, node) && Covers(sha, b, node, path, ex)
    requires CarriedOut(d, Items(sha, node, path, ex), b)
    ensures Restores(d, node, path, ex)
    decreases node
  {
    hide Key, EntryItems, KeepsBits;
    var items := Items(sha, node, path, ex);
    if node.Dir? || node.File? { MaskedBits(node.meta); }
    if node.Dir? {
      assert items[0] == Item(Masked(node.meta), path, DirBody);
      assert forall k :: 0 <= k < |items| - 1 ==> items[1..][k] == items[k + 1];
      assert items[1..] == EntryItems(sha, node, path, ex, |node.entries|);
      CarriedOutEntries(sha, d, b, node, path, ex);
    } else if !node.Special? {
      assert Available(items[0], b) && HoldsObject(d, items[0].path, Made(items[0], b));
    }
  }

  lemma {:induction false} CarriedOutEntries(sha: Hash, d: Disk, b: Blobs, dir: Node, path: string, ex: set<string>)
    requires Digests256(sha) && NoCollision(sha, dir) && Covers(sha, b, dir, path, ex) && dir.Dir?
    requires CarriedOut(d, EntryItems(sha, dir, path, ex, |dir.entries|), b)
    ensures RestoresEntries(d, dir, path, ex)
    decreases dir, 0
  {
    hide HoldsObject, Key, Masked, Items, Has;
    forall k | 0 <= k < |dir.entries| && Child(path, dir.entries[k].name) !in ex
      ensures Restores(d, dir.entries[k].node, Child(path, dir.entries[k].name), ex)
    {
      PartOf(sha, d, b, dir, path, ex, k, |dir.entries|);
      CarriedOutRestores(sha, d, b, dir.entries[k].node, Child(path, dir.entries[k].name), ex);
    }
  }

  /** The lines of entry k are among those of the first n entries. */
  lemma {:induction false} PartOf(sha: Hash, d: Disk, b: Blobs, dir: Node, path: string, ex: set<string>, k: nat,
                                  n: nat)
    requires Digests256(sha) && dir.Dir? && k < n <= |dir.entries| && Child(path, dir.entries[k].name) !in ex
    requires CarriedOut(d, EntryItems(sha, dir, path, ex, n), b)
    ensures CarriedOut(d, Items(sha, dir.entries[k].node, Child(path, dir.entries[k].name), ex), b)
    decreases n
  {
    hide CarriedOut, Items, Child;
    var e := dir.entries[n - 1];
    var c := if Child(path, e.name) in ex then [] else Items(sha, e.node, Child(path, e.name), ex);
    CarriedOutParts(d, EntryItems(sha, dir, path, ex, n - 1), c, b);
    if k < n - 1 { PartOf(sha, d, b, dir, path, ex, k, n - 1); }
  }

  lemma CarriedOutParts(d: Disk, a: seq<Item>, c: seq<Item>, b: Blobs)
    requires CarriedOut(d, a + c, b)
    ensures CarriedOut(d, a, b) && CarriedOut(d, c, b)
  {
    hide HoldsObject, Made, Available;
    assert forall i :: 0 <= i < |a| ==> (a + c)[i] == a[i];
    assert forall i :: 0 <= i < |c| ==> (a + c)[|a| + i] == c[i];
  }

  lemma {:induction false} ItemsAvailable(sha: Hash, b: Blobs, node: Node, path: string, ex: set<string>)
    requires Digests256(sha) && Covers(sha, b, node, path, ex)
    ensures AllAvailable(Items(sha, node, path, ex), b)
    decreases node, if node.Dir? then |node.entries| + 1 else 0
  {
    hide Key, Masked, EntryItems;
    if node.Dir? {
      EntriesAvailable(sha, b, node, path, ex, |node.entries|);
    } else if node.File? {
      assert Has(sha, b, node.data.value);
    }
  }

  lemma {:induction false} EntriesAvailable(sha: Hash, b: Blobs, dir: Node, path: string, ex: set<string>, n: nat)
    requires Digests256(sha) && dir.Dir? && n <= |dir.entries| && Covers(sha, b, dir, path, ex)
    ensures AllAvailable(EntryItems(sha, dir, path, ex, n), b)
    decreases dir, n
  {
    hide Items, Available, Has, Child;
    if n > 0 {
      var e := dir.entries[n - 1];
      EntriesAvailable(sha, b, dir, path, ex, n - 1);
      if Child(path, e.name) !in ex { ItemsAvailable(sha, b, e.node, Child(path, e.name), ex); }
    }
  }

  /** Extraction from a store that covers a tree, with the manifest that was written for it, gives back the tree if
      no link has more than 40 characters, and otherwise overruns memory. */
  lemma ExtractRestores(sha: Hash, b: Blobs, root: Node, ex: set<string>)
    requires Digests256(sha) && root.Dir? && WellNamed(root) && NoCollision(sha, root) && Covers(sha, b, root, ".", ex)
    requires AllLegible(EntryItems(sha, root, ".", ex, |root.entries|))
    ensures var items := EntryItems(sha, root, ".", ex, |root.entries|);
            var r := Extracted(HEADER + Text(items), b);
            if AllShort(items) then r.Complete? && RestoresEntries(r.disk, root, ".", ex) else r.Crashed?
  {
    hide EntryItems, Covers, NoCollision, WellNamed, RestoresEntries, Restored, Made, Available, Text, Extracted,
         AllLegible, AllShort;
    var items := EntryItems(sha, root, ".", ex, |root.entries|);
    EntriesAvailable(sha, b, root, ".", ex, |root.entries|);
    EntriesDistinct(sha, root, ".", ex, |root.entries|);
    forall m | 0 <= m < |items|
      ensures HoldsObject(Restored(items, b, |items|), items[m].path, Made(items[m], b))
    {
      RestoredAt(items, b, |items|, m);
    }
    CarriedOutEntries(sha, Restored(items, b, |items|), b, root, ".", ex);
    ExtractExactly(items, b);
  }
}
