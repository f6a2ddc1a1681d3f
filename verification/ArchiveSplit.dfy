/** Splitting a backup into archives (nandroid_advanced.c): the list files that name what goes into which archive. */
module ArchiveSplit {
  const MAX_ARCHIVE_SIZE: nat := 0x1_0000_0000
  const MAX_COUNT: nat := 999

  // ----- the directory tree -----

  /** An entry of a directory: a regular file or a symbolic link with the size `stat` reports, a directory, or
      something that is not backed up. */
  datatype Node = File(size: nat) | Link(size: nat) | Dir(entries: seq<Entry>) | Other

  datatype Entry = Entry(name: string, node: Node)

  function Child(path: string, name: string): (p: string) {
    path + "/" + name
  }

  /** `Get_Folder_Size`: the regular files only. */
  function FolderSize(dir: Node, k: nat): (s: nat)
    requires dir.Dir? && k <= |dir.entries|
    decreases dir, k
  {
    if k == 0 then 0 else FolderSize(dir, k - 1) + CountedSize(dir.entries[k - 1].node)
  }

  function CountedSize(node: Node): (s: nat)
    decreases node, if node.Dir? then |node.entries| + 1 else 0
  {
    match node
    case File(size) => size
    case Dir(entries) => FolderSize(node, |entries|)
    case _ => 0
  }

  /** A file or link, by its directory and its name. */
  datatype Leaf = Leaf(dir: string, name: string)

  /** All files and links below a directory, in the order of the walk. */
  function Leaves(dir: Node, path: string, k: nat): (r: seq<Leaf>)
    requires dir.Dir? && k <= |dir.entries|
    decreases dir, k
  {
    if k == 0 then []
    else
      var e := dir.entries[k - 1];
      Leaves(dir, path, k - 1) + LeavesOf(e.node, path, e.name)
  }

  function LeavesOf(node: Node, path: string, name: string): (r: seq<Leaf>)
    decreases node, if node.Dir? then |node.entries| + 1 else 0
  {
    match node
    case Dir(entries) => Leaves(node, Child(path, name), |entries|)
    case Other => []
    case _ => [Leaf(path, name)]
  }

  // ----- what is skipped -----

  predicate Contains(s: string, t: string) {
    exists i :: 0 <= i <= |s| && t <= s[i..]
  }

  /** Paths that begin with /data/media, on devices that keep the storage there. */
  predicate Media(dataMedia: bool, path: string) {
    dataMedia && "/data/media" <= path
  }

  /** Directories of the music cache. */
  predicate Music(path: string) {
    Contains(path, "data/data/com.google.android.music/files")
  }

  predicate Wanted(dataMedia: bool, l: Leaf) {
    !Media(dataMedia, Child(l.dir, l.name)) && !Music(l.dir)
  }

  function Filtered(dataMedia: bool, ls: seq<Leaf>): (r: seq<Leaf>) {
    if ls == [] then []
    else Filtered(dataMedia, ls[..|ls| - 1]) + if Wanted(dataMedia, ls[|ls| - 1]) then [ls[|ls| - 1]] else []
  }

  lemma {:induction false} FilteredAppend(m: bool, a: seq<Leaf>, b: seq<Leaf>)
    ensures Filtered(m, a + b) == Filtered(m, a) + Filtered(m, b)
    decreases |b|
  {
    hide Wanted;
    if b == [] {
      assert a + b == a;
    } else {
      var n := |b| - 1;
      assert (a + b)[..|a + b| - 1] == a + b[..n] && (a + b)[|a + b| - 1] == b[n];
      FilteredAppend(m, a, b[..n]);
    }
  }

  /** Nothing is wanted below a path that is skipped. */
  predicate Skipped(dataMedia: bool, path: string) {
    Media(dataMedia, path) || Music(path)
  }

  lemma LongerSkipped(m: bool, path: string, name: string)
    ensures Media(m, path) ==> Media(m, Child(path, name))
    ensures Music(path) ==> Music(Child(path, name))
  {
    if Music(path) {
      var i :| 0 <= i <= |path| && "data/data/com.google.android.music/files" <= path[i..];
      assert Child(path, name)[i..] == path[i..] + ("/" + name);
    }
  }

  lemma {:induction false} SkippedLeaves(m: bool, dir: Node, path: string, k: nat)
    requires dir.Dir? && k <= |dir.entries| && Skipped(m, path)
    ensures Filtered(m, Leaves(dir, path, k)) == []
    decreases dir, k
  {
    hide Media, Music, Child;
    if k > 0 {
      var e := dir.entries[k - 1];
      SkippedLeaves(m, dir, path, k - 1);
      SkippedChild(m, e.node, path, e.name);
      FilteredAppend(m, Leaves(dir, path, k - 1), LeavesOf(e.node, path, e.name));
    }
  }

  lemma {:induction false} SkippedChild(m: bool, node: Node, path: string, name: string)
    requires Skipped(m, path) || Media(m, Child(path, name))
    ensures Filtered(m, LeavesOf(node, path, name)) == []
    decreases node, if node.Dir? then |node.entries| + 1 else 0
  {
    hide Media, Music, Child;
    LongerSkipped(m, path, name);
    if node.Dir? { SkippedLeaves(m, node, Child(path, name), |node.entries|); }
  }

  // ----- the lists -----

  /** A line of a list: one file or link, or a whole directory. */
  datatype Item = One(leaf: Leaf, size: nat) | Folder(path: string, dir: Node)

  function ItemSize(i: Item): (s: nat) {
    match i
    case One(_, size) => size
    case Folder(_, dir) => CountedSize(dir)
  }

  /** The files and links that a line puts into its archive. */
  function Covered(i: Item): (r: seq<Leaf>) {
    match i
    case One(l, _) => [l]
    case Folder(path, dir) => if dir.Dir? then Leaves(dir, path, |dir.entries|) else []
  }

  /** A line that may be written: its path does not begin with /data/media on devices that keep the storage there, and
      it is not for an entry of a music cache directory. */
  ghost predicate Allowed(dataMedia: bool, i: Item) {
    match i
    case One(l, _) => AllowedEntry(dataMedia, l.dir, l.name)
    case Folder(path, _) => exists dir, name :: path == Child(dir, name) && AllowedEntry(dataMedia, dir, name)
  }

  ghost predicate AllowedEntry(dataMedia: bool, dir: string, name: string) {
    && !(dataMedia && "/data/media" <= dir + "/" + name)
    && forall i :: 0 <= i <= |dir| ==> !("data/data/com.google.android.music/files" <= dir[i..])
  }

  ghost predicate AllAllowed(dataMedia: bool, lists: seq<seq<Item>>) {
    forall k, j :: 0 <= k < |lists| && 0 <= j < |lists[k]| ==> Allowed(dataMedia, lists[k][j])
  }

  lemma AllowedMore(m: bool, lists: seq<seq<Item>>, i: Item)
    requires lists != [] && AllAllowed(m, lists) && Allowed(m, i)
    ensures AllAllowed(m, lists[|lists| - 1 := lists[|lists| - 1] + [i]])
  {
    hide Allowed;
  }

  lemma EntryAllowed(m: bool, dir: string, name: string)
    requires !Media(m, Child(dir, name)) && !Music(dir)
    ensures AllowedEntry(m, dir, name)
  {
    assert Child(dir, name) == dir + "/" + name;
  }

  function Total(list: seq<Item>): (s: nat) {
    if list == [] then 0 else Total(list[..|list| - 1]) + ItemSize(list[|list| - 1])
  }

  function CoveredBy(list: seq<Item>): (r: seq<Leaf>) {
    if list == [] then [] else CoveredBy(list[..|list| - 1]) + Covered(list[|list| - 1])
  }

  function AllCovered(lists: seq<seq<Item>>): (r: seq<Leaf>) {
    if lists == [] then [] else AllCovered(lists[..|lists| - 1]) + CoveredBy(lists[|lists| - 1])
  }

  /** Within the limit, or a single file that is too large after items of no size. */
  ghost predicate Bounded(list: seq<Item>) {
    || Total(list) <= MAX_ARCHIVE_SIZE
    || (list != [] && list[|list| - 1].One? && Total(list[..|list| - 1]) == 0)
  }

  lemma Append(lists: seq<seq<Item>>, i: Item)
    requires lists != []
    ensures var n := |lists| - 1;
            && AllCovered(lists[n := lists[n] + [i]]) == AllCovered(lists) + Covered(i)
            && Total(lists[n] + [i]) == Total(lists[n]) + ItemSize(i)
  {
    hide Covered, ItemSize;
    var n := |lists| - 1;
    var l := lists[n] + [i];
    assert l[..|l| - 1] == lists[n];
    assert lists[n := l][..n] == lists[..n];
  }

  lemma AppendList(lists: seq<seq<Item>>)
    ensures AllCovered(lists + [[]]) == AllCovered(lists)
  {
  }

  // ----- the program -----

  /** The list files, and the globals Makelist_File_Count and Makelist_Current_Size. */
  class Lists {
    var lists: seq<seq<Item>>
    var count: nat
    var current: nat

    ghost predicate Valid()
      reads this
    {
      && |lists| == count + 1 && current == Total(lists[count])
      && forall k :: 0 <= k < |lists| ==> Bounded(lists[k])
    }

    constructor ()
      ensures Valid() && AllCovered(lists) == [] && lists == [[]]
    {
      lists, count, current := [[]], 0, 0;
      new;
      AppendList([]);
    }

    /** `Add_Item`, and the size that is added after it. */
    method AddItem(i: Item, ghost dataMedia: bool) returns (ok: bool)
      requires Valid() && (current + ItemSize(i) <= MAX_ARCHIVE_SIZE || (current == 0 && i.One?))
      modifies this
      ensures Valid() && (!ok ==> count > MAX_COUNT)
      ensures old(AllAllowed(dataMedia, lists)) && Allowed(dataMedia, i) ==> AllAllowed(dataMedia, lists)
      ensures ok ==> AllCovered(lists) == old(AllCovered(lists)) + Covered(i)
    {
      hide Covered, ItemSize, AllCovered, AllAllowed, Allowed;
      if count > MAX_COUNT { return false; }
      Append(lists, i);
      if AllAllowed(dataMedia, lists) && Allowed(dataMedia, i) { AllowedMore(dataMedia, lists, i); }
      ghost var l := lists[count] + [i];
      assert l[..|l| - 1] == lists[count];
      lists := lists[count := lists[count] + [i]];
      current := current + ItemSize(i);
      ok := true;
    }

    /** Starts the next list if the file does not fit. */
    method MakeRoom(size: nat)
      requires Valid()
      modifies this
      ensures Valid() && AllCovered(lists) == old(AllCovered(lists))
      ensures forall m :: old(AllAllowed(m, lists)) ==> AllAllowed(m, lists)
      ensures current == 0 || current + size <= MAX_ARCHIVE_SIZE
    {
      hide AllCovered, Allowed;
      if current != 0 && current + size > MAX_ARCHIVE_SIZE {
        AppendList(lists);
        lists := lists + [[]];
        count := count + 1;
        current := 0;
      }
    }

    /** `Generate_File_Lists` */
    method Generate(dataMedia: bool, dir: Node, path: string) returns (ok: bool)
      requires Valid() && dir.Dir?
      modifies this
      ensures Valid() && (!ok ==> count > MAX_COUNT)
      ensures ok ==> Filtered(dataMedia, AllCovered(lists))
                     == Filtered(dataMedia, old(AllCovered(lists)))
                        + Filtered(dataMedia, Leaves(dir, path, |dir.entries|))
      ensures old(AllAllowed(dataMedia, lists)) ==> AllAllowed(dataMedia, lists)
      decreases dir, 0
    {
      hide AllCovered, Valid, Filtered, Media, Music, AllAllowed;
      if Media(dataMedia, path) || Music(path) {
        SkippedLeaves(dataMedia, dir, path, |dir.entries|);
        return true;
      }
      var k := 0;
      FilteredNone(dataMedia);
      while k < |dir.entries|
        invariant 0 <= k <= |dir.entries| && Valid()
        invariant Filtered(dataMedia, AllCovered(lists))
                  == Filtered(dataMedia, old(AllCovered(lists))) + Filtered(dataMedia, Leaves(dir, path, k))
        invariant old(AllAllowed(dataMedia, lists)) ==> AllAllowed(dataMedia, lists)
      {
        var e := dir.entries[k];
        ghost var before := AllCovered(lists);
        FilteredAppend(dataMedia, Leaves(dir, path, k), LeavesOf(e.node, path, e.name));
        if Media(dataMedia, Child(path, e.name)) {
          SkippedChild(dataMedia, e.node, path, e.name);
        } else {
          ok := Put(dataMedia, e.node, path, e.name);
          if !ok { return; }
        }
        k := k + 1;
      }
      ok := true;
    }

    /** The body of the loop for an entry that is not skipped. */
    method Put(dataMedia: bool, node: Node, path: string, name: string) returns (ok: bool)
      requires Valid() && !Media(dataMedia, Child(path, name)) && !Music(path)
      modifies this
      ensures Valid() && (!ok ==> count > MAX_COUNT)
      ensures ok ==> Filtered(dataMedia, AllCovered(lists))
                     == Filtered(dataMedia, old(AllCovered(lists))) + Filtered(dataMedia, LeavesOf(node, path, name))
      ensures old(AllAllowed(dataMedia, lists)) ==> AllAllowed(dataMedia, lists)
      decreases node, 1
    {
      hide AllCovered, Valid, Filtered, Leaves, CountedSize, AllAllowed, Media, Music, AllowedEntry, Child;
      EntryAllowed(dataMedia, path, name);
      match node
      case Dir(entries) =>
        var size := CountedSize(node);
        if current + size > MAX_ARCHIVE_SIZE {
          ok := Generate(dataMedia, node, Child(path, name));
        } else {
          FilteredAppend(dataMedia, AllCovered(lists), Covered(Folder(Child(path, name), node)));
          ok := AddItem(Folder(Child(path, name), node), dataMedia);
        }
      case Other =>
        FilteredNone(dataMedia);
        ok := true;
      case _ =>
        MakeRoom(node.size);
        FilteredAppend(dataMedia, AllCovered(lists), [Leaf(path, name)]);
        ok := AddItem(One(Leaf(path, name), node.size), dataMedia);
    }
  }

  lemma FilteredNone(m: bool)
    ensures Filtered(m, []) == []
  {
  }

  /** `Make_File_List`: the lists together cover every file and link that is not skipped exactly once, and no
      list is too large. */
  method MakeFileList(dataMedia: bool, root: Node, path: string) returns (n: int, lists: seq<seq<Item>>)
    requires root.Dir?
    ensures n == -1 ==> |lists| > MAX_COUNT + 1
    ensures n != -1 ==> n == |lists| && forall k :: 0 <= k < |lists| ==> Bounded(lists[k])
    ensures n != -1 ==>
              Filtered(dataMedia, AllCovered(lists)) == Filtered(dataMedia, Leaves(root, path, |root.entries|))
    ensures AllAllowed(dataMedia, lists)
  {
    hide AllCovered, Filtered, Leaves, Bounded;
    var l := new Lists();
    FilteredNone(dataMedia);
    var ok := l.Generate(dataMedia, root, path);
    if !ok { return -1, l.lists; }
    return l.count + 1, l.lists;
  }
}
