/** Histories of a dedupe store: any sequence of stores, interrupted stores, collections and removals of
    manifests leaves every backup that still has its manifest extractable (dedupe/dedupe.c). */
module DedupeHistory {
  import opened Manifest
  import opened ManifestText
  import opened Dedupe
  import opened DedupeExtract
  import opened DedupeGc

  /** A tree that was stored, and what was excluded. */
  datatype Backup = Backup(root: Node, ex: set<string>)

  datatype Repo = Repo(blobs: Blobs, live: seq<Backup>)

  ghost function ItemsOf(sha: Hash, k: Backup): (r: seq<Item>)
    requires Digests256(sha) && k.root.Dir?
  {
    EntryItems(sha, k.root, ".", k.ex, |k.root.entries|)
  }

  /** The manifest that was written for a backup. */
  ghost function ManifestOf(sha: Hash, k: Backup): (text: string)
    requires Digests256(sha) && k.root.Dir?
  {
    HEADER + Text(ItemsOf(sha, k))
  }

  /** A tree as the file system gives it, with no file whose digest another content has. */
  ghost predicate Storable(sha: Hash, k: Backup) {
    k.root.Dir? && WellNamed(k.root) && NoCollision(sha, k.root)
  }

  ghost predicate Extractable(sha: Hash, b: Blobs, k: Backup) {
    Storable(sha, k) && Covers(sha, b, k.root, ".", k.ex)
  }

  ghost predicate Named(sha: Hash, live: seq<Backup>, x: string)
    requires Digests256(sha)
  {
    exists i :: 0 <= i < |live| && live[i].root.Dir? && x in KeysOf(ItemsOf(sha, live[i]))
  }

  // ----- the steps -----

  /** `Create` ran to its end. */
  ghost predicate Stored(sha: Hash, s: Repo, s': Repo) {
    && Grown(sha, s.blobs, s'.blobs) && |s'.live| == |s.live| + 1 && s'.live[..|s.live|] == s.live
    && Storable(sha, s'.live[|s.live|])
    && (Sound(sha, s.blobs) ==> Covers(sha, s'.blobs, s'.live[|s.live|].root, ".", s'.live[|s.live|].ex))
  }

  /** `Create` failed or was interrupted: there may be new blobs, but no manifest. */
  ghost predicate StoreBroken(sha: Hash, s: Repo, s': Repo) {
    Grown(sha, s.blobs, s'.blobs) && s'.live == s.live
  }

  /** `Gc` ran with all live manifests.  If it was interrupted, some blobs that are not named may be left. */
  ghost predicate Collected(sha: Hash, s: Repo, s': Repo)
    requires Digests256(sha)
  {
    && s'.live == s.live && s'.blobs.Keys <= s.blobs.Keys
    && (forall x :: x in s'.blobs ==> s'.blobs[x] == s.blobs[x])
    && (forall x :: x in s.blobs && Named(sha, s.live, x) ==> x in s'.blobs)
  }

  /** A manifest is removed. */
  ghost predicate Removed(s: Repo, s': Repo) {
    s'.blobs == s.blobs && exists k :: 0 <= k < |s.live| && s'.live == s.live[..k] + s.live[k + 1..]
  }

  ghost predicate Step(sha: Hash, s: Repo, s': Repo)
    requires Digests256(sha)
  {
    Stored(sha, s, s') || StoreBroken(sha, s, s') || Collected(sha, s, s') || Removed(s, s')
  }

  ghost predicate Good(sha: Hash, s: Repo) {
    Sound(sha, s.blobs) && forall k :: 0 <= k < |s.live| ==> Extractable(sha, s.blobs, s.live[k])
  }

  // ----- collection keeps what is named -----

  ghost predicate NamesIn(items: seq<Item>, b: Blobs) {
    forall i :: 0 <= i < |items| && items[i].body.FileBody? ==> items[i].body.key in b
  }

  ghost predicate Sub(b': Blobs, b: Blobs) {
    forall x :: x in b' ==> x in b && b'[x] == b[x]
  }

  lemma {:induction false} SweptCovers(sha: Hash, b: Blobs, b': Blobs, node: Node, path: string, ex: set<string>)
    requires Digests256(sha) && Sub(b', b) && Covers(sha, b, node, path, ex) && NamesIn(Items(sha, node, path, ex), b')
    ensures Covers(sha, b', node, path, ex)
    decreases node
  {
    hide Key, Masked, EntryItems;
    var items := Items(sha, node, path, ex);
    if node.Dir? {
      assert items[1..] == EntryItems(sha, node, path, ex, |node.entries|);
      assert forall k :: 0 <= k < |items| - 1 ==> items[1..][k] == items[k + 1];
      SweptEntries(sha, b, b', node, path, ex);
    } else if node.File? {
      assert items[0].body.FileBody?;
    }
  }

  lemma {:induction false} SweptEntries(sha: Hash, b: Blobs, b': Blobs, dir: Node, path: string, ex: set<string>)
    requires Digests256(sha) && dir.Dir? && Sub(b', b) && Covers(sha, b, dir, path, ex)
    requires NamesIn(EntryItems(sha, dir, path, ex, |dir.entries|), b')
    ensures Covers(sha, b', dir, path, ex)
    decreases dir, 0
  {
    hide Key, Masked, Items, Has, Sub;
    forall k | 0 <= k < |dir.entries| && Child(path, dir.entries[k].name) !in ex
      ensures Covers(sha, b', dir.entries[k].node, Child(path, dir.entries[k].name), ex)
    {
      NamesPart(sha, b', dir, path, ex, k, |dir.entries|);
      SweptCovers(sha, b, b', dir.entries[k].node, Child(path, dir.entries[k].name), ex);
    }
  }

  lemma {:induction false} NamesPart(sha: Hash, b: Blobs, dir: Node, path: string, ex: set<string>, k: nat, n: nat)
    requires Digests256(sha) && dir.Dir? && k < n <= |dir.entries| && Child(path, dir.entries[k].name) !in ex
    requires NamesIn(EntryItems(sha, dir, path, ex, n), b)
    ensures NamesIn(Items(sha, dir.entries[k].node, Child(path, dir.entries[k].name), ex), b)
    decreases n
  {
    hide NamesIn, Items, Child;
    var e := dir.entries[n - 1];
    var c := if Child(path, e.name) in ex then [] else Items(sha, e.node, Child(path, e.name), ex);
    NamesParts(EntryItems(sha, dir, path, ex, n - 1), c, b);
    if k < n - 1 { NamesPart(sha, b, dir, path, ex, k, n - 1); }
  }

  lemma NamesParts(a: seq<Item>, c: seq<Item>, b: Blobs)
    requires NamesIn(a + c, b)
    ensures NamesIn(a, b) && NamesIn(c, b)
  {
    assert forall i :: 0 <= i < |a| ==> (a + c)[i] == a[i];
    assert forall i :: 0 <= i < |c| ==> (a + c)[|a| + i] == c[i];
  }

  lemma CollectedKeeps(sha: Hash, s: Repo, s': Repo)
    requires Digests256(sha) && Good(sha, s) && Collected(sha, s, s')
    ensures Good(sha, s')
  {
    hide Covers, Storable, Key, EntryItems;
    forall k | 0 <= k < |s.live|
      ensures Extractable(sha, s'.blobs, s.live[k])
    {
      assert Extractable(sha, s.blobs, s.live[k]);
      LiveNamed(sha, s, s', k);
      SweptEntries(sha, s.blobs, s'.blobs, s.live[k].root, ".", s.live[k].ex);
    }
  }

  lemma LiveNamed(sha: Hash, s: Repo, s': Repo, k: nat)
    requires Digests256(sha) && Collected(sha, s, s') && k < |s.live| && Extractable(sha, s.blobs, s.live[k])
    ensures s.live[k].root.Dir? && NamesIn(ItemsOf(sha, s.live[k]), s'.blobs)
  {
    hide Covers, WellNamed, NoCollision, Key, EntryItems;
    var items := ItemsOf(sha, s.live[k]);
    EntriesAvailable(sha, s.blobs, s.live[k].root, ".", s.live[k].ex, |s.live[k].root.entries|);
    forall i | 0 <= i < |items| && items[i].body.FileBody?
      ensures items[i].body.key in s'.blobs
    {
      assert items[i] in items && Available(items[i], s.blobs);
      assert items[i].body.key in KeysOf(items);
      assert Named(sha, s.live, items[i].body.key);
    }
  }

  lemma GrownKeeps(sha: Hash, b: Blobs, b': Blobs, live: seq<Backup>)
    requires Good(sha, Repo(b, live)) && Grown(sha, b, b')
    ensures Good(sha, Repo(b', live))
  {
    hide Covers, Storable, Sound;
    forall k | 0 <= k < |live|
      ensures Extractable(sha, b', live[k])
    {
      assert Extractable(sha, b, live[k]);
      GrownCovers(sha, b, b', live[k].root, ".", live[k].ex);
    }
  }

  lemma StepKeeps(sha: Hash, s: Repo, s': Repo)
    requires Digests256(sha) && Good(sha, s) && Step(sha, s, s')
    ensures Good(sha, s')
  {
    hide Covers, Storable, Sound, Grown, Collected;
    if Stored(sha, s, s') || StoreBroken(sha, s, s') {
      GrownKeeps(sha, s.blobs, s'.blobs, s.live);
      assert forall k :: 0 <= k < |s.live| ==> s'.live[k] == s'.live[..|s.live|][k];
    } else if Collected(sha, s, s') {
      CollectedKeeps(sha, s, s');
    }
  }

  ghost predicate StepAt(sha: Hash, tr: seq<Repo>, i: nat)
    requires Digests256(sha) && i + 1 < |tr|
  {
    Step(sha, tr[i], tr[i + 1])
  }

  ghost predicate History(sha: Hash, tr: seq<Repo>)
    requires Digests256(sha)
  {
    tr != [] && forall i :: 0 <= i < |tr| - 1 ==> StepAt(sha, tr, i)
  }

  lemma {:induction false} HistoryGood(sha: Hash, tr: seq<Repo>, i: nat)
    requires Digests256(sha) && History(sha, tr) && i < |tr| && Good(sha, tr[0])
    ensures Good(sha, tr[i])
  {
    hide Good, Step;
    if i > 0 {
      HistoryGood(sha, tr, i - 1);
      assert StepAt(sha, tr, i - 1);
      StepKeeps(sha, tr[i - 1], tr[i]);
    }
  }

  /** From an empty store on, every backup whose manifest is still there can be extracted with that manifest and
      gives back its tree, if no link of it has more than 40 characters; otherwise extraction overruns memory. */
  lemma HistoryRestores(sha: Hash, tr: seq<Repo>, i: nat, k: nat)
    requires Digests256(sha) && History(sha, tr) && tr[0] == Repo(map[], []) && i < |tr| && k < |tr[i].live|
    requires tr[i].live[k].root.Dir? && AllLegible(ItemsOf(sha, tr[i].live[k]))
    ensures var r := Extracted(ManifestOf(sha, tr[i].live[k]), tr[i].blobs);
            if AllShort(ItemsOf(sha, tr[i].live[k])) then
              r.Complete? && RestoresEntries(r.disk, tr[i].live[k].root, ".", tr[i].live[k].ex)
            else r.Crashed?
  {
    hide Step, Covers, WellNamed, NoCollision, RestoresEntries, AllLegible, AllShort, Text, Extracted, EntryItems;
    HistoryGood(sha, tr, i);
    assert Extractable(sha, tr[i].blobs, tr[i].live[k]);
    ExtractRestores(sha, tr[i].blobs, tr[i].live[k].root, tr[i].live[k].ex);
  }

  // ----- the commands take these steps -----

  /** A run of `Create` is a step, whether it succeeds or not, and its manifest is the one of the backup. */
  method StoreOne(sha: Hash, s: Repo, k: Backup) returns (ok: bool, manifest: string, ghost s': Repo, b': Blobs)
    requires Digests256(sha) && Storable(sha, k)
    ensures s'.blobs == b' && (Readable(k.root) ==> ok)
    ensures if ok then Stored(sha, s, s') && s'.live == s.live + [k] && manifest == ManifestOf(sha, k)
            else StoreBroken(sha, s, s')
  {
    hide Grown, Covers, Sound, Readable, WellNamed, NoCollision, Text, EntryItems;
    ok, manifest, b' := Create(sha, s.blobs, k.root, k.ex);
    s' := Repo(b', if ok then s.live + [k] else s.live);
  }

  /** Storing a tree and extracting it with the manifest just written. */
  method RoundTrip(sha: Hash, b: Blobs, k: Backup) returns (ok: bool, r: Extraction)
    requires Digests256(sha) && Storable(sha, k) && Sound(sha, b) && Readable(k.root) && AllLegible(ItemsOf(sha, k))
    ensures ok
    ensures if AllShort(ItemsOf(sha, k)) then r.Complete? && RestoresEntries(r.disk, k.root, ".", k.ex) else r.Crashed?
  {
    hide Grown, Covers, Sound, Readable, WellNamed, NoCollision, Text, EntryItems, AllLegible, AllShort,
         RestoresEntries, Extracted;
    var manifest, b';
    ok, manifest, b' := Create(sha, b, k.root, k.ex);
    r := Extract(manifest, b');
    ExtractRestores(sha, b', k.root, k.ex);
  }

  /** The sources are the manifests of the live backups. */
  ghost predicate Manifests(sha: Hash, live: seq<Backup>, sources: seq<Source>)
    requires Digests256(sha)
  {
    && |sources| == |live|
    && forall k :: 0 <= k < |live| ==>
         live[k].root.Dir? && AllLegible(ItemsOf(sha, live[k])) && sources[k] == Opened(ManifestOf(sha, live[k]))
  }

  /** A run of `Gc` with the live manifests is a collection step, and leaves only what they name. */
  method CollectAll(sha: Hash, s: Repo, listing: seq<string>, sources: seq<Source>, sort: seq<string> -> seq<string>)
    returns (failure: bool, ghost s': Repo, b': Blobs)
    requires Digests256(sha) && Sorts(sort) && Listed(listing) == s.blobs.Keys && Manifests(sha, s.live, sources)
    ensures !failure && s' == Repo(b', s.live) && Collected(sha, s, s')
    ensures forall x :: x in b' ==> Named(sha, s.live, x)
  {
    hide Sorts, Manifests, ReadingEnd, UsedBy, FirstUnread, Named;
    var end;
    end, failure, b' := Gc(s.blobs, listing, sources, sort);
    AllNamed(sha, s.live, sources);
    s' := Repo(b', s.live);
    forall x ensures x in UsedBy(sources, |sources|) <==> Named(sha, s.live, x) { NamedIs(sha, s.live, sources, x); }
  }

  lemma ManifestNames(sha: Hash, live: seq<Backup>, sources: seq<Source>, k: nat)
    requires Digests256(sha) && Manifests(sha, live, sources) && k < |live|
    ensures live[k].root.Dir? && |sources| == |live| && ReadingOf(sources[k]) == Names(KeysOf(ItemsOf(sha, live[k])))
  {
    hide AllLegible, Text, KeysOf, ReadingOf, EntryItems;
    StoredNames(ItemsOf(sha, live[k]));
  }

  lemma AllNamed(sha: Hash, live: seq<Backup>, sources: seq<Source>)
    requires Digests256(sha) && Manifests(sha, live, sources)
    ensures FirstUnread(sources, 0) == |sources| && ReadingEnd(sources).AllRead?
  {
    hide ReadingOf, ItemsOf, KeysOf, Manifests, FirstUnread;
    var n := FirstUnread(sources, 0);
    FirstUnreadIs(sources, 0);
    assert |sources| == |live| by { ManifestCount(sha, live, sources); }
    if n < |sources| { ManifestNames(sha, live, sources, n); }
  }

  lemma ManifestCount(sha: Hash, live: seq<Backup>, sources: seq<Source>)
    requires Digests256(sha) && Manifests(sha, live, sources)
    ensures |sources| == |live|
  {
  }

  lemma NamedIs(sha: Hash, live: seq<Backup>, sources: seq<Source>, x: string)
    requires Digests256(sha) && Manifests(sha, live, sources)
    ensures x in UsedBy(sources, |sources|) <==> Named(sha, live, x)
  {
    hide ReadingOf, ItemsOf, KeysOf, Manifests, UsedBy;
    ManifestCount(sha, live, sources);
    InUsedBy(sources, |sources|, x);
    forall k | 0 <= k < |live|
      ensures live[k].root.Dir? && ReadingOf(sources[k]) == Names(KeysOf(ItemsOf(sha, live[k])))
    {
      ManifestNames(sha, live, sources, k);
    }
  }
}
