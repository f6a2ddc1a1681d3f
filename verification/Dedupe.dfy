/** The content-addressed backup store of dedupe/dedupe.c: storing a directory tree. */
module Dedupe {
  import opened Suffixes
  import opened ImgChunks
  import opened Digests
  import opened Numbers
  import opened Manifest
  import opened ManifestText

  type Hash = bytes -> bytes

  const SHA256_DIGEST_LENGTH: nat := 32

  // ----- blobs -----

  /** The blob name of a digest: a slash after the first three hexadecimal digits. */
  function Key(d: bytes): (k: string)
    requires |d| == SHA256_DIGEST_LENGTH
    ensures |k| == 65
  {
    Hex(d)[..3] + "/" + Hex(d)[3..]
  }

  lemma HexInjective(d: bytes, e: bytes)
    requires |d| == |e| && Hex(d) == Hex(e)
    ensures d == e
  {
    hide Hex, HexValue, HexDigit;
    forall i | 0 <= i < |d|
      ensures d[i] == e[i]
    {
      HexAt(d, i);
      HexAt(e, i);
    }
  }

  lemma KeyInjective(d: bytes, e: bytes)
    requires |d| == |e| == SHA256_DIGEST_LENGTH && Key(d) == Key(e)
    ensures d == e
  {
    hide Hex;
    var k, l := Key(d), Key(e);
    assert Hex(d) == k[..3] + k[4..] && Hex(e) == l[..3] + l[4..];
    HexInjective(d, e);
  }

  type Blobs = map<string, bytes>

  ghost predicate Digests256(sha: Hash) {
    forall c :: |sha(c)| == SHA256_DIGEST_LENGTH
  }

  /** Every blob under a key has the digest of that key.  (Other files, such as temporary ones, may hold anything.) */
  ghost predicate Sound(sha: Hash, b: Blobs) {
    forall d: bytes :: |d| == SHA256_DIGEST_LENGTH && Key(d) in b ==> sha(b[Key(d)]) == d
  }

  /** A blob with the digest of c is there. */
  ghost predicate Has(sha: Hash, b: Blobs, c: bytes) {
    |sha(c)| == SHA256_DIGEST_LENGTH && Key(sha(c)) in b && sha(b[Key(sha(c))]) == sha(c)
  }

  /** Storing may add blobs and never loses one. */
  ghost predicate Grown(sha: Hash, b: Blobs, b': Blobs) {
    b.Keys <= b'.Keys && (Sound(sha, b) ==> Sound(sha, b'))
  }

  lemma GrownHas(sha: Hash, b: Blobs, b': Blobs, c: bytes)
    requires Sound(sha, b) && Grown(sha, b, b') && Has(sha, b, c)
    ensures Has(sha, b', c)
  {
  }

  lemma GrownTrans(sha: Hash, a: Blobs, b: Blobs, c: Blobs)
    requires Grown(sha, a, b) && Grown(sha, b, c)
    ensures Grown(sha, a, c)
  {
  }

  lemma PutGrows(sha: Hash, b: Blobs, c: bytes)
    requires Digests256(sha)
    ensures Grown(sha, b, b[Key(sha(c)) := c])
  {
    hide Key;
    var b' := b[Key(sha(c)) := c];
    if Sound(sha, b) {
      forall d: bytes | |d| == SHA256_DIGEST_LENGTH && Key(d) in b'
        ensures sha(b'[Key(d)]) == d
      {
        if Key(d) == Key(sha(c)) { KeyInjective(d, sha(c)); }
      }
    }
  }

  // ----- trees -----

  /** A directory tree.  The contents of a file may be unreadable. */
  datatype Node =
    | File(meta: Meta, data: Option<bytes>)
    | Link(meta: Meta, target: string)
    | Dir(meta: Meta, entries: seq<Entry>)
    | Special

  datatype Entry = Entry(name: string, node: Node)

  /** st_mode & 06777: the permission, set-user-id and set-group-id bits. */
  function Masked(m: Meta): (r: Meta) {
    m.(mode := m.mode % 0x200 + m.mode / 0x400 % 4 * 0x400)
  }

  /** r has the permission bits (0 to 8), the set-group-id bit (10) and the set-user-id bit (11) of s, and no other. */
  ghost predicate KeepsBits(r: nat, s: nat) {
    r < 0x1000 && forall k :: 0 <= k < 12 ==> Bit(r, k) == if k == 9 then 0 else Bit(s, k)
  }

  lemma MaskedBits(m: Meta)
    ensures KeepsBits(Masked(m).mode, m.mode)
  {
    hide Bit;
    var s, r := m.mode, Masked(m).mode;
    assert r % 0x200 == s % 0x200 && r < 0x1000;
    HighBits(s, r);
    forall k | 0 <= k < 9 ensures Bit(r, k) == Bit(s, k) { LowBits(r, s, k); }
  }

  lemma HighBits(s: nat, r: nat)
    requires r == s % 0x200 + s / 0x400 % 4 * 0x400
    ensures Bit(r, 9) == 0 && Bit(r, 10) == Bit(s, 10) && Bit(r, 11) == Bit(s, 11)
  {
    PowersOfTwo();
    var l, c, w := s % 0x200, s / 0x400, s % 0x400;
    var d := c % 4;
    Quotient(r, 0x200, 2 * d, l);
    Quotient(r, 0x400, d, l);
    Quotient(r, 0x800, d / 2, d % 2 * 0x400 + l);
    Quotient(s, 0x800, c / 2, c % 2 * 0x400 + w);
    LowTwo(c);
  }

  lemma LowTwo(c: nat)
    ensures c % 4 % 2 == c % 2 && c % 4 / 2 == c / 2 % 2
  {
  }

  /** The lines `store_st` writes. */
  ghost function Items(sha: Hash, node: Node, path: string, ex: set<string>): (r: seq<Item>)
    requires Digests256(sha)
    decreases node, if node.Dir? then |node.entries| + 1 else 0
  {
    match node
    case File(m, data) =>
      if data.Some? then [Item(Masked(m), path, FileBody(Key(sha(data.value)), |data.value|))] else []
    case Link(m, target) => [Item(Masked(m), path, LinkBody(target))]
    case Dir(m, entries) => [Item(Masked(m), path, DirBody)] + EntryItems(sha, node, path, ex, |entries|)
    case Special => []
  }

  function Child(path: string, name: string): (p: string) {
    path + "/" + name
  }

  /** The lines `store_dir` writes for the first k entries. */
  ghost function EntryItems(sha: Hash, dir: Node, path: string, ex: set<string>, k: nat): (r: seq<Item>)
    requires Digests256(sha) && dir.Dir? && k <= |dir.entries|
    decreases dir, k
  {
    if k == 0 then []
    else
      var e := dir.entries[k - 1];
      EntryItems(sha, dir, path, ex, k - 1)
      + if Child(path, e.name) in ex then [] else Items(sha, e.node, Child(path, e.name), ex)
  }

  ghost predicate Readable(node: Node)
    decreases node
  {
    match node
    case File(_, data) => data.Some?
    case Dir(_, entries) => forall k :: 0 <= k < |entries| ==> Readable(entries[k].node)
    case _ => true
  }

  /** The contents of the files a store writes blobs for. */
  ghost predicate Covers(sha: Hash, b: Blobs, node: Node, path: string, ex: set<string>)
    decreases node
  {
    match node
    case File(_, data) => data.Some? && Has(sha, b, data.value)
    case Dir(_, entries) =>
      forall k :: 0 <= k < |entries| && Child(path, entries[k].name) !in ex ==>
        Covers(sha, b, entries[k].node, Child(path, entries[k].name), ex)
    case _ => true
  }

  lemma {:induction false} GrownCovers(sha: Hash, b: Blobs, b': Blobs, node: Node, path: string, ex: set<string>)
    requires Sound(sha, b) && Grown(sha, b, b') && Covers(sha, b, node, path, ex)
    ensures Covers(sha, b', node, path, ex)
    decreases node
  {
    hide Grown, Sound, Has;
    match node
    case File(_, data) => GrownHas(sha, b, b', data.value);
    case Dir(_, entries) =>
      forall k | 0 <= k < |entries| && Child(path, entries[k].name) !in ex
        ensures Covers(sha, b', entries[k].node, Child(path, entries[k].name), ex)
      {
        GrownCovers(sha, b, b', entries[k].node, Child(path, entries[k].name), ex);
      }
    case _ =>
  }

  // ----- storing -----

  class Store {
    var manifest: string
    var blobs: Blobs

    constructor (b: Blobs)
      ensures manifest == HEADER && blobs == b
    {
      manifest, blobs := HEADER, b;
    }

    /** `store_file`: a blob that exists with the right size is not copied again. */
    method StoreFile(sha: Hash, m: Meta, data: Option<bytes>, path: string) returns (ok: bool)
      requires Digests256(sha)
      modifies this
      ensures Grown(sha, old(blobs), blobs) && (ok <==> data.Some?)
      ensures ok ==> manifest == old(manifest) + Text(Items(sha, File(m, data), path, {}))
      ensures ok && Sound(sha, old(blobs)) ==> Has(sha, blobs, data.value)
    {
      hide Key, Sound, Tabbed, Printed;
      var head := Tabbed(HeadFields(DEDUPE_VERSION, Item(Masked(m), path, FileBody("", 0))));
      manifest := manifest + head;
      if data.None? { return false; }
      var c := data.value;
      var key := Key(sha(c));
      PutGrows(sha, blobs, c);
      if key !in blobs || |blobs[key]| != |c| { blobs := blobs[key := c]; }
      SoundAt(sha, blobs, sha(c));
      manifest := manifest + Tabbed(BodyFields(FileBody(key, |c|))) + [NEWLINE];
      TextOne(Item(Masked(m), path, FileBody(key, |c|)));
      assert manifest == old(manifest) + (head + Tabbed(BodyFields(FileBody(key, |c|))) + [NEWLINE]);
      ok := true;
    }

    /** `store_st` */
    method StoreSt(sha: Hash, node: Node, path: string, ex: set<string>) returns (ok: bool)
      requires Digests256(sha)
      modifies this
      ensures Grown(sha, old(blobs), blobs)
      ensures ok ==> manifest == old(manifest) + Text(Items(sha, node, path, ex))
      ensures ok && Sound(sha, old(blobs)) ==> Covers(sha, blobs, node, path, ex)
      ensures Readable(node) ==> ok
      decreases node, 1
    {
      hide Key, Sound, Line, Grown, Has, Text, Masked, EntryItems;
      GrownSelf(sha, blobs);
      match node
      case File(m, data) =>
        ok := StoreFile(sha, m, data, path);
      case Link(m, target) =>
        manifest := manifest + Line(Item(Masked(m), path, LinkBody(target)));
        TextOne(Item(Masked(m), path, LinkBody(target)));
        ok := true;
      case Dir(m, entries) =>
        manifest := manifest + Line(Item(Masked(m), path, DirBody));
        TextOne(Item(Masked(m), path, DirBody));
        ok := StoreDir(sha, node, path, ex);
        TextAppend([Item(Masked(m), path, DirBody)], EntryItems(sha, node, path, ex, |entries|));
      case Special =>
        TextNone();
        ok := true;
    }

    /** `store_dir` */
    method StoreDir(sha: Hash, dir: Node, path: string, ex: set<string>) returns (ok: bool)
      requires Digests256(sha) && dir.Dir?
      modifies this
      ensures Grown(sha, old(blobs), blobs)
      ensures ok ==> manifest == old(manifest) + Text(EntryItems(sha, dir, path, ex, |dir.entries|))
      ensures ok && Sound(sha, old(blobs)) ==> Covers(sha, blobs, dir, path, ex)
      ensures Readable(dir) ==> ok
      decreases dir, 0
    {
      hide Key, Sound, Line, Grown, Has, Text, Masked, Items;
      GrownSelf(sha, blobs);
      TextNone();
      var k := 0;
      while k < |dir.entries|
        invariant 0 <= k <= |dir.entries| && Grown(sha, old(blobs), blobs)
        invariant manifest == old(manifest) + Text(EntryItems(sha, dir, path, ex, k))
        invariant Sound(sha, old(blobs)) ==> Sound(sha, blobs) && CoversTo(sha, blobs, dir, path, ex, k)
      {
        var e := dir.entries[k];
        if Child(path, e.name) !in ex {
          ghost var before := blobs;
          ok := StoreSt(sha, e.node, Child(path, e.name), ex);
          GrownTrans(sha, old(blobs), before, blobs);
          if !ok { return; }
          TextAppend(EntryItems(sha, dir, path, ex, k), Items(sha, e.node, Child(path, e.name), ex));
          if Sound(sha, old(blobs)) { CoversMore(sha, before, blobs, dir, path, ex, k); }
        }
        assert EntryItems(sha, dir, path, ex, k) + [] == EntryItems(sha, dir, path, ex, k);
        k := k + 1;
      }
      ok := true;
    }
  }

  /** The create command: the manifest of the tree, and a store that covers it. */
  method Create(sha: Hash, b: Blobs, root: Node, ex: set<string>) returns (ok: bool, manifest: string, b': Blobs)
    requires Digests256(sha)
    ensures Grown(sha, b, b')
    ensures ok ==> root.Dir? && manifest == HEADER + Text(EntryItems(sha, root, ".", ex, |root.entries|))
    ensures ok && Sound(sha, b) ==> Covers(sha, b', root, ".", ex)
    ensures root.Dir? && Readable(root) ==> ok
  {
    hide Grown, Covers, Sound, Readable, Text, EntryItems;
    GrownSelf(sha, b);
    if !root.Dir? { return false, "", b; }
    var store := new Store(b);
    ok := store.StoreDir(sha, root, ".", ex);
    manifest, b' := store.manifest, store.blobs;
  }

  ghost predicate CoversTo(sha: Hash, b: Blobs, dir: Node, path: string, ex: set<string>, n: nat)
    requires dir.Dir?
  {
    forall k :: 0 <= k < n && k < |dir.entries| && Child(path, dir.entries[k].name) !in ex ==>
      Covers(sha, b, dir.entries[k].node, Child(path, dir.entries[k].name), ex)
  }

  lemma CoversMore(sha: Hash, b: Blobs, b': Blobs, dir: Node, path: string, ex: set<string>, n: nat)
    requires dir.Dir? && n < |dir.entries| && Sound(sha, b) && Grown(sha, b, b') && CoversTo(sha, b, dir, path, ex, n)
    requires Covers(sha, b', dir.entries[n].node, Child(path, dir.entries[n].name), ex)
    ensures CoversTo(sha, b', dir, path, ex, n + 1) && Sound(sha, b')
  {
    hide Sound, Has, Covers;
    forall k | 0 <= k < n && Child(path, dir.entries[k].name) !in ex
      ensures Covers(sha, b', dir.entries[k].node, Child(path, dir.entries[k].name), ex)
    {
      GrownCovers(sha, b, b', dir.entries[k].node, Child(path, dir.entries[k].name), ex);
    }
  }

  lemma GrownSelf(sha: Hash, b: Blobs)
    ensures Grown(sha, b, b)
  {
  }

  lemma SoundAt(sha: Hash, b: Blobs, d: bytes)
    requires |d| == SHA256_DIGEST_LENGTH && Key(d) in b
    ensures Sound(sha, b) ==> sha(b[Key(d)]) == d
  {
  }

  lemma TextOne(i: Item)
    ensures Text([i]) == Line(i)
  {
  }

  lemma TextNone()
    ensures Text([]) == ""
  {
  }
}
