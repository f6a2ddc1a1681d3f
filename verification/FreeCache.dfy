/** Making room on /cache (applypatch/freecache.c): which files are deleted, and that the backup of `applypatch`
    is never one of them. */
module FreeCache {
  import opened ImgChunks

  const CACHE_TEMP_SOURCE: string := "/cache/saved.file"

  /** A directory entry of one of the two deletable directories. */
  datatype Listed = Listed(path: string, regular: bool)

  /** Deletable: a regular file, not the backup, and not open. */
  ghost predicate Expendable(listing: seq<Listed>, open: seq<string>, p: string) {
    Listed(p, true) in listing && p != CACHE_TEMP_SOURCE && p !in open
  }

  ghost predicate Named(names: seq<Option<string>>, p: string) {
    Some(p) in names
  }

  /** `EliminateOpenFiles`: an open file is struck off the list in place. */
  method EliminateOpenFiles(names: array<Option<string>>, open: seq<string>)
    modifies names
    ensures forall i :: 0 <= i < names.Length ==>
              names[i] == if old(names[i]).Some? && old(names[i]).value in open then None else old(names[i])
  {
    var k := 0;
    while k < |open|
      invariant 0 <= k <= |open|
      invariant forall i :: 0 <= i < names.Length ==>
                  names[i] == if old(names[i]).Some? && old(names[i]).value in open[..k] then None else old(names[i])
    {
      var j := 0;
      while j < names.Length
        invariant 0 <= j <= names.Length
        invariant forall i :: 0 <= i < j ==>
                    names[i] ==
                    if old(names[i]).Some? && old(names[i]).value in open[..k + 1] then None else old(names[i])
        invariant forall i :: j <= i < names.Length ==>
                    names[i] == if old(names[i]).Some? && old(names[i]).value in open[..k] then None else old(names[i])
      {
        if names[j] == Some(open[k]) { names[j] := None; }
        assert open[..k + 1] == open[..k] + [open[k]];
        j := j + 1;
      }
      k := k + 1;
    }
    assert open[..k] == open;
  }

  /** The entries that are regular files other than the backup. */
  method Candidates(listing: seq<Listed>) returns (found: seq<string>)
    ensures forall p :: p in found <==> Listed(p, true) in listing && p != CACHE_TEMP_SOURCE
  {
    found := [];
    var i := 0;
    while i < |listing|
      invariant 0 <= i <= |listing|
      invariant forall p :: p in found <==> Listed(p, true) in listing[..i] && p != CACHE_TEMP_SOURCE
    {
      assert listing[..i + 1] == listing[..i] + [listing[i]];
      if listing[i].path != CACHE_TEMP_SOURCE && listing[i].regular { found := found + [listing[i].path]; }
      i := i + 1;
    }
    assert listing[..i] == listing;
  }

  /** `FindExpendableFiles`; `open` is None if /proc cannot be opened. */
  method FindExpendableFiles(listing: seq<Listed>, open: Option<seq<string>>)
    returns (ok: bool, names: array<Option<string>>)
    ensures fresh(names) && (ok <==> open.Some?)
    ensures ok ==> forall p :: Named(names[..], p) <==> Expendable(listing, open.value, p)
  {
    var found := Candidates(listing);
    names := new Option<string>[|found|](i requires 0 <= i < |found| => Some(found[i]));
    if open.None? { return false, names; }
    EliminateOpenFiles(names, open.value);
    ok := true;
    forall p ensures Named(names[..], p) <==> Expendable(listing, open.value, p) {
      if Named(names[..], p) {
        var i :| 0 <= i < names.Length && names[i] == Some(p);
        assert found[i] == p;
      }
      if p in found && p !in open.value {
        var i :| 0 <= i < |found| && found[i] == p;
        assert names[..][i] == Some(p);
      }
    }
  }

  /** `MakeFreeSpaceOnCache`.  `free` tells the free space once these files are gone, None if `statfs` fails.  Files
      are deleted one by one, only while the space is short; the backup and open files stay; it fails only if /proc
      cannot be opened, or when nothing is left to delete.  A failing `statfs` counts as room: its -1 is taken for a
      size. */
  method MakeFreeSpaceOnCache(need: nat, listing: seq<Listed>, open: Option<seq<string>>,
                              free: set<string> -> Option<nat>)
    returns (ok: bool, gone: seq<string>)
    ensures ok <==> var f := free(set p | p in gone); f.None? || f.value >= need
    ensures open.None? ==> gone == []
    ensures open.Some? ==> forall p :: p in gone ==> Expendable(listing, open.value, p)
    ensures CACHE_TEMP_SOURCE !in gone
    ensures forall k :: 0 <= k < |gone| ==> var f := free(set p | p in gone[..k]); f.Some? && f.value < need
    ensures !ok && open.Some? ==> forall p :: Expendable(listing, open.value, p) ==> p in gone
  {
    gone := [];
    assert (set p | p in gone) == {};
    var now := free({});
    if now.None? || now.value >= need { return true, gone; }
    var names;
    ok, names := FindExpendableFiles(listing, open);
    if !ok { return; }
    if names.Length == 0 {
      assert forall p :: !Named(names[..], p);
      return false, gone;
    }
    var i := 0;
    var deleted: set<string> := {};
    while i < names.Length && now.Some? && now.value < need
      invariant now == free(deleted)
      invariant 0 <= i <= names.Length && deleted == set p | p in gone
      invariant forall p :: p in gone <==> Named(names[..i], p)
      invariant forall k :: 0 <= k < |gone| ==> var f := free(set p | p in gone[..k]); f.Some? && f.value < need
    {
      ghost var was := gone;
      if names[i].Some? {
        gone := gone + [names[i].value];
        deleted := deleted + {names[i].value};
        now := free(deleted);
        assert gone[..|was|] == was;
        assert forall k :: 0 <= k < |was| ==> gone[..k] == was[..k];
      }
      assert names[..i + 1] == names[..i] + [names[i]];
      i := i + 1;
    }
    assert i == names.Length ==> names[..i] == names[..];
    forall p | Named(names[..i], p) ensures Named(names[..], p) {
      var k :| 0 <= k < i && names[..i][k] == Some(p);
      assert names[..][k] == Some(p);
    }
    ok := now.None? || now.value >= need;
  }
}
