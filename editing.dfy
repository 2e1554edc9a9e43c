/**
 * The cache edits of `remove_folder` and `move_folder`, as written and as
 * evidently intended, and what each leaves in the cache.
 */
module Editing {
  import opened Outcomes
  import opened Paths
  import opened Hierarchy
  import opened Loading
  import opened Adding

  /** The cache after `folders_hierarchy(from: from)` on a loaded cache: the slice's rewrite shows through. */
  function AfterSlice(t: Tree, from: string): (u: Tree)
    ensures u.order == t.order && SameShape(t, u)
    ensures PathTrim(from) == [] ==> u == t
  {
    if PathTrim(from) == [] then t else Aliased(t, PathTrim(from))
  }

  /** Records outside the slice keep their cached record. */
  lemma AfterSliceOutside(t: Tree, from: string, k: int)
    requires Valid(t) && k in t.recs && k !in SliceTree(t, from).recs
    ensures AfterSlice(t, from).recs[k] == t.recs[k]
  {
  }

  // ---------------------------------------------------------------------
  // remove_folder

  /** `@tree.delete k` for each `k` of `ks`, in order. */
  function DeleteKeys(t: Tree, ks: seq<int>): (u: Tree)
    requires Valid(t)
    ensures Valid(u)
    ensures forall k :: k in u.recs <==> k in t.recs && k !in ks
    ensures forall k :: k in u.recs ==> u.recs[k] == t.recs[k]
    decreases |ks|
  {
    if ks == [] then t else Delete(DeleteKeys(t, ks[..|ks| - 1]), ks[|ks| - 1])
  }

  /** The deletes of a prefix one longer. */
  lemma DeleteKeysPrefix(t: Tree, ks: seq<int>, i: nat)
    requires Valid(t) && i < |ks|
    ensures DeleteKeys(t, ks[..i + 1]) == Delete(DeleteKeys(t, ks[..i]), ks[i])
  {
    assert ks[..i + 1][..i] == ks[..i];
  }

  /**
   * The cache after `remove_folder` as written: the loop over the slice
   * deletes the removed folder's own id each time, so its descendants stay
   * cached, with the paths the slice rewrote.
   */
  function RemovedAsWritten(t: Tree, id: int, from: string): (u: Tree)
    requires Valid(t)
    ensures Valid(u)
  {
    Delete(AfterSlice(t, from), id)
  }

  /** The cache after `remove_folder` as intended: every folder of the slice and the folder itself are dropped. */
  function Removed(t: Tree, id: int, from: string): (u: Tree)
    requires Valid(t)
    ensures Valid(u)
  {
    Delete(DeleteKeys(AfterSlice(t, from), SliceTree(t, from).order), id)
  }

  /**
   * After the intended removal, exactly the folder and its slice are gone
   * from the cache, and every other record is the one cached before.
   */
  lemma RemovedDropsSubtree(t: Tree, id: int, from: string)
    requires Valid(t)
    ensures var u := Removed(t, id, from);
      (forall k :: k in u.recs <==> k in t.recs && k != id && k !in SliceTree(t, from).recs) &&
      (forall k :: k in u.recs ==> u.recs[k] == t.recs[k])
  {
    var s := SliceTree(t, from);
    var a := AfterSlice(t, from);
    var u := Removed(t, id, from);
    forall k | k in u.recs ensures u.recs[k] == t.recs[k] {
      assert k !in s.order;
      AfterSliceOutside(t, from, k);
    }
  }

  /** The tree of folders /a (id 1) and /a/b (id 2). */
  const TwoLevels: Tree := Tree([1, 2], map[1 := Record(0, "a", "/a"), 2 := Record(1, "b", "/a/b")])

  /** /a/b lies below /a, and its path relative to /a is "/b". */
  lemma TwoLevelsBelow()
    ensures Valid(TwoLevels) && PathTrim("/a") == "a"
    ensures Below(TwoLevels, 2, "a") && !Below(TwoLevels, 1, "a")
    ensures RelativePath("/a/b", "a") == "/b"
  {
    assert Distinct([2]) && Distinct([1, 2]);
    assert "/a" == "/" + "a" + [];
    PathTrimUnique("/", "a", []);
    assert "/a/b" == "/" + "a/b" + [];
    PathTrimUnique("/", "a/b", []);
    assert "a/" <= "a/b";
    RelativeOfChild();
  }

  lemma RelativeOfChild()
    ensures RelativePath("/a/b", "a") == "/b"
  {
    assert !Occurs("b", "a/");
    RelativePathOfChild("a", "b");
    assert "/a/b" == "/" + "a" + "/" + "b";
  }

  /**
   * Removing /a as written deletes /a/b on the server but leaves it cached,
   * under the rewritten path "/b"; the intended removal drops it.
   */
  lemma RemoveLeavesChildAsWritten()
    ensures Valid(TwoLevels)
    ensures 2 in SliceTree(TwoLevels, "/a").recs
    ensures 2 in RemovedAsWritten(TwoLevels, 1, "/a").recs
    ensures RemovedAsWritten(TwoLevels, 1, "/a").recs[2].path == "/b"
    ensures 2 !in Removed(TwoLevels, 1, "/a").recs
  {
    TwoLevelsBelow();
    var a := AfterSlice(TwoLevels, "/a");
    assert a == Aliased(TwoLevels, "a");
    assert a.recs[2].path == "/b";
    RemovedDropsSubtree(TwoLevels, 1, "/a");
  }

  /** A path segment: non-empty and without '/'. */
  predicate Segment(s: string) {
    s != [] && Free(s, '/')
  }

  /** The nested folders /a (id 1), /a/b (id 2) and /a/b/c (id 3), for any segment names. */
  function Chain(a: string, b: string, c: string): Tree {
    Tree([1, 2, 3], map[1 := Record(0, a, "/" + a), 2 := Record(1, b, "/" + a + "/" + b),
                        3 := Record(2, c, "/" + a + "/" + b + "/" + c)])
  }

  /** A string without '/' contains no pattern ending in '/'. */
  lemma SegmentHasNoSlashPattern(s: string, f: string)
    requires Free(s, '/')
    ensures !Occurs(s, f + "/")
  {
    forall i | 0 <= i <= |s| - |f| - 1 ensures !OccursAt(s, f + "/", i) {
      assert s[i..i + |f| + 1][|f|] == s[i + |f|] != '/';
    }
  }

  /** Trimming the chain's paths drops their leading '/'. */
  lemma {:induction false} ChainTrims(a: string, b: string, c: string)
    requires Segment(a) && Segment(b) && Segment(c)
    ensures PathTrim("/" + a) == a
    ensures PathTrim("/" + a + "/" + b) == a + "/" + b
    ensures PathTrim("/" + a + "/" + b + "/" + c) == a + "/" + b + "/" + c
  {
    var f := a + "/" + b;
    assert Trimmed(f) && Trimmed(f + "/" + c);
    assert "/" + a == "/" + a + [];
    PathTrimUnique("/", a, []);
    assert "/" + a + "/" + b == "/" + f + [];
    PathTrimUnique("/", f, []);
    assert "/" + a + "/" + b + "/" + c == "/" + (f + "/" + c) + [];
    PathTrimUnique("/", f + "/" + c, []);
  }

  /** Relative to a/b, the path of /a/b/c is "/c". */
  lemma {:induction false} ChainRelative(a: string, b: string, c: string)
    requires Segment(a) && Segment(b) && Segment(c)
    ensures RelativePath("/" + a + "/" + b + "/" + c, a + "/" + b) == "/" + c
  {
    var f := a + "/" + b;
    assert Trimmed(f) && Trimmed(c);
    SegmentHasNoSlashPattern(c, f);
    RelativePathOfChild(f, c);
    assert "/" + a + "/" + b + "/" + c == "/" + f + "/" + c;
  }

  /** Which folders of the chain lie below a/b, and the relative path of the one that does. */
  lemma {:induction false} ChainBelow(a: string, b: string, c: string)
    requires Segment(a) && Segment(b) && Segment(c)
    ensures PathTrim("/" + a + "/" + b) == a + "/" + b
    ensures !Below(Chain(a, b, c), 1, a + "/" + b) && !Below(Chain(a, b, c), 2, a + "/" + b)
    ensures Below(Chain(a, b, c), 3, a + "/" + b)
  {
    var t, f := Chain(a, b, c), a + "/" + b;
    ChainTrims(a, b, c);
    assert PathTrim(t.recs[1].path) == a && |a| < |f + "/"|;
    assert PathTrim(t.recs[2].path) == f && |f| < |f + "/"|;
    assert PathTrim(t.recs[3].path) == f + "/" + c;
    assert (f + "/") <= f + "/" + c;
  }

  lemma ChainValid(a: string, b: string, c: string)
    ensures Valid(Chain(a, b, c))
  {
    assert Distinct([3]) && Distinct([2, 3]) && Distinct([1, 2, 3]);
  }

  /** Only /a/b/c of the chain is kept, in the slice's order. */
  lemma {:induction false} ChainSliceOrder(a: string, b: string, c: string)
    requires Segment(a) && Segment(b) && Segment(c)
    ensures Valid(Chain(a, b, c))
    ensures SliceTree(Chain(a, b, c), "/" + a + "/" + b).order == [3]
  {
    var t := Chain(a, b, c);
    ChainValid(a, b, c);
    ChainBelow(a, b, c);
    var f := a + "/" + b;
    assert [1, 2, 3][1..] == [2, 3] && [2, 3][1..] == [3] && [3][1..] == [];
    assert BelowAmong(t, [3], f) == [3];
    assert BelowAmong(t, [2, 3], f) == [3];
  }

  /** The one kept record keeps its parent and name, with the relative path "/c". */
  lemma {:induction false} ChainSliceRecords(a: string, b: string, c: string)
    requires Segment(a) && Segment(b) && Segment(c)
    ensures Valid(Chain(a, b, c))
    ensures SliceTree(Chain(a, b, c), "/" + a + "/" + b).recs == map[3 := Record(2, c, "/" + c)]
  {
    var t := Chain(a, b, c);
    ChainValid(a, b, c);
    ChainBelow(a, b, c);
    ChainRelative(a, b, c);
    var r := SliceTree(t, "/" + a + "/" + b).recs;
    assert forall k :: k in r <==> k == 3;
    assert r[3] == t.recs[3].(path := "/" + c);
  }

  /**
   * The slice of the chain from /a/b keeps only /a/b/c, under the path
   * "/c" and with its parent still the id of /a/b.
   */
  lemma {:induction false} ChainSlice(a: string, b: string, c: string)
    requires Segment(a) && Segment(b) && Segment(c)
    ensures Valid(Chain(a, b, c))
    ensures SliceTree(Chain(a, b, c), "/" + a + "/" + b) == Tree([3], map[3 := Record(2, c, "/" + c)])
  {
    ChainSliceOrder(a, b, c);
    ChainSliceRecords(a, b, c);
  }

  /** The integration test's subtree: from /a/b, only c is left, as "/c" below b. */
  lemma SliceOfThreeLevels()
    ensures SliceTree(Chain("a", "b", "c"), "/a/b") == Tree([3], map[3 := Record(2, "c", "/c")])
  {
    assert Segment("a") && Segment("b") && Segment("c");
    assert "/a/b" == "/" + "a" + "/" + "b";
    assert "/c" == "/" + "c";
    ChainSlice("a", "b", "c");
  }

  // ---------------------------------------------------------------------
  // move_folder

  /** `@tree[sid][:parent] = did` */
  function Reparented(t: Tree, sid: int, did: int): (u: Tree)
    requires sid in t.recs
    ensures u.order == t.order && u.recs.Keys == t.recs.Keys
    ensures u.recs[sid] == t.recs[sid].(parent := did)
    ensures forall k :: k in t.recs && k != sid ==> u.recs[k] == t.recs[k]
  {
    Tree(t.order, t.recs[sid := t.recs[sid].(parent := did)])
  }

  /**
   * The cache after `move_folder` as written: the new parent, then the path
   * "folder_path(did)/name" canonized, with `folder_path` read after the
   * parent update. Moving a folder below itself makes that walk cycle.
   */
  function MovedAsWritten(t: Tree, sid: int, did: int): (r: Result<Tree>)
    requires Valid(t) && sid in t.recs
    ensures r.Ok? ==> Valid(r.value) && r.value.order == t.order && r.value.recs.Keys == t.recs.Keys
    ensures r.Ok? ==> r.value.recs[sid].parent == did && r.value.recs[sid].name == t.recs[sid].name
    ensures r.Ok? ==> forall k :: k in t.recs && k != sid ==> r.value.recs[k] == t.recs[k]
    ensures r.Err? <==> FolderPath(Reparented(t, sid, did), did).None?
    ensures r.Err? <==> PathCycles(Reparented(t, sid, did), did)
  {
    var u := Reparented(t, sid, did);
    FolderPathCycle(u, did);
    match FolderPath(u, did)
    case None => Err(CyclicChain(did))
    case Some(p) => Ok(SetPath(u, sid, PathCanonize(p + "/" + u.recs[sid].name)))
  }

  /**
   * The cache after `move_folder` as intended: below the root (id 0) the
   * path is "/name", as `add_folder` computes it for a new root folder,
   * instead of the placeholder path `folder_path(0)` gives.
   */
  function Moved(t: Tree, sid: int, did: int): (r: Result<Tree>)
    requires Valid(t) && sid in t.recs
    ensures r.Ok? ==> Valid(r.value) && r.value.order == t.order && r.value.recs.Keys == t.recs.Keys
    ensures r.Ok? ==> r.value.recs[sid].parent == did && r.value.recs[sid].name == t.recs[sid].name
    ensures r.Ok? ==> forall k :: k in t.recs && k != sid ==> r.value.recs[k] == t.recs[k]
    ensures did == 0 ==> r.Ok?
  {
    var u := Reparented(t, sid, did);
    if did == 0 then Ok(SetPath(u, sid, PathCanonize("/" + u.recs[sid].name)))
    else
      match FolderPath(u, did)
      case None => Err(CyclicChain(did))
      case Some(p) => Ok(SetPath(u, sid, PathCanonize(p + "/" + u.recs[sid].name)))
  }

  /**
   * After the intended move, the moved folder's cached path is the path its
   * new parent chain gives, whenever that chain ends and the new parent's
   * chain path is canonical; below the root it is "/name".
   */
  lemma MovedPathAgrees(t: Tree, sid: int, did: int)
    requires Valid(t) && sid in t.recs
    requires t.recs[sid].name != [] && Trimmed(t.recs[sid].name)
    requires Moved(t, sid, did).Ok? && FolderPath(Moved(t, sid, did).value, sid).Some?
    requires did != 0 ==> var q := FolderPath(Reparented(t, sid, did), did).value; Canonical(q) && |q| > 1
    ensures FolderPath(Moved(t, sid, did).value, sid) == Some(Moved(t, sid, did).value.recs[sid].path)
    ensures did == 0 ==> Moved(t, sid, did).value.recs[sid].path == "/" + t.recs[sid].name
  {
    var name := t.recs[sid].name;
    var u := Reparented(t, sid, did);
    var m := Moved(t, sid, did).value;
    var n := |t.order|;
    FolderPathShape(u, m, sid, n);
    if did == 0 {
      assert "/" + name == "/" + name + [];
      PathTrimUnique("/", name, []);
    } else {
      var q := FolderPath(u, did).value;
      assert n > 0;
      assert FolderPathN(u, did, n - 1).Some?;
      FolderPathFuel(u, did, n - 1, n);
      CanonizeChild(q, name);
    }
  }

  /**
   * Moving a folder to the root as written caches "/<undefined>/name",
   * which is not the path its parent chain gives.
   */
  lemma MoveToRootAsWritten(t: Tree, sid: int)
    requires Valid(t) && sid in t.recs && 0 !in t.recs
    requires t.recs[sid].name != [] && Trimmed(t.recs[sid].name)
    ensures MovedAsWritten(t, sid, 0).Ok?
    ensures MovedAsWritten(t, sid, 0).value.recs[sid].path == "/" + Undefined + "/" + t.recs[sid].name
    ensures FolderPath(MovedAsWritten(t, sid, 0).value, sid) == Some("/" + t.recs[sid].name)
    ensures FolderPath(MovedAsWritten(t, sid, 0).value, sid) != Some(MovedAsWritten(t, sid, 0).value.recs[sid].path)
  {
    var name := t.recs[sid].name;
    var u := Reparented(t, sid, 0);
    FolderPathRoot(u, 0, |u.order|);
    assert Canonical("/" + Undefined);
    CanonizeChild("/" + Undefined, name);
    var m := MovedAsWritten(t, sid, 0).value;
    FolderPathShape(u, m, sid, |t.order|);
    var p := "/" + Undefined + "/" + name;
    assert p[1] == '<' && ("/" + name)[1] == name[0];
    assert name[0] != '<' || p != "/" + name by {
      if name[0] == '<' {
        assert |p| > |"/" + name|;
      }
    }
  }
}
