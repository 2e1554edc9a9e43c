/**
 * The API object of the folder engine: `@tree`, the cached folder hash,
 * which every operation loads on first use and then edits in place, and
 * the commands sent to the server. Each method is proved against the
 * functions of Loading, Adding and Editing that say what it leaves.
 */
module Store {
  import opened Outcomes
  import opened Paths
  import opened Hierarchy
  import opened Backend
  import opened Orphans
  import opened Loading
  import opened Adding
  import opened Editing

  /**
   * `folders_hierarchy` with an empty `from`, no force and no pruning, as
   * the lookups call it: the cache when there is one, a load otherwise.
   * `cmds` is the whole command log afterwards.
   */
  function Fetch(loaded: bool, t: Tree, log: seq<Command>, validate: bool, listing: Listing): (r: Loaded)
    ensures loaded ==> r == Loaded(t, log, None)
    ensures log <= r.cmds
  {
    if loaded then Loaded(t, log, None)
    else
      var l := Load(listing, validate, false);
      Loaded(l.t, log + l.cmds, l.err)
  }

  /** A load's outcome as the source returns it: the tree, or what was raised. */
  function Outcome(l: Loaded): (r: Result<Tree>)
    ensures r.Ok? <==> l.err.None?
  {
    if l.err.Some? then Err(l.err.value) else Ok(l.t)
  }

  /**
   * What `move_folder` leaves once the cache is loaded: the source must
   * resolve to a cached record and the destination to an id; then the
   * record takes its new parent and the path below it.
   */
  function MoveOutcome(t: Tree, source: string, dest: string): (r: (Tree, Option<Error>))
    requires Valid(t)
    ensures Valid(r.0)
  {
    match FolderId(t, source)
    case None => (t, Some(FolderNotFound(source)))
    case Some(sid) =>
      if sid !in t.recs then (t, Some(NoRecord(sid)))
      else
        match FolderId(t, dest)
        case None => (t, Some(FolderNotFound(dest)))
        case Some(did) =>
          match Moved(t, sid, did)
          case Ok(m) => (m, None)
          case Err(e) => (Reparented(t, sid, did), Some(e))
  }

  class Api {
    /** `@tree` is set: a later `folders_hierarchy` without `force` reuses it. */
    var loaded: bool
    /** The keys of `@tree`, in insertion order. */
    var order: seq<int>
    var recs: map<int, Record>
    /** The commands sent to the server so far. */
    ghost var log: seq<Command>

    function Cache(): Tree
      reads this
    {
      Tree(order, recs)
    }

    ghost predicate Valid()
      reads this
    {
      Hierarchy.Valid(Cache())
    }

    constructor ()
      ensures Valid() && !loaded && Cache() == Empty && log == []
    {
      loaded := false;
      order := [];
      recs := map[];
      log := [];
    }

    // -------------------------------------------------------------------
    // The passes of a load

    /** `@tree.each_pair { @tree[id][:path] = folder_path id }` */
    method StorePathsPass() returns (err: Option<Error>)
      requires Valid()
      modifies this
      ensures Valid() && loaded == old(loaded) && log == old(log)
      ensures (Cache(), err) == ComputePaths(old(Cache()), 0)
    {
      ghost var t0 := Cache();
      var i := 0;
      while i < |order|
        invariant i <= |order| && order == t0.order
        invariant Valid() && loaded == old(loaded) && log == old(log)
        invariant ComputePaths(Cache(), i) == ComputePaths(t0, 0)
        decreases |order| - i
      {
        var k := order[i];
        var p := FolderPath(Cache(), k);
        if p.None? {
          return Some(CyclicChain(k));
        }
        recs := recs[k := recs[k].(path := p.value)];
        i := i + 1;
      }
      return None;
    }

    /** `@tree.delete_if { orphan? }`, deleting on the server as it goes. */
    method PruneOrphansPass() returns (err: Option<Error>)
      requires Valid()
      modifies this
      ensures Valid() && loaded == old(loaded)
      ensures var (u, d, e) := PruneFrom(old(Cache()), old(order), 0, []);
        Cache() == u && err == e && log == old(log) + Deletes(d)
    {
      ghost var t0 := Cache();
      ghost var deleted: seq<int> := [];
      var ks := order;
      var i := 0;
      while i < |ks|
        invariant i <= |ks| && Valid() && loaded == old(loaded)
        invariant PruneFrom(Cache(), ks, i, deleted) == PruneFrom(t0, ks, 0, [])
        invariant log == old(log) + Deletes(deleted)
        decreases |ks| - i
      {
        var k := ks[i];
        var o := IsOrphan(Cache(), k);
        if o.None? {
          return Some(CyclicChain(k));
        }
        if o.value {
          log := log + [DelRealFolder(k)];
          DeletesAppend(deleted, k);
          deleted := deleted + [k];
          var u := Delete(Cache(), k);
          order, recs := u.order, u.recs;
        }
        i := i + 1;
      }
      return None;
    }

    /** The validation scan: it raises at the first record whose parent is not cached. */
    method ValidationScan() returns (err: Option<Error>)
      requires Valid()
      ensures err == ValidationError(Cache())
    {
      var i := 0;
      while i < |order|
        invariant i <= |order|
        invariant forall j :: 0 <= j < i ==> !Broken(Cache(), order[j])
        decreases |order| - i
      {
        var k := order[i];
        var parent := recs[k].parent;
        if parent != 0 && parent !in recs {
          assert Broken(Cache(), order[i]);
          return Some(InconsistentTree(k, recs[k].path, parent));
        }
        i := i + 1;
      }
      return None;
    }

    /** The end of a load: store the paths, then validate when asked. */
    method StorePathsAndValidate(validate: bool) returns (err: Option<Error>)
      requires Valid()
      modifies this
      ensures Valid() && loaded == old(loaded) && log == old(log)
      ensures var l := StorePaths(old(Cache()), [], validate); Cache() == l.t && err == l.err
    {
      err := StorePathsPass();
      if err.None? && validate {
        err := ValidationScan();
      }
    }

    /** `remove_orphans!` within a load, then the paths and the validation. */
    method PruneAndStore() returns (err: Option<Error>)
      requires Valid()
      modifies this
      ensures Valid() && loaded == old(loaded)
      ensures var l := PruneThenStore(old(Cache()));
        Cache() == l.t && err == l.err && log == old(log) + l.cmds
    {
      ghost var t := Cache();
      err := PruneOrphansPass();
      ghost var (u, d, e) := PruneFrom(t, t.order, 0, []);
      if err.Some? {
        return;
      }
      err := StorePathsAndValidate(true);
      assert StorePaths(u, Deletes(d), true) == StorePaths(u, [], true).(cmds := Deletes(d));
    }

    /** The loading branch of `folders_hierarchy` once `from` is known to be empty. */
    method LoadAll(listing: Listing, validate: bool, consistent: bool) returns (err: Option<Error>)
      modifies this
      ensures Valid() && loaded
      ensures var l := Load(listing, validate, consistent);
        Cache() == l.t && err == l.err && log == old(log) + l.cmds
    {
      Install(listing);
      ghost var before := log;
      err := Settle(validate, consistent);
      ghost var l := Settled(Build(listing), validate, consistent);
      LogAppend(old(log), [ListRealFolders], l.cmds);
    }

    /** `listrealfolders`, and the hash built from its answer becomes the cache. */
    method Install(listing: Listing)
      modifies this
      ensures Valid() && loaded && Cache() == Build(listing) && log == old(log) + [ListRealFolders]
    {
      log := log + [ListRealFolders];
      var t := Build(listing);
      loaded, order, recs := true, t.order, t.recs;
    }

    /** A load once the hash is built: pruned first when it must be consistent and validated. */
    method Settle(validate: bool, consistent: bool) returns (err: Option<Error>)
      requires Valid()
      modifies this
      ensures Valid() && loaded == old(loaded)
      ensures var l := Settled(old(Cache()), validate, consistent);
        Cache() == l.t && err == l.err && log == old(log) + l.cmds
    {
      if consistent && validate {
        err := PruneAndStore();
      } else {
        err := StorePathsAndValidate(validate);
      }
    }

    // -------------------------------------------------------------------
    // folders_hierarchy

    /**
     * `folders_hierarchy(force:, from:, validate:, consistent:)`. A loaded
     * cache is returned as it is, or sliced below `from`, the slice's
     * rewritten paths showing in the cache too. Otherwise the cache is
     * emptied; a non-empty `from` then cannot be found in it, and an empty
     * one loads the whole tree from `listing`.
     */
    method FoldersHierarchy(force: bool, from: string, validate: bool, consistent: bool, listing: Listing)
      returns (r: Result<Tree>)
      requires Valid()
      modifies this
      ensures Valid() && loaded
      ensures old(loaded) && !force ==>
        log == old(log) && Cache() == AfterSlice(old(Cache()), from) && r == Ok(SliceTree(old(Cache()), from))
      ensures !(old(loaded) && !force) && PathTrim(from) != [] ==>
        log == old(log) && Cache() == Empty && r == Err(FolderNotFound(PathTrim(from)))
      ensures !(old(loaded) && !force) && PathTrim(from) == [] ==>
        var l := Load(listing, validate, consistent);
        Cache() == l.t && log == old(log) + l.cmds && r == Outcome(l)
    {
      var f := PathTrim(from);
      if loaded && !force {
        r := Ok(SliceTree(Cache(), from));
        var u := AfterSlice(Cache(), from);
        recs := u.recs;
        return;
      }
      loaded, order, recs := true, [], map[];
      if f != [] {
        return Err(FolderNotFound(f));
      }
      var err := LoadAll(listing, validate, consistent);
      r := if err.Some? then Err(err.value) else Ok(Cache());
    }

    /** `folders_hierarchy!`: always reload. */
    method FoldersHierarchyBang(from: string, validate: bool, consistent: bool, listing: Listing)
      returns (r: Result<Tree>)
      requires Valid()
      modifies this
      ensures Valid() && loaded
      ensures PathTrim(from) != [] ==> log == old(log) && Cache() == Empty && r == Err(FolderNotFound(PathTrim(from)))
      ensures PathTrim(from) == [] ==>
        var l := Load(listing, validate, consistent);
        Cache() == l.t && log == old(log) + l.cmds && r == Outcome(l)
    {
      r := FoldersHierarchy(true, from, validate, consistent, listing);
    }

    /** `folders_hierarchy` as the lookups call it, with nothing to slice. */
    method Current(validate: bool, listing: Listing) returns (err: Option<Error>)
      requires Valid()
      modifies this
      ensures Valid() && loaded
      ensures var l := Fetch(old(loaded), old(Cache()), old(log), validate, listing);
        Cache() == l.t && log == l.cmds && err == l.err
    {
      assert PathTrim("") == [];
      var r := FoldersHierarchy(false, "", validate, false, listing);
      err := if r.Err? then Some(r.error) else None;
    }
 

    // -------------------------------------------------------------------
    // Lookups: each loads the cache first when there is none

    /** `root_folder?`: a cached record whose parent is 0. */
    method RootFolder(id: int, listing: Listing) returns (r: Result<bool>)
      requires Valid()
      modifies this
      ensures Valid() && loaded
      ensures var l := Fetch(old(loaded), old(Cache()), old(log), false, listing);
        Cache() == l.t && log == l.cmds &&
        r == (if l.err.Some? then Err(l.err.value) else Ok(IsRoot(l.t, id)))
    {
      var err := Current(false, listing);
      if err.Some? {
        return Err(err.value);
      }
      if id !in recs {
        return Ok(false);
      }
      return Ok(recs[id].parent == 0);
    }

    /** `gap?`: the record's parent is not cached; a missing record cannot be dereferenced. */
    method Gap(id: int, listing: Listing) returns (r: Result<bool>)
      requires Valid()
      modifies this
      ensures Valid() && loaded
      ensures var l := Fetch(old(loaded), old(Cache()), old(log), false, listing);
        Cache() == l.t && log == l.cmds &&
        r == (if l.err.Some? then Err(l.err.value)
              else if id !in l.t.recs then Err(NoRecord(id))
              else Ok(IsGap(l.t, id)))
    {
      var err := Current(false, listing);
      if err.Some? {
        return Err(err.value);
      }
      if id !in recs {
        return Err(NoRecord(id));
      }
      return Ok(recs[id].parent !in recs);
    }

    /** `orphan?`: the walk up the parents ends in a gap before it reaches a root. */
    method Orphan(id: int, listing: Listing) returns (r: Result<bool>)
      requires Valid()
      modifies this
      ensures Valid() && loaded
      ensures var l := Fetch(old(loaded), old(Cache()), old(log), false, listing);
        Cache() == l.t && log == l.cmds &&
        (l.err.Some? ==> r == Err(l.err.value)) &&
        (l.err.None? ==> r.Ok? == IsOrphan(l.t, id).Some?) &&
        (l.err.None? && r.Ok? ==> (r.value <==> Orphaned(l.t, id))) &&
        (l.err.None? && r.Err? ==> r.error == CyclicChain(id)) &&
        (l.err.None? ==> (r.Err? <==> OrphanCycles(l.t, id)))
    {
      var err := Current(false, listing);
      if err.Some? {
        return Err(err.value);
      }
      OrphanCycle(Cache(), id);
      var o := IsOrphan(Cache(), id);
      if o.None? {
        return Err(CyclicChain(id));
      }
      OrphanAnswer(Cache(), id, |order|);
      return Ok(o.value);
    }

    /**
     * `remove_orphans!`: load the cache without validation when there is
     * none, then delete every orphan from the server and the cache. The
     * source nests the `delete_if` pass in an `each_pair` over the same
     * hash; after the first pass no orphan is left, so the later ones
     * delete nothing, and one pass is what runs here.
     */
    method RemoveOrphans(listing: Listing) returns (r: Result<Tree>)
      requires Valid()
      modifies this
      ensures Valid() && loaded
      ensures var l := Fetch(old(loaded), old(Cache()), old(log), false, listing);
        if l.err.Some? then Cache() == l.t && log == l.cmds && r == Err(l.err.value)
        else
          var (u, d, e) := PruneFrom(l.t, l.t.order, 0, []);
          Cache() == u && log == l.cmds + Deletes(d) && r == (if e.Some? then Err(e.value) else Ok(u)) &&
          (e.None? ==> u == Pruned(l.t) && d == OrphansAmong(l.t, l.t.order)) &&
          (e.Some? ==> e.value.CyclicChain? && e.value.folder in l.t.recs)
    {
      var err := Current(false, listing);
      if err.Some? {
        return Err(err.value);
      }
      PruneRemovesOrphans(Cache());
      err := PruneOrphansPass();
      if err.Some? {
        return Err(err.value);
      }
      return Ok(Cache());
    }

    /** `folder_path`: the path the parent chain spells, from a validated cache. */
    method FolderPathOf(id: int, listing: Listing) returns (r: Result<string>)
      requires Valid()
      modifies this
      ensures Valid() && loaded
      ensures var l := Fetch(old(loaded), old(Cache()), old(log), true, listing);
        Cache() == l.t && log == l.cmds &&
        r == (if l.err.Some? then Err(l.err.value)
              else if FolderPath(l.t, id).None? then Err(CyclicChain(id))
              else Ok(FolderPath(l.t, id).value)) &&
        (l.err.None? ==> (r.Err? <==> PathCycles(l.t, id)))
    {
      var err := Current(true, listing);
      if err.Some? {
        return Err(err.value);
      }
      FolderPathCycle(Cache(), id);
      var p := FolderPath(Cache(), id);
      if p.None? {
        return Err(CyclicChain(id));
      }
      return Ok(p.value);
    }

    /** `folder_id`: 0 for the root without loading, else the first cached record with that path. */
    method FolderIdOf(path: string, listing: Listing) returns (r: Result<Option<int>>)
      requires Valid()
      modifies this
      ensures Valid()
      ensures PathTrim(path) == [] ==>
        loaded == old(loaded) && Cache() == old(Cache()) && log == old(log) && r == Ok(Some(0))
      ensures PathTrim(path) != [] ==>
        var l := Fetch(old(loaded), old(Cache()), old(log), true, listing);
        loaded && Cache() == l.t && log == l.cmds &&
        r == (if l.err.Some? then Err(l.err.value) else Ok(FolderId(l.t, path)))
    {
      if PathTrim(path) == [] {
        return Ok(Some(0));
      }
      var err := Current(true, listing);
      if err.Some? {
        return Err(err.value);
      }
      return Ok(FolderId(Cache(), path));
    }

    /** `detect_gaps`: the ids, in hash order, whose parent is not cached, roots included. */
    method DetectGapsOf(listing: Listing) returns (r: Result<seq<int>>)
      requires Valid()
      modifies this
      ensures Valid() && loaded
      ensures var l := Fetch(old(loaded), old(Cache()), old(log), false, listing);
        Cache() == l.t && log == l.cmds &&
        r == (if l.err.Some? then Err(l.err.value) else Ok(DetectGaps(l.t)))
    {
      var err := Current(false, listing);
      if err.Some? {
        return Err(err.value);
      }
      return Ok(DetectGaps(Cache()));
    }

    /** `move_orphans`: one move of every gap under `to`, sent only when there is a gap. */
    method MoveOrphans(to: string, listing: Listing) returns (r: Result<seq<int>>)
      requires Valid()
      modifies this
      ensures Valid() && loaded
      ensures var l := Fetch(old(loaded), old(Cache()), old(log), false, listing);
        Cache() == l.t &&
        (l.err.Some? ==> log == l.cmds && r == Err(l.err.value)) &&
        (l.err.None? ==> (r == Ok(DetectGaps(l.t)) &&
          log == l.cmds + (if DetectGaps(l.t) == [] then [] else [MoveRealFolders(DetectGaps(l.t), PathTrim(to))])))
    {
      r := DetectGapsOf(listing);
      if r.Ok? && r.value != [] {
        log := log + [MoveRealFolders(r.value, PathTrim(to))];
      }
    }

    /** `delrealfolder` for each id, in order. */
    method DeleteEach(ks: seq<int>)
      modifies this`log
      ensures log == old(log) + Deletes(ks)
    {
      var i := 0;
      while i < |ks|
        invariant i <= |ks|
        invariant log == old(log) + Deletes(ks[..i])
        decreases |ks| - i
      {
        log := log + [DelRealFolder(ks[i])];
        DeletesAppend(ks[..i], ks[i]);
        assert ks[..i + 1] == ks[..i] + [ks[i]];
        i := i + 1;
      }
      assert ks[..i] == ks;
    }

    /** `erase_all_data!`: reload without validation, delete every folder, reload. */
    method EraseAllData(listing: Listing, relisting: Listing) returns (r: Result<Tree>)
      requires Valid()
      modifies this
      ensures Valid() && loaded
      ensures var l := Load(listing, false, false);
        (l.err.Some? ==> Cache() == l.t && log == old(log) + l.cmds && r == Err(l.err.value)) &&
        (l.err.None? ==>
          var l2 := Load(relisting, true, false);
          Cache() == l2.t && log == old(log) + l.cmds + Deletes(l.t.order) + l2.cmds && r == Outcome(l2))
    {
      assert PathTrim("") == [];
      r := FoldersHierarchyBang("", false, false, listing);
      if r.Err? {
        return;
      }
      DeleteEach(order);
      r := FoldersHierarchyBang("", true, false, relisting);
    }
 

    // -------------------------------------------------------------------
    // Editing the tree

    /**
     * `add_folder`: walk the trimmed path's segments, reusing each prefix
     * that resolves and creating the rest, one `addrealfolder` each;
     * `answers` are the ids the server hands out, in order.
     */
    method AddFolder(path: string, listing: Listing, answers: seq<int>) returns (r: Result<Option<int>>)
      requires Valid() && |Segments(path)| <= |answers|
      modifies this
      ensures Valid() && loaded
      ensures var l := Fetch(old(loaded), old(Cache()), old(log), true, listing);
        (l.err.Some? ==> Cache() == l.t && log == l.cmds && r == Err(l.err.value)) &&
        (l.err.None? ==>
          var (s, e) := AddPath(l.t, path, answers);
          Cache() == s.t && log == l.cmds + s.cmds && r == (if e.Some? then Err(e.value) else Ok(s.found)))
    {
      var err := Current(true, listing);
      if err.Some? {
        return Err(err.value);
      }
      r := AddSegments(Segments(path), answers);
    }

    /** `@tree[id] = rec` */
    method PutRecord(id: int, rec: Record)
      requires Valid()
      modifies this`order, this`recs
      ensures Valid() && Cache() == Put(old(Cache()), id, rec)
    {
      var u := Put(Cache(), id, rec);
      order, recs := u.order, u.recs;
    }

    /** The loop of `add_folder` on the loaded cache. */
    method AddSegments(segs: seq<string>, answers: seq<int>) returns (r: Result<Option<int>>)
      requires Valid() && |segs| <= |answers|
      modifies this`order, this`recs, this`log
      ensures Valid()
      ensures var a := AddFrom(segs, 0, Step(old(Cache()), 0, None, 0, []), answers);
        Cache() == a.0.t && log == old(log) + a.0.cmds && r == (if a.1.Some? then Err(a.1.value) else Ok(a.0.found))
    {
      ghost var goal := AddFrom(segs, 0, Step(Cache(), 0, None, 0, []), answers);
      var k := 0;
      var parent := 0;
      var found: Option<int> := None;
      var used: nat := 0;
      ghost var cmds: seq<Command> := [];
      while k < |segs|
        invariant k <= |segs| && used <= k
        invariant Valid()
        invariant AddFrom(segs, k, Step(Cache(), parent, found, used, cmds), answers) == goal
        invariant log == old(log) + cmds
        decreases |segs| - k
      {
        var failed;
        parent, found, used, cmds, failed := AddStep(segs, k, parent, found, used, old(log), cmds, answers);
        if failed {
          assert goal == (Step(Cache(), parent, found, used, cmds), Some(CreateFailed(parent)));
          return Err(CreateFailed(parent));
        }
        k := k + 1;
      }
      AddFromEnd(segs, Step(Cache(), parent, found, used, cmds), answers);
      assert goal == (Step(Cache(), parent, found, used, cmds), None);
      return Ok(found);
    }

    /**
     * One iteration of the `add_folder` loop: the next prefix resolves, or
     * its folder is created under `parent`. It fails when that parent is
     * negative, after the create was sent.
     */
    method AddStep(segs: seq<string>, k: nat, parent: int, found: Option<int>, used: nat,
                   ghost before: seq<Command>, ghost cmds: seq<Command>, answers: seq<int>)
      returns (parent': int, found': Option<int>, used': nat, ghost cmds': seq<Command>, failed: bool)
      requires Valid() && k < |segs| && used <= k && |segs| <= |answers|
      requires log == before + cmds
      modifies this`order, this`recs, this`log
      ensures Valid() && used' <= k + 1 && log == before + cmds'
      ensures failed ==> parent' == parent && parent < 0
      ensures var s := Step(old(Cache()), parent, found, used, cmds);
        var s' := Step(Cache(), parent', found', used', cmds');
        if failed then AddFrom(segs, k, s, answers) == (s', Some(CreateFailed(parent)))
        else AddFrom(segs, k, s, answers) == AddFrom(segs, k + 1, s', answers)
    {
      ghost var s := Step(Cache(), parent, found, used, cmds);
      var id := FolderId(Cache(), Join(segs[..k + 1], '/'));
      if id.Some? {
        AddFromFound(segs, k, s, answers, id.value);
        return id.value, id, used, cmds, false;
      }
      var name := segs[k];
      var created := answers[used];
      log := log + [AddRealFolder(parent, name)];
      cmds' := cmds + [AddRealFolder(parent, name)];
      if parent < 0 {
        return parent, Some(created), used + 1, cmds', true;
      }
      AddFromCreated(segs, k, s, answers);
      PutRecord(created, NewRecord(Cache(), parent, name));
      return created, Some(created), used + 1, cmds', false;
    }

    /** `delrealfolder` and `@tree.delete` for each id of the slice, in order. */
    method DeleteSlice(ks: seq<int>)
      requires Valid()
      modifies this`order, this`recs, this`log
      ensures Valid()
      ensures Cache() == DeleteKeys(old(Cache()), ks) && log == old(log) + Deletes(ks)
    {
      ghost var t0 := Cache();
      var i := 0;
      while i < |ks|
        invariant i <= |ks| && Valid()
        invariant Cache() == DeleteKeys(t0, ks[..i]) && log == old(log) + Deletes(ks[..i])
        decreases |ks| - i
      {
        DeleteOne(t0, old(log), ks, i);
        i := i + 1;
      }
      assert ks[..i] == ks;
    }

    /** The `i`-th delete of `DeleteSlice`. */
    method DeleteOne(ghost t0: Tree, ghost before: seq<Command>, ks: seq<int>, i: nat)
      requires Valid() && Hierarchy.Valid(t0) && i < |ks|
      requires Cache() == DeleteKeys(t0, ks[..i]) && log == before + Deletes(ks[..i])
      modifies this`order, this`recs, this`log
      ensures Valid() && Cache() == DeleteKeys(t0, ks[..i + 1]) && log == before + Deletes(ks[..i + 1])
    {
      log := log + [DelRealFolder(ks[i])];
      DeletesPrefix(ks, i);
      DeleteKeysPrefix(t0, ks, i);
      var u := Delete(Cache(), ks[i]);
      order, recs := u.order, u.recs;
    }

    /**
     * `remove_folder`: resolve the path, delete every folder of the slice
     * below it and then the folder itself, on the server and in the cache,
     * and answer the record the last delete removed. The cache deletes each
     * folder of the slice, as intended, rather than the folder's own id.
     */
    method RemoveFolder(path: string, listing: Listing) returns (r: Result<Option<Record>>)
      requires Valid()
      modifies this
      ensures Valid() && loaded
      ensures var l := Fetch(old(loaded), old(Cache()), old(log), true, listing);
        (l.err.Some? ==> Cache() == l.t && log == l.cmds && r == Err(l.err.value)) &&
        (l.err.None? && FolderId(l.t, path).None? ==>
          Cache() == l.t && log == l.cmds && r == Err(FolderNotFound(path))) &&
        (l.err.None? && FolderId(l.t, path).Some? ==>
          var id := FolderId(l.t, path).value;
          var slice := SliceTree(l.t, path);
          var rest := DeleteKeys(AfterSlice(l.t, path), slice.order);
          Cache() == Removed(l.t, id, path) &&
          log == l.cmds + Deletes(slice.order) + [DelRealFolder(id)] &&
          r == Ok(if id in rest.recs then Some(rest.recs[id]) else None))
    {
      PathTrimIdempotent(path);
      var found := FolderIdOf(PathTrim(path), listing);
      if found.Err? {
        return Err(found.error);
      }
      if found.value.None? {
        return Err(FolderNotFound(path));
      }
      r := RemoveResolved(path, found.value.value, listing);
    }

    /** `remove_folder` once `path` has resolved to `id`: the slice below it, then the deletes. */
    method RemoveResolved(path: string, id: int, listing: Listing) returns (r: Result<Option<Record>>)
      requires Valid()
      requires (PathTrim(path) == [] && id == 0) || (loaded && FolderId(Cache(), path) == Some(id))
      modifies this
      ensures Valid() && loaded
      ensures var l := Fetch(old(loaded), old(Cache()), old(log), true, listing);
        (l.err.Some? ==> Cache() == l.t && log == l.cmds && r == Err(l.err.value)) &&
        (l.err.None? ==>
          var slice := SliceTree(l.t, path);
          var rest := DeleteKeys(AfterSlice(l.t, path), slice.order);
          Cache() == Removed(l.t, id, path) &&
          log == l.cmds + Deletes(slice.order) + [DelRealFolder(id)] &&
          r == Ok(if id in rest.recs then Some(rest.recs[id]) else None))
    {
      var tree := FoldersHierarchy(false, path, true, false, listing);
      if tree.Err? {
        return Err(tree.error);
      }
      ghost var t := Fetch(old(loaded), old(Cache()), old(log), true, listing).t;
      assert Cache() == AfterSlice(t, path) && tree.value == SliceTree(t, path);
      r := Purge(t, path, id, tree.value.order);
    }

    /** The deletes of `remove_folder` once the cache `t` has been sliced below `path`. */
    method Purge(ghost t: Tree, path: string, id: int, ks: seq<int>) returns (r: Result<Option<Record>>)
      requires Valid() && Hierarchy.Valid(t)
      requires Cache() == AfterSlice(t, path) && ks == SliceTree(t, path).order
      modifies this`order, this`recs, this`log
      ensures Valid() && Cache() == Removed(t, id, path) && log == old(log) + Deletes(ks) + [DelRealFolder(id)]
      ensures var rest := DeleteKeys(AfterSlice(t, path), ks);
        r == Ok(if id in rest.recs then Some(rest.recs[id]) else None)
    {
      DeleteSlice(ks);
      log := log + [DelRealFolder(id)];
      r := Ok(if id in recs then Some(recs[id]) else None);
      var u := Delete(Cache(), id);
      order, recs := u.order, u.recs;
    }

    /**
     * `move_folder(source, to:)`: send the move with both resolved ids,
     * then give the cached record its new parent and the path below it,
     * "/name" below the root as intended. A missing destination is refused.
     */
    method MoveFolder(source: string, to: Option<string>, listing: Listing) returns (err: Option<Error>)
      requires Valid()
      modifies this
      ensures Valid() && loaded
      ensures var dest := if to.Some? then to.value else "/";
        var l := Fetch(old(loaded), old(Cache()), old(log), true, listing);
        var mv := MoveRealFolder(FolderId(l.t, source), FolderId(l.t, dest));
        var early := !old(loaded) && PathTrim(source) == [] && PathTrim(dest) == [];
        log == (if early then old(log) + [mv] + l.cmds[|old(log)|..]
                else if l.err.Some? then l.cmds else l.cmds + [mv]) &&
        (l.err.Some? ==> Cache() == l.t && err == l.err) &&
        (l.err.None? ==> (Cache(), err) == MoveOutcome(l.t, source, dest))
    {
      var dest := if to.Some? then to.value else "/";
      var s := FolderIdOf(source, listing);
      if s.Err? {
        return Some(s.error);
      }
      var d := FolderIdOf(dest, listing);
      if d.Err? {
        return Some(d.error);
      }
      err := MoveResolved(source, dest, s.value, d.value, listing);
    }

    /** `move_folder` once both paths have resolved: send the move, reload if needed, edit the cache. */
    method MoveResolved(source: string, dest: string, s: Option<int>, d: Option<int>, listing: Listing)
      returns (err: Option<Error>)
      requires Valid()
      requires s == FolderId(Cache(), source) && d == FolderId(Cache(), dest)
      requires !loaded ==> PathTrim(source) == [] && PathTrim(dest) == []
      modifies this
      ensures Valid() && loaded
      ensures var l := Fetch(old(loaded), old(Cache()), old(log) + [MoveRealFolder(s, d)], true, listing);
        log == l.cmds &&
        (l.err.Some? ==> Cache() == l.t && err == l.err) &&
        (l.err.None? ==> (Cache(), err) == MoveOutcome(l.t, source, dest))
    {
      log := log + [MoveRealFolder(s, d)];
      err := Current(true, listing);
      if err.Some? {
        return;
      }
      err := Relocate(source, dest, s, d);
    }

    /** The cache edit of `move_folder`, on the loaded cache, given the ids its paths resolved to. */
    method Relocate(source: string, dest: string, s: Option<int>, d: Option<int>) returns (err: Option<Error>)
      requires Valid() && s == FolderId(Cache(), source) && d == FolderId(Cache(), dest)
      modifies this`recs
      ensures Valid() && (Cache(), err) == MoveOutcome(old(Cache()), source, dest)
    {
      if s.None? {
        return Some(FolderNotFound(source));
      }
      var sid := s.value;
      if sid !in recs {
        return Some(NoRecord(sid));
      }
      if d.None? {
        return Some(FolderNotFound(dest));
      }
      var did := d.value;
      var name := recs[sid].name;
      ghost var u := Reparented(Cache(), sid, did);
      recs := recs[sid := recs[sid].(parent := did)];
      assert Cache() == u;
      var path;
      if did == 0 {
        path := PathCanonize("/" + name);
      } else {
        var p := FolderPath(Cache(), did);
        if p.None? {
          return Some(CyclicChain(did));
        }
        path := PathCanonize(p.value + "/" + name);
      }
      recs := recs[sid := recs[sid].(path := path)];
      assert Cache() == SetPath(u, sid, path);
      err := None;
    }
  }
}
