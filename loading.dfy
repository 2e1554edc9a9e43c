/**
 * The steps of `folders_hierarchy` after the listing is read, as functions
 * of the cache: the `delete_if` pass of `remove_orphans!`, which deletes
 * while it walks, and the `each_pair` pass that stores `folder_path` in
 * every record. Each function follows its loop one key at a time; the
 * lemmas say what the whole pass leaves behind.
 */
module Loading {
  import opened Outcomes
  import opened Hierarchy
  import opened Orphans
  import opened Paths
  import opened Backend

  // ---------------------------------------------------------------------
  // Storing paths: `@tree[folder_id][:path] = folder_path folder_id`

  /** `@tree[k][:path] = p` */
  function SetPath(t: Tree, k: int, p: string): (u: Tree)
    requires k in t.recs
    ensures SameShape(t, u) && u.order == t.order
    ensures u.recs[k].path == p
    ensures forall j :: j in t.recs && j != k ==> u.recs[j] == t.recs[j]
  {
    Tree(t.order, t.recs[k := t.recs[k].(path := p)])
  }

  /**
   * The `each_pair` pass from the `i`-th key on. It stops at the first key
   * whose parent chain never reaches a root, where the source recurses
   * without end.
   */
  function ComputePaths(t: Tree, i: nat): (r: (Tree, Option<Error>))
    requires Valid(t) && i <= |t.order|
    ensures Valid(r.0) && SameShape(t, r.0) && r.0.order == t.order
    decreases |t.order| - i
  {
    if i == |t.order| then (t, None)
    else
      var k := t.order[i];
      match FolderPath(t, k)
      case None => (t, Some(CyclicChain(k)))
      case Some(p) => ComputePaths(SetPath(t, k, p), i + 1)
  }

  lemma SameShapeTrans(a: Tree, b: Tree, c: Tree)
    requires SameShape(a, b) && SameShape(b, c)
    ensures SameShape(a, c)
  {
  }

  /** The paths stored for the first `i` keys are their `folder_path`s in `t0`. */
  ghost predicate PathsUpTo(t0: Tree, t: Tree, i: nat) {
    i <= |t.order| &&
    forall j :: 0 <= j < i ==> t.order[j] in t.recs && FolderPath(t0, t.order[j]) == Some(t.recs[t.order[j]].path)
  }

  lemma {:induction false} ComputePathsFrom(t0: Tree, t: Tree, i: nat)
    requires Valid(t0) && Valid(t) && SameShape(t0, t) && t.order == t0.order
    requires i <= |t.order| && PathsUpTo(t0, t, i)
    ensures var (u, e) := ComputePaths(t, i);
      (e.None? ==> PathsUpTo(t0, u, |u.order|)) &&
      (e.None? <==> forall j :: i <= j < |t.order| ==> FolderPath(t0, t.order[j]).Some?) &&
      (e.Some? ==> e.value.CyclicChain? && e.value.folder in t0.recs && FolderPath(t0, e.value.folder).None?)
    decreases |t.order| - i
  {
    if i < |t.order| {
      var k := t.order[i];
      FolderPathShape(t0, t, k, |t.order|);
      if FolderPath(t, k).Some? {
        var u := SetPath(t, k, FolderPath(t, k).value);
        SameShapeTrans(t0, t, u);
        assert PathsUpTo(t0, u, i + 1) by {
          forall j | 0 <= j < i + 1
            ensures FolderPath(t0, u.order[j]) == Some(u.recs[u.order[j]].path)
          {
            if j < i {
              DistinctAt(t.order, j, i);
            }
          }
        }
        ComputePathsFrom(t0, u, i + 1);
      }
    }
  }

  /**
   * After the pass, every cached path is what `folder_path` computes from
   * the parent chain, and the pass fails exactly when some chain is cyclic.
   */
  lemma ComputePathsAgree(t: Tree)
    requires Valid(t)
    ensures var (u, e) := ComputePaths(t, 0);
      (e.None? ==> PathsAgree(u) && SameShape(t, u) && u.order == t.order) &&
      (e.None? <==> forall k :: k in t.recs ==> FolderPath(t, k).Some?) &&
      (e.Some? ==> e.value.CyclicChain? && e.value.folder in t.recs && FolderPath(t, e.value.folder).None?)
    ensures var e := ComputePaths(t, 0).1;
      (e.None? <==> forall k :: k in t.recs ==> !PathCycles(t, k)) &&
      (e.Some? ==> PathCycles(t, e.value.folder))
  {
    ComputePathsFrom(t, t, 0);
    var (u, e) := ComputePaths(t, 0);
    forall k ensures FolderPath(t, k).None? <==> PathCycles(t, k) {
      FolderPathCycle(t, k);
    }
    if e.None? {
      forall k | k in u.recs ensures FolderPath(u, k) == Some(u.recs[k].path) {
        var j :| 0 <= j < |u.order| && u.order[j] == k;
        FolderPathShape(t, u, k, |t.order|);
      }
    }
    assert (forall j :: 0 <= j < |t.order| ==> FolderPath(t, t.order[j]).Some?) <==>
           (forall k :: k in t.recs ==> FolderPath(t, k).Some?) by {
      if forall j :: 0 <= j < |t.order| ==> FolderPath(t, t.order[j]).Some? {
        forall k | k in t.recs ensures FolderPath(t, k).Some? {
          var j :| 0 <= j < |t.order| && t.order[j] == k;
        }
      }
    }
  }

  // ---------------------------------------------------------------------
  // remove_orphans!: `delete_if { orphan? }` over the live cache

  /**
   * The `delete_if` walk from the `i`-th of the keys `ks` it started with,
   * on the cache `cur` as it is by then, with the ids deleted so far. It
   * stops where `orphan?` would recurse without end.
   */
  function PruneFrom(cur: Tree, ks: seq<int>, i: nat, deleted: seq<int>): (r: (Tree, seq<int>, Option<Error>))
    requires Valid(cur) && i <= |ks|
    ensures Valid(r.0) && deleted <= r.1
    decreases |ks| - i
  {
    if i == |ks| then (cur, deleted, None)
    else
      match IsOrphan(cur, ks[i])
      case None => (cur, deleted, Some(CyclicChain(ks[i])))
      case Some(true) => PruneFrom(Delete(cur, ks[i]), ks, i + 1, deleted + [ks[i]])
      case Some(false) => PruneFrom(cur, ks, i + 1, deleted)
  }

  /** `Without` drops a key from a sequence that holds it exactly once, after a prefix. */
  lemma {:induction false} WithoutSplit(a: seq<int>, k: int, b: seq<int>)
    requires k !in a && k !in b
    ensures Without(a + [k] + b, k) == a + b
    decreases |a|
  {
    if a == [] {
      assert ([k] + b)[1..] == b;
      WithoutAbsent(b, k);
    } else {
      assert (a + [k] + b)[1..] == a[1..] + [k] + b;
      WithoutSplit(a[1..], k, b);
      assert a + b == [a[0]] + (a[1..] + b);
    }
  }

  lemma {:induction false} WithoutAbsent(s: seq<int>, k: int)
    requires k !in s
    ensures Without(s, k) == s
    decreases |s|
  {
    if s != [] {
      WithoutAbsent(s[1..], k);
      assert [s[0]] + s[1..] == s;
    }
  }

  lemma {:induction false} SurvivorsAppend(t: Tree, ks: seq<int>, k: int)
    ensures Survivors(t, ks + [k]) == Survivors(t, ks) + (if Orphaned(t, k) then [] else [k])
    decreases |ks|
  {
    if ks == [] {
      assert Survivors(t, []) == [];
      assert ([k])[1..] == [];
    } else {
      assert (ks + [k])[1..] == ks[1..] + [k];
      SurvivorsAppend(t, ks[1..], k);
    }
  }

  lemma {:induction false} OrphansAmongAppend(t: Tree, ks: seq<int>, k: int)
    ensures OrphansAmong(t, ks + [k]) == OrphansAmong(t, ks) + (if Orphaned(t, k) then [k] else [])
    decreases |ks|
  {
    if ks == [] {
      assert ([k])[1..] == [];
    } else {
      assert (ks + [k])[1..] == ks[1..] + [k];
      OrphansAmongAppend(t, ks[1..], k);
    }
  }

  /** The cache after the first `i` of the original keys have been decided. */
  ghost predicate PrunedUpTo(t: Tree, cur: Tree, i: nat, deleted: seq<int>) {
    i <= |t.order| &&
    cur.order == Survivors(t, t.order[..i]) + t.order[i..] &&
    (forall k :: k in cur.recs <==> k in t.recs && !(k in t.order[..i] && Orphaned(t, k))) &&
    (forall k :: k in cur.recs ==> cur.recs[k] == t.recs[k]) &&
    deleted == OrphansAmong(t, t.order[..i])
  }

  /** In a key order without repeats, the `i`-th key is neither before nor after itself. */
  lemma DistinctSplit(s: seq<int>, i: nat)
    requires Distinct(s) && i < |s|
    ensures s[i] !in s[..i] && s[i] !in s[i + 1..]
    ensures s[..i + 1] == s[..i] + [s[i]] && s[i..] == [s[i]] + s[i + 1..]
  {
    forall j | 0 <= j < i ensures s[j] != s[i] {
      DistinctAt(s, j, i);
    }
    forall j | i < j < |s| ensures s[j] != s[i] {
      DistinctAt(s, i, j);
    }
    SplitAt(s, i);
  }

  /** A key at `i` that occurs before or after `i` occurs at some other index. */
  lemma SplitAt(s: seq<int>, i: nat)
    requires i < |s|
    ensures s[i] in s[..i] ==> exists j :: 0 <= j < i && s[j] == s[i]
    ensures s[i] in s[i + 1..] ==> exists j :: i < j < |s| && s[j] == s[i]
    ensures s[..i + 1] == s[..i] + [s[i]] && s[i..] == [s[i]] + s[i + 1..]
  {
    if s[i] in s[..i] {
      var j :| 0 <= j < i && s[..i][j] == s[i];
    }
    if s[i] in s[i + 1..] {
      var j :| 0 <= j < |s| - i - 1 && s[i + 1..][j] == s[i];
      assert s[i + 1 + j] == s[i];
    }
  }

  /** The live answer of `orphan?` for the next key is its answer on the original tree. */
  lemma PruneAnswer(t: Tree, cur: Tree, i: nat, deleted: seq<int>)
    requires Valid(t) && PrunedUpTo(t, cur, i, deleted) && i < |t.order|
    requires IsOrphan(cur, t.order[i]).Some?
    ensures IsOrphan(cur, t.order[i]).value <==> Orphaned(t, t.order[i])
  {
    DistinctSplit(t.order, i);
    LiveAgrees(t, cur, t.order[i], |cur.order|);
  }

  /** Keeping a folder that is no orphan. */
  lemma PruneKeep(t: Tree, cur: Tree, i: nat, deleted: seq<int>)
    requires Valid(t) && PrunedUpTo(t, cur, i, deleted) && i < |t.order|
    requires !Orphaned(t, t.order[i])
    ensures PrunedUpTo(t, cur, i + 1, deleted)
  {
    var ks := t.order;
    DistinctSplit(ks, i);
    SurvivorsAppend(t, ks[..i], ks[i]);
    OrphansAmongAppend(t, ks[..i], ks[i]);
    assert cur.order == Survivors(t, ks[..i + 1]) + ks[i + 1..];
  }

  /** Deleting a folder that is an orphan. */
  lemma PruneDelete(t: Tree, cur: Tree, i: nat, deleted: seq<int>)
    requires Valid(t) && Valid(cur) && PrunedUpTo(t, cur, i, deleted) && i < |t.order|
    requires Orphaned(t, t.order[i])
    ensures PrunedUpTo(t, Delete(cur, t.order[i]), i + 1, deleted + [t.order[i]])
  {
    var ks := t.order;
    DistinctSplit(ks, i);
    PruneDeleteOrder(t, cur.order, i);
    OrphansAmongAppend(t, ks[..i], ks[i]);
  }

  /** The key order once an orphan is deleted. */
  lemma PruneDeleteOrder(t: Tree, order: seq<int>, i: nat)
    requires Distinct(t.order) && i < |t.order| && Orphaned(t, t.order[i])
    requires order == Survivors(t, t.order[..i]) + t.order[i..]
    ensures Without(order, t.order[i]) == Survivors(t, t.order[..i + 1]) + t.order[i + 1..]
  {
    var ks := t.order;
    DistinctSplit(ks, i);
    SurvivorsAppend(t, ks[..i], ks[i]);
    var s := Survivors(t, ks[..i]);
    assert Survivors(t, ks[..i + 1]) == s;
    assert ks[i] !in s;
    WithoutAt(s, ks, i);
  }

  /** Dropping the `i`-th key of a suffix that starts there. */
  lemma WithoutAt(s: seq<int>, ks: seq<int>, i: nat)
    requires Distinct(ks) && i < |ks| && ks[i] !in s
    ensures Without(s + ks[i..], ks[i]) == s + ks[i + 1..]
  {
    DistinctSplit(ks, i);
    assert s + ks[i..] == s + [ks[i]] + ks[i + 1..];
    WithoutSplit(s, ks[i], ks[i + 1..]);
  }

  lemma {:induction false} PruneFromPruned(t: Tree, cur: Tree, i: nat, deleted: seq<int>)
    requires Valid(t) && Valid(cur) && PrunedUpTo(t, cur, i, deleted)
    ensures var r := PruneFrom(cur, t.order, i, deleted);
      (r.2.None? ==> PrunedUpTo(t, r.0, |t.order|, r.1)) &&
      (r.2.Some? ==> r.2.value.CyclicChain? && r.2.value.folder in t.recs)
    decreases |t.order| - i
  {
    if i < |t.order| {
      var k := t.order[i];
      var a := IsOrphan(cur, k);
      if a.Some? {
        PruneAnswer(t, cur, i, deleted);
        if a.value {
          PruneDelete(t, cur, i, deleted);
          assert PruneFrom(cur, t.order, i, deleted) == PruneFrom(Delete(cur, k), t.order, i + 1, deleted + [k]);
          PruneFromPruned(t, Delete(cur, k), i + 1, deleted + [k]);
        } else {
          PruneKeep(t, cur, i, deleted);
          assert PruneFrom(cur, t.order, i, deleted) == PruneFrom(cur, t.order, i + 1, deleted);
          PruneFromPruned(t, cur, i + 1, deleted);
        }
      }
    }
  }

  /** Once every key is decided, the cache is `Pruned(t)`. */
  lemma PrunedUpToEnd(t: Tree, u: Tree, d: seq<int>)
    requires Valid(t) && PrunedUpTo(t, u, |t.order|, d)
    ensures u == Pruned(t) && d == OrphansAmong(t, t.order)
  {
    assert t.order[..|t.order|] == t.order;
    assert t.order[|t.order|..] == [];
    var v := Pruned(t);
    assert u.recs.Keys == v.recs.Keys by {
      forall k ensures k in u.recs <==> k in v.recs {
        assert k in t.recs <==> k in t.order;
      }
    }
    assert u.recs == v.recs;
  }

  /** Before the walk nothing is decided. */
  lemma PrunedUpToStart(t: Tree)
    requires Valid(t)
    ensures PrunedUpTo(t, t, 0, [])
  {
    assert t.order[..0] == [] && t.order[0..] == t.order;
    assert Survivors(t, []) == [] && OrphansAmong(t, []) == [];
  }

  /**
   * `remove_orphans!` deletes, in hash order, exactly the folders that are
   * orphans of the tree it started from, and leaves exactly `Pruned(t)`,
   * although each `orphan?` is asked of the partly pruned cache.
   */
  lemma PruneRemovesOrphans(t: Tree)
    requires Valid(t)
    ensures var (u, d, e) := PruneFrom(t, t.order, 0, []);
      (e.None? ==> u == Pruned(t) && d == OrphansAmong(t, t.order)) &&
      (e.Some? ==> e.value.CyclicChain? && e.value.folder in t.recs)
  {
    PrunedUpToStart(t);
    PruneFromPruned(t, t, 0, []);
    var (u, d, e) := PruneFrom(t, t.order, 0, []);
    if e.None? {
      PrunedUpToEnd(t, u, d);
    }
  }

  /**
   * On a closed tree (what validation demands) `orphan?` never answers
   * yes, so the pass deletes nothing; it can only stop at a cycle.
   */
  lemma {:induction false} PruneKeepsClosed(t: Tree, i: nat)
    requires Valid(t) && Closed(t) && i <= |t.order|
    ensures var (u, d, e) := PruneFrom(t, t.order, i, []);
      e.None? ==> u == t && d == []
    decreases |t.order| - i
  {
    if i < |t.order| {
      ClosedHasNoOrphans(t, t.order[i], |t.order|);
      PruneKeepsClosed(t, i + 1);
    }
  }

  // ---------------------------------------------------------------------
  // Validation and the whole load

  /** The validation scan: the first record, in hash order, whose non-zero parent is not cached. */
  function ValidationError(t: Tree): (r: Option<Error>)
    ensures r.None? <==> forall j :: 0 <= j < |t.order| ==> !Broken(t, t.order[j])
    ensures r.Some? ==> (r.value.InconsistentTree? && Broken(t, r.value.folder) &&
      r.value.missingParent == t.recs[r.value.folder].parent)
  {
    match FirstBroken(t, t.order)
    case None => None
    case Some(i) =>
      var k := t.order[i];
      Some(InconsistentTree(k, t.recs[k].path, t.recs[k].parent))
  }

  /** What a load leaves: the cache, the commands it issued, and what it raised. */
  datatype Loaded = Loaded(t: Tree, cmds: seq<Command>, err: Option<Error>)

  /**
   * The loading branch of `folders_hierarchy` with an empty `from`: list
   * the folders, build the hash, prune orphans when asked to be consistent
   * (only together with validation), store every path, then validate.
   * Whatever was raised, the cache keeps what was built up to there.
   */
  function Load(listing: Listing, validate: bool, consistent: bool): (r: Loaded)
    ensures Valid(r.t) && |r.cmds| >= 1 && r.cmds[0] == ListRealFolders
  {
    var r := Settled(Build(listing), validate, consistent);
    r.(cmds := [ListRealFolders] + r.cmds)
  }

  /** A load once the hash `t` is built. */
  function Settled(t: Tree, validate: bool, consistent: bool): (r: Loaded)
    requires Valid(t)
    ensures Valid(r.t)
  {
    if consistent && validate then PruneThenStore(t) else StorePaths(t, [], validate)
  }

  /** A consistent load once the hash is built: prune, then store the paths and validate. */
  function PruneThenStore(t: Tree): (r: Loaded)
    requires Valid(t)
    ensures Valid(r.t)
  {
    var (p, deleted, e) := PruneFrom(t, t.order, 0, []);
    if e.Some? then Loaded(p, Deletes(deleted), e) else StorePaths(p, Deletes(deleted), true)
  }

  /** The rest of the load once the hash is final: store the paths, then validate. */
  function StorePaths(p: Tree, cmds: seq<Command>, validate: bool): (r: Loaded)
    requires Valid(p)
    ensures Valid(r.t) && SameShape(p, r.t) && r.t.order == p.order && r.cmds == cmds
  {
    var (u, e) := ComputePaths(p, 0);
    if e.Some? then Loaded(u, cmds, e)
    else Loaded(u, cmds, if validate then ValidationError(u) else None)
  }

  lemma ClosedSameShape(t: Tree, u: Tree)
    requires Closed(t) && SameShape(t, u)
    ensures Closed(u)
  {
  }

  /**
   * A load that raises nothing leaves every cached path equal to its
   * parent-chain path; a validated load leaves a closed tree; a plain load
   * keeps the listing as it came; a consistent one keeps exactly the
   * non-orphans and deletes the orphans on the server, in hash order.
   */
  lemma LoadSound(listing: Listing, validate: bool, consistent: bool)
    ensures var r := Load(listing, validate, consistent);
      var t := Build(listing);
      (r.err.None? ==> PathsAgree(r.t)) &&
      (r.err.None? && validate ==> Closed(r.t)) &&
      (r.err.None? && !(consistent && validate) ==>
        SameShape(t, r.t) && r.t.order == t.order && r.cmds == [ListRealFolders]) &&
      (r.err.None? && consistent && validate ==>
        SameShape(Pruned(t), r.t) && r.t.order == Pruned(t).order &&
        r.cmds == [ListRealFolders] + Deletes(OrphansAmong(t, t.order)))
  {
    var t := Build(listing);
    if consistent && validate {
      PruneRemovesOrphans(t);
      var (p, d, e) := PruneFrom(t, t.order, 0, []);
      if e.None? {
        StorePathsSound(p, Deletes(d), validate);
      }
    } else {
      StorePathsSound(t, [], validate);
    }
  }

  lemma StorePathsSound(p: Tree, cmds: seq<Command>, validate: bool)
    requires Valid(p)
    ensures var r := StorePaths(p, cmds, validate);
      (r.err.None? ==> PathsAgree(r.t)) &&
      (r.err.None? && validate ==> Closed(r.t)) &&
      (Closed(p) ==> r.err.None? || r.err.value.CyclicChain?)
    ensures var r := StorePaths(p, cmds, validate);
      Closed(p) && r.err.Some? ==> PathCycles(p, r.err.value.folder)
  {
    ComputePathsAgree(p);
    var (u, e) := ComputePaths(p, 0);
    ValidationPassesIffClosed(u);
    if Closed(p) {
      ClosedSameShape(p, u);
    }
  }

  /** With `consistent` on, validation cannot fail: pruning leaves a closed tree. */
  lemma ConsistentLoadPassesValidation(listing: Listing)
    ensures var r := Load(listing, true, true);
      r.err.None? || r.err.value.CyclicChain?
  {
    var t := Build(listing);
    PruneRemovesOrphans(t);
    var (p, d, e) := PruneFrom(t, t.order, 0, []);
    if e.None? {
      PrunedIsClosed(t);
      StorePathsSound(p, Deletes(d), true);
    }
  }

  /** The listing "NONE" loads the empty hash, whatever the flags, after the one listing command. */
  lemma LoadNone(validate: bool, consistent: bool)
    ensures Load(NoFolders, validate, consistent) == Loaded(Empty, [ListRealFolders], None)
  {
    assert Deletes([]) == [];
  }

  // ---------------------------------------------------------------------
  // slice_tree on the cache: the shallow `dup` shares the records

  /**
   * The cache after `slice_tree(@tree, from)`: the records the slice keeps
   * are the same objects as in the cache, so their rewritten paths show
   * in the cache too.
   */
  function Aliased(t: Tree, f: string): (u: Tree)
    ensures u.order == t.order && SameShape(t, u)
    ensures forall k :: k in t.recs && !Below(t, k, f) ==> u.recs[k] == t.recs[k]
  {
    Tree(t.order, map k | k in t.recs :: if Below(t, k, f) then t.recs[k].(path := RelativePath(t.recs[k].path, f)) else t.recs[k])
  }

  /** Every record of the slice is the cache's record after the rewrite. */
  lemma SliceSharesRecords(t: Tree, from: string, k: int)
    requires Valid(t) && PathTrim(from) != [] && k in SliceTree(t, from).recs
    ensures SliceTree(t, from).recs[k] == Aliased(t, PathTrim(from)).recs[k]
  {
  }
}
