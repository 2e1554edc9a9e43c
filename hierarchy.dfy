/**
 * The cached folder hierarchy and the read-only queries over it:
 * `folder_path`, `folder_id`, `root_folder?`, `gap?`, `orphan?`,
 * `detect_gaps`, `slice_tree` and the consistency validation.
 *
 * The cache is a Ruby Hash from folder id to record; Ruby hashes keep
 * insertion order, which `folder_id` exposes (it returns the first match),
 * so a tree is the order of its keys together with the map itself.
 */
module Hierarchy {
  import opened Outcomes
  import opened Paths

  datatype Record = Record(parent: int, name: string, path: string)

  datatype Tree = Tree(order: seq<int>, recs: map<int, Record>)

  /** One `id,parent,name` tuple of the backend's folder listing. */
  datatype Row = Row(id: int, parent: int, name: string)

  /** The listing: the literal "NONE" answer, or the tuples. */
  datatype Listing = NoFolders | Rows(rows: seq<Row>)

  /** The name and path `folder_path` substitutes for an id with no record. */
  const Undefined: string := "<undefined>"

  /** No id occurs twice. */
  predicate Distinct(s: seq<int>)
    decreases |s|
  {
    s == [] || (s[0] !in s[1..] && Distinct(s[1..]))
  }

  lemma {:induction false} DistinctAppend(s: seq<int>, k: int)
    requires Distinct(s) && k !in s
    ensures Distinct(s + [k])
    decreases |s|
  {
    if s != [] {
      assert (s + [k])[1..] == s[1..] + [k];
      DistinctAppend(s[1..], k);
    }
  }

  /** Two positions of a distinct sequence hold different ids. */
  lemma {:induction false} DistinctAt(s: seq<int>, i: nat, j: nat)
    requires Distinct(s) && i < j < |s|
    ensures s[i] != s[j]
    decreases i
  {
    if i == 0 {
      assert s[j] in s[1..] by { assert s[1..][j - 1] == s[j]; }
    } else {
      DistinctAt(s[1..], i - 1, j - 1);
    }
  }

  /** The key order lists every key of the map exactly once. */
  ghost predicate Valid(t: Tree) {
    Distinct(t.order) && (forall k :: k in t.recs <==> k in t.order)
  }

  const Empty: Tree := Tree([], map[])

  /** `hash[k] = r`: a new key goes last, an existing key keeps its place. */
  function Put(t: Tree, k: int, r: Record): (u: Tree)
    requires Valid(t)
    ensures Valid(u)
    ensures u.recs == t.recs[k := r]
    ensures u.order == if k in t.recs then t.order else t.order + [k]
  {
    if k in t.recs then Tree(t.order, t.recs[k := r])
    else
      DistinctAppend(t.order, k);
      Tree(t.order + [k], t.recs[k := r])
  }

  function Without(s: seq<int>, k: int): (r: seq<int>)
    ensures forall x :: x in r <==> x in s && x != k
    ensures Distinct(s) ==> Distinct(r)
    ensures |r| <= |s|
    decreases |s|
  {
    if s == [] then []
    else if s[0] == k then Without(s[1..], k)
    else
      var r := Without(s[1..], k);
      assert ([s[0]] + r)[1..] == r;
      [s[0]] + r
  }

  /** `hash.delete(k)` */
  function Delete(t: Tree, k: int): (u: Tree)
    requires Valid(t)
    ensures Valid(u)
    ensures u.recs == t.recs - {k}
    ensures u.order == Without(t.order, k)
  {
    Tree(Without(t.order, k), t.recs - {k})
  }

  /** `Hash[intermediate]` over the listing's tuples, before any path is computed. */
  function FromRows(rows: seq<Row>): (t: Tree)
    ensures Valid(t)
    decreases |rows|
  {
    if rows == [] then Empty
    else
      var last := rows[|rows| - 1];
      Put(FromRows(rows[..|rows| - 1]), last.id, Record(last.parent, last.name, ""))
  }

  /** Every row's id is a key, and nothing else is. */
  lemma {:induction false} FromRowsKeys(rows: seq<Row>, k: int)
    ensures k in FromRows(rows).recs <==> exists i :: 0 <= i < |rows| && rows[i].id == k
    decreases |rows|
  {
    if rows != [] {
      var init := rows[..|rows| - 1];
      FromRowsKeys(init, k);
      if k in FromRows(init).recs {
        var i :| 0 <= i < |init| && init[i].id == k;
        assert rows[i].id == k;
      }
      if i :| 0 <= i < |rows| - 1 && rows[i].id == k {
        assert init[i].id == k;
      }
    }
  }

  /** The record of an id is built from the last row with that id; its path is still empty. */
  lemma {:induction false} FromRowsLast(rows: seq<Row>, i: nat)
    requires i < |rows|
    requires forall j :: i < j < |rows| ==> rows[j].id != rows[i].id
    ensures rows[i].id in FromRows(rows).recs
    ensures FromRows(rows).recs[rows[i].id] == Record(rows[i].parent, rows[i].name, "")
    decreases |rows|
  {
    if i < |rows| - 1 {
      var init := rows[..|rows| - 1];
      FromRowsLast(init, i);
    }
  }

  function Build(listing: Listing): (t: Tree)
    ensures Valid(t)
  {
    match listing
    case NoFolders => Empty
    case Rows(rows) => FromRows(rows)
  }

  // ---------------------------------------------------------------------
  // folder_path

  /** The record `folder_path` reads for an id: the cached one, or the placeholder root. */
  function RecordOrPlaceholder(t: Tree, id: int): Record {
    if id in t.recs then t.recs[id] else Record(0, Undefined, Undefined)
  }

  /**
   * `folder_path` with at most `fuel` recursive calls; None when the budget
   * runs out, which for a budget of one call per cached record happens only
   * on a parent cycle, where the source recurses forever (FolderPathCycle).
   */
  function FolderPathN(t: Tree, id: int, fuel: nat): (r: Option<string>)
    ensures r.Some? ==> |r.value| >= 1 && r.value[0] == '/'
    decreases fuel
  {
    var rec := RecordOrPlaceholder(t, id);
    if rec.parent == 0 then Some("/" + rec.name)
    else if fuel == 0 then None
    else
      match FolderPathN(t, rec.parent, fuel - 1)
      case None => None
      case Some(p) => Some(p + "/" + rec.name)
  }

  function FolderPath(t: Tree, id: int): Option<string> {
    FolderPathN(t, id, |t.order|)
  }

  /** More budget never changes a path that was already computed. */
  lemma {:induction false} FolderPathFuel(t: Tree, id: int, n: nat, m: nat)
    requires n <= m && FolderPathN(t, id, n).Some?
    ensures FolderPathN(t, id, m) == FolderPathN(t, id, n)
    decreases n
  {
    var rec := RecordOrPlaceholder(t, id);
    if rec.parent != 0 {
      FolderPathFuel(t, rec.parent, n - 1, m - 1);
    }
  }

  /** Trees with the same keys, parents and names: `folder_path` never reads `path`. */
  ghost predicate SameShape(t: Tree, u: Tree) {
    t.recs.Keys == u.recs.Keys &&
    forall k :: k in t.recs ==> t.recs[k].parent == u.recs[k].parent && t.recs[k].name == u.recs[k].name
  }

  lemma {:induction false} FolderPathShape(t: Tree, u: Tree, id: int, n: nat)
    requires SameShape(t, u)
    ensures FolderPathN(t, id, n) == FolderPathN(u, id, n)
    decreases n
  {
    var rec := RecordOrPlaceholder(t, id);
    if rec.parent != 0 && n > 0 {
      FolderPathShape(t, u, rec.parent, n - 1);
    }
  }

  /** The path of a root is "/" + name; a missing id reads as the placeholder root. */
  lemma FolderPathRoot(t: Tree, id: int, n: nat)
    ensures id in t.recs && t.recs[id].parent == 0 ==> FolderPathN(t, id, n) == Some("/" + t.recs[id].name)
    ensures id !in t.recs ==> FolderPathN(t, id, n) == Some("/" + Undefined)
  {
  }

  /** Below a root, a path is the parent's path, "/", and the name. */
  lemma FolderPathChild(t: Tree, id: int, n: nat)
    requires id in t.recs && t.recs[id].parent != 0
    requires FolderPathN(t, t.recs[id].parent, n).Some?
    ensures FolderPathN(t, id, n + 1) == Some(FolderPathN(t, t.recs[id].parent, n).value + "/" + t.recs[id].name)
  {
  }

  // ---------------------------------------------------------------------
  // folder_id

  predicate PathIs(t: Tree, k: int, p: string) {
    k in t.recs && PathTrim(t.recs[k].path) == p
  }

  /** `find_index` over the keys `ks`: the first one whose trimmed path is `p`. */
  function FindIndex(t: Tree, ks: seq<int>, p: string): (r: Option<nat>)
    ensures r.Some? ==> r.value < |ks| && PathIs(t, ks[r.value], p)
    decreases |ks|
  {
    if ks == [] then None
    else if PathIs(t, ks[0], p) then Some(0)
    else
      match FindIndex(t, ks[1..], p)
      case None => None
      case Some(i) => Some(i + 1)
  }

  /** `folder_id`: 0 for the root path, else the first key in order whose path matches. */
  function FolderId(t: Tree, path: string): (r: Option<int>)
    ensures PathTrim(path) == [] ==> r == Some(0)
    ensures PathTrim(path) != [] && r.Some? ==> r.value in t.order && PathIs(t, r.value, PathTrim(path))
  {
    var p := PathTrim(path);
    if p == [] then Some(0)
    else
      match FindIndex(t, t.order, p)
      case None => None
      case Some(i) => Some(t.order[i])
  }

  /** `find_index` stops at the first match, and finds none only when no key matches. */
  lemma {:induction false} FindIndexFirst(t: Tree, ks: seq<int>, p: string)
    ensures FindIndex(t, ks, p).Some? ==> forall j :: 0 <= j < FindIndex(t, ks, p).value ==> !PathIs(t, ks[j], p)
    ensures FindIndex(t, ks, p).None? <==> forall j :: 0 <= j < |ks| ==> !PathIs(t, ks[j], p)
    decreases |ks|
  {
    if ks != [] {
      FindIndexFirst(t, ks[1..], p);
      assert forall j :: 0 < j < |ks| ==> ks[j] == ks[1..][j - 1];
    }
  }

  /** `folder_id` answers the first folder in hash order whose trimmed path matches, and nil only when none does. */
  lemma FolderIdFirst(t: Tree, path: string)
    requires PathTrim(path) != []
    ensures FolderId(t, path).None? <==> forall k :: k in t.order ==> !PathIs(t, k, PathTrim(path))
    ensures FolderId(t, path).Some? ==>
      exists i :: 0 <= i < |t.order| && t.order[i] == FolderId(t, path).value &&
        forall j :: 0 <= j < i ==> !PathIs(t, t.order[j], PathTrim(path))
  {
    var p := PathTrim(path);
    FindIndexFirst(t, t.order, p);
    if FolderId(t, path).Some? {
      var i := FindIndex(t, t.order, p).value;
      assert t.order[i] == FolderId(t, path).value;
    }
  }

  // ---------------------------------------------------------------------
  // Classification: root_folder?, gap?, orphan?

  /** `root_folder?`: false for a missing id, else whether the parent is 0. */
  predicate IsRoot(t: Tree, id: int) {
    id in t.recs && t.recs[id].parent == 0
  }

  /** `gap?`: the parent is not a cached key (0 never is, so every root is a gap too). */
  predicate IsGap(t: Tree, id: int)
    requires id in t.recs
  {
    t.recs[id].parent !in t.recs
  }

  /** `orphan?` with at most `fuel` recursive calls; None when the budget runs out. */
  function OrphanN(t: Tree, id: int, fuel: nat): (r: Option<bool>)
    ensures id !in t.recs || IsRoot(t, id) ==> r == Some(false)
    ensures id in t.recs && !IsRoot(t, id) && IsGap(t, id) ==> r == Some(true)
    decreases fuel
  {
    if id !in t.recs then Some(false)
    else if t.recs[id].parent == 0 then Some(false)
    else if t.recs[id].parent !in t.recs then Some(true)
    else if fuel == 0 then None
    else OrphanN(t, t.recs[id].parent, fuel - 1)
  }

  function IsOrphan(t: Tree, id: int): Option<bool> {
    OrphanN(t, id, |t.order|)
  }

  /** An orphan: some walk up the parents ends in a gap. */
  ghost predicate Orphaned(t: Tree, id: int) {
    exists n: nat :: OrphanN(t, id, n) == Some(true)
  }

  lemma {:induction false} OrphanFuel(t: Tree, id: int, n: nat, m: nat)
    requires n <= m && OrphanN(t, id, n).Some?
    ensures OrphanN(t, id, m) == OrphanN(t, id, n)
    decreases n
  {
    if id in t.recs && t.recs[id].parent != 0 && t.recs[id].parent in t.recs {
      OrphanFuel(t, t.recs[id].parent, n - 1, m - 1);
    }
  }

  /** Any computed answer of `orphan?` agrees with `Orphaned`. */
  lemma {:induction false} OrphanAnswer(t: Tree, id: int, n: nat)
    requires OrphanN(t, id, n).Some?
    ensures OrphanN(t, id, n).value <==> Orphaned(t, id)
  {
    if Orphaned(t, id) {
      var m: nat :| OrphanN(t, id, m) == Some(true);
      if m <= n { OrphanFuel(t, id, m, n); } else { OrphanFuel(t, id, n, m); }
    }
  }

  // ---------------------------------------------------------------------
  // Parent walks: a budget of one call per cached record runs out only on a cycle

  /** The folder reached from `id` after `i` steps up the parents, a missing id stepping to 0. */
  function Up(t: Tree, id: int, i: nat): int
    decreases i
  {
    if i == 0 then id else Up(t, RecordOrPlaceholder(t, id).parent, i - 1)
  }

  /** Walking `a` steps, then `m` more, is walking `a + m` steps. */
  lemma {:induction false} UpAdd(t: Tree, id: int, a: nat, m: nat)
    ensures Up(t, Up(t, id, a), m) == Up(t, id, a + m)
    decreases a
  {
    if a > 0 {
      UpAdd(t, RecordOrPlaceholder(t, id).parent, a - 1, m);
    }
  }

  /** Once the walk revisits a folder it repeats with period `b - a`: step `i` is one of the first `b`. */
  lemma {:induction false} UpFold(t: Tree, id: int, a: nat, b: nat, i: nat) returns (k: nat)
    requires a < b && Up(t, id, a) == Up(t, id, b)
    ensures k < b && Up(t, id, k) == Up(t, id, i)
    decreases i
  {
    if i < b {
      k := i;
    } else {
      UpAdd(t, id, a, i - b);
      UpAdd(t, id, b, i - b);
      k := UpFold(t, id, a, b, a + (i - b));
    }
  }

  /** Distinct ids drawn from a distinct sequence are at most as many as it has. */
  lemma {:induction false} DistinctWithin(s: seq<int>, u: seq<int>)
    requires Distinct(s) && Distinct(u)
    requires forall x :: x in s ==> x in u
    ensures |s| <= |u|
    decreases |s|
  {
    if s != [] {
      var rest := Without(u, s[0]);
      WithoutLength(u, s[0]);
      assert forall x :: x in s[1..] ==> x in rest;
      DistinctWithin(s[1..], rest);
    }
  }

  /** Removing an id from a distinct sequence drops one entry if it is there, none otherwise. */
  lemma {:induction false} WithoutLength(s: seq<int>, k: int)
    requires Distinct(s)
    ensures |Without(s, k)| == if k in s then |s| - 1 else |s|
    decreases |s|
  {
    if s != [] {
      WithoutLength(s[1..], k);
    }
  }

  lemma {:induction false} DistinctPairwise(s: seq<int>)
    requires forall x, y :: 0 <= x < y < |s| ==> s[x] != s[y]
    ensures Distinct(s)
    decreases |s|
  {
    if s != [] {
      var rest := s[1..];
      assert forall x, y :: 0 <= x < y < |rest| ==> rest[x] == s[x + 1] && rest[y] == s[y + 1];
      DistinctPairwise(rest);
    }
  }

  /** Pigeonhole: a walk of one step more than there are cached records, all of them cached, repeats a folder. */
  lemma {:induction false} WalkRepeats(t: Tree, id: int) returns (a: nat, b: nat)
    requires Valid(t)
    requires forall k :: 0 <= k <= |t.order| ==> Up(t, id, k) in t.recs
    ensures a < b <= |t.order| && Up(t, id, a) == Up(t, id, b)
  {
    var n := |t.order|;
    var walk := seq(n + 1, k requires 0 <= k <= n => Up(t, id, k));
    assert forall k :: 0 <= k <= n ==> walk[k] in t.order;
    if forall x, y :: 0 <= x < y <= n ==> walk[x] != walk[y] {
      DistinctPairwise(walk);
      DistinctWithin(walk, t.order);
      assert false;
    }
    var x, y :| 0 <= x < y <= n && walk[x] == walk[y];
    a, b := x, y;
  }

  /** `folder_path` stops at a folder whose record (or the placeholder's) has parent 0. */
  predicate PathStops(t: Tree, x: int) {
    RecordOrPlaceholder(t, x).parent == 0
  }

  /** The walk from `id` comes back to a folder it passed, without reaching a root on the way. */
  ghost predicate PathCycles(t: Tree, id: int) {
    exists a: nat, b: nat :: a < b && Up(t, id, a) == Up(t, id, b) &&
      forall k: nat :: k <= b ==> !PathStops(t, Up(t, id, k))
  }

  /** A budget of `n` calls computes a path exactly when the walk reaches a root within `n` steps. */
  lemma {:induction false} FolderPathWalk(t: Tree, id: int, n: nat)
    ensures FolderPathN(t, id, n).Some? <==> exists i: nat :: i <= n && PathStops(t, Up(t, id, i))
    decreases n
  {
    var p := RecordOrPlaceholder(t, id).parent;
    assert Up(t, id, 0) == id;
    if p == 0 {
      assert PathStops(t, Up(t, id, 0));
    } else if n == 0 {
      assert forall i: nat :: i <= n ==> Up(t, id, i) == id;
    } else {
      FolderPathWalk(t, p, n - 1);
      assert FolderPathN(t, id, n).Some? == FolderPathN(t, p, n - 1).Some?;
      if FolderPathN(t, id, n).Some? {
        var i: nat :| i <= n - 1 && PathStops(t, Up(t, p, i));
        assert Up(t, id, i + 1) == Up(t, p, i);
        assert PathStops(t, Up(t, id, i + 1));
      } else {
        forall i: nat | i <= n ensures !PathStops(t, Up(t, id, i)) {
          if i == 0 {
            assert Up(t, id, i) == id;
          } else {
            var j: nat := i - 1;
            assert Up(t, id, i) == Up(t, p, j);
            assert !PathStops(t, Up(t, p, j));
          }
        }
      }
    }
  }

  /**
   * `folder_path` answers None exactly when the parent walk cycles, which is
   * where the source recurses forever.
   */
  lemma {:induction false} FolderPathCycle(t: Tree, id: int)
    requires Valid(t)
    ensures FolderPath(t, id).None? <==> PathCycles(t, id)
  {
    var n := |t.order|;
    FolderPathWalk(t, id, n);
    if FolderPath(t, id).None? {
      assert forall k :: 0 <= k <= n ==> !PathStops(t, Up(t, id, k));
      var a, b := WalkRepeats(t, id);
      assert forall k: nat :: k <= b ==> !PathStops(t, Up(t, id, k));
    }
    if PathCycles(t, id) {
      var a: nat, b: nat :| a < b && Up(t, id, a) == Up(t, id, b) &&
        forall k: nat :: k <= b ==> !PathStops(t, Up(t, id, k));
      forall i | 0 <= i <= n ensures !PathStops(t, Up(t, id, i)) {
        var k := UpFold(t, id, a, b, i);
      }
    }
  }

  /** Whenever some budget computes a path, one call per cached record does too. */
  lemma {:induction false} FolderPathEnough(t: Tree, id: int, n: nat)
    requires Valid(t) && FolderPathN(t, id, n).Some?
    ensures FolderPath(t, id).Some?
  {
    FolderPathWalk(t, id, n);
    var i: nat :| i <= n && PathStops(t, Up(t, id, i));
    FolderPathCycle(t, id);
    if PathCycles(t, id) {
      var a: nat, b: nat :| a < b && Up(t, id, a) == Up(t, id, b) &&
        forall k: nat :: k <= b ==> !PathStops(t, Up(t, id, k));
      var k := UpFold(t, id, a, b, i);
    }
  }

  /** `orphan?` stops at a missing id, a root, or a gap. */
  predicate OrphanStops(t: Tree, x: int) {
    x !in t.recs || t.recs[x].parent == 0 || t.recs[x].parent !in t.recs
  }

  /** The walk from `id` comes back to a folder it passed, without reaching a root or a gap. */
  ghost predicate OrphanCycles(t: Tree, id: int) {
    exists a: nat, b: nat :: a < b && Up(t, id, a) == Up(t, id, b) &&
      forall k: nat :: k <= b ==> !OrphanStops(t, Up(t, id, k))
  }

  /** A budget of `n` calls answers `orphan?` exactly when the walk stops within `n` steps. */
  lemma {:induction false} OrphanWalk(t: Tree, id: int, n: nat)
    ensures OrphanN(t, id, n).Some? <==> exists i: nat :: i <= n && OrphanStops(t, Up(t, id, i))
    decreases n
  {
    assert Up(t, id, 0) == id;
    if OrphanStops(t, id) {
      assert OrphanStops(t, Up(t, id, 0));
    } else if n == 0 {
      assert forall i: nat :: i <= n ==> Up(t, id, i) == id;
    } else {
      var p := t.recs[id].parent;
      assert p == RecordOrPlaceholder(t, id).parent;
      OrphanWalk(t, p, n - 1);
      assert OrphanN(t, id, n) == OrphanN(t, p, n - 1);
      if OrphanN(t, id, n).Some? {
        var i: nat :| i <= n - 1 && OrphanStops(t, Up(t, p, i));
        assert Up(t, id, i + 1) == Up(t, p, i);
        assert OrphanStops(t, Up(t, id, i + 1));
      } else {
        forall i: nat | i <= n ensures !OrphanStops(t, Up(t, id, i)) {
          if i == 0 {
            assert Up(t, id, i) == id;
          } else {
            var j: nat := i - 1;
            assert Up(t, id, i) == Up(t, p, j);
            assert !OrphanStops(t, Up(t, p, j));
          }
        }
      }
    }
  }

  /** `orphan?` answers None exactly when the parent walk cycles. */
  lemma {:induction false} OrphanCycle(t: Tree, id: int)
    requires Valid(t)
    ensures IsOrphan(t, id).None? <==> OrphanCycles(t, id)
  {
    var n := |t.order|;
    OrphanWalk(t, id, n);
    if IsOrphan(t, id).None? {
      assert forall k :: 0 <= k <= n ==> !OrphanStops(t, Up(t, id, k));
      var a, b := WalkRepeats(t, id);
      assert forall k: nat :: k <= b ==> !OrphanStops(t, Up(t, id, k));
    }
    if OrphanCycles(t, id) {
      var a: nat, b: nat :| a < b && Up(t, id, a) == Up(t, id, b) &&
        forall k: nat :: k <= b ==> !OrphanStops(t, Up(t, id, k));
      forall i | 0 <= i <= n ensures !OrphanStops(t, Up(t, id, i)) {
        var k := UpFold(t, id, a, b, i);
      }
    }
  }

  /** Whenever some budget answers `orphan?`, one call per cached record does too. */
  lemma {:induction false} OrphanEnough(t: Tree, id: int, n: nat)
    requires Valid(t) && OrphanN(t, id, n).Some?
    ensures IsOrphan(t, id).Some?
  {
    OrphanWalk(t, id, n);
    var i: nat :| i <= n && OrphanStops(t, Up(t, id, i));
    OrphanCycle(t, id);
    if OrphanCycles(t, id) {
      var a: nat, b: nat :| a < b && Up(t, id, a) == Up(t, id, b) &&
        forall k: nat :: k <= b ==> !OrphanStops(t, Up(t, id, k));
      var k := UpFold(t, id, a, b, i);
    }
  }

  /** The source's quirk: `gap?` holds for every root, because 0 is never a key. */
  lemma RootsAreGaps(t: Tree, id: int)
    requires 0 !in t.recs && IsRoot(t, id)
    ensures IsGap(t, id)
  {
  }

  /** Off the roots, a gap is an orphan; the converse fails two levels below a break. */
  lemma GapIsOrphan(t: Tree, id: int)
    requires id in t.recs && !IsRoot(t, id) && IsGap(t, id)
    ensures Orphaned(t, id)
  {
    assert OrphanN(t, id, 0) == Some(true);
  }

  /** Every non-zero parent is a cached key: what a validated build guarantees. */
  ghost predicate Closed(t: Tree) {
    forall k :: k in t.recs ==> t.recs[k].parent == 0 || t.recs[k].parent in t.recs
  }

  /** A closed tree has no orphans. */
  lemma {:induction false} ClosedHasNoOrphans(t: Tree, id: int, n: nat)
    requires Closed(t)
    ensures OrphanN(t, id, n) != Some(true)
    decreases n
  {
    if id in t.recs && t.recs[id].parent != 0 && n > 0 {
      ClosedHasNoOrphans(t, t.recs[id].parent, n - 1);
    }
  }

  /** An orphan's parent is a gap or an orphan itself. */
  lemma OrphanStep(t: Tree, id: int, n: nat)
    requires id in t.recs && !IsRoot(t, id) && !IsGap(t, id)
    ensures OrphanN(t, id, n + 1) == OrphanN(t, t.recs[id].parent, n)
  {
  }

  // ---------------------------------------------------------------------
  // detect_gaps

  /** The keys of `ks`, in order, that are gaps. */
  function GapsAmong(t: Tree, ks: seq<int>): (r: seq<int>)
    requires forall k :: k in ks ==> k in t.recs
    ensures forall k :: k in r <==> k in ks && IsGap(t, k)
    ensures Distinct(ks) ==> Distinct(r)
    decreases |ks|
  {
    if ks == [] then []
    else
      var rest := GapsAmong(t, ks[1..]);
      assert ([ks[0]] + rest)[1..] == rest;
      if IsGap(t, ks[0]) then [ks[0]] + rest else rest
  }

  /** `detect_gaps`: every key whose parent is not cached, roots included. */
  function DetectGaps(t: Tree): (r: seq<int>)
    requires Valid(t)
    ensures Distinct(r)
    ensures forall k :: k in r <==> k in t.recs && IsGap(t, k)
  {
    GapsAmong(t, t.order)
  }

  // ---------------------------------------------------------------------
  // Validation

  predicate Broken(t: Tree, k: int) {
    k in t.recs && t.recs[k].parent != 0 && t.recs[k].parent !in t.recs
  }

  /** The position of the first key that validation reports, if any. */
  function FirstBroken(t: Tree, ks: seq<int>): (r: Option<nat>)
    ensures r.Some? ==> r.value < |ks| && Broken(t, ks[r.value])
    ensures r.Some? ==> forall j :: 0 <= j < r.value ==> !Broken(t, ks[j])
    ensures r.None? <==> forall j :: 0 <= j < |ks| ==> !Broken(t, ks[j])
    decreases |ks|
  {
    if ks == [] then None
    else if Broken(t, ks[0]) then Some(0)
    else
      match FirstBroken(t, ks[1..])
      case None => None
      case Some(i) => Some(i + 1)
  }

  /** Validation passes exactly on closed trees. */
  lemma {:induction false} ValidationPassesIffClosed(t: Tree)
    requires Valid(t)
    ensures FirstBroken(t, t.order).None? <==> Closed(t)
  {
    if FirstBroken(t, t.order).None? {
      forall k | k in t.recs ensures t.recs[k].parent == 0 || t.recs[k].parent in t.recs {
        var j :| 0 <= j < |t.order| && t.order[j] == k;
        assert !Broken(t, t.order[j]);
      }
    } else {
      var i := FirstBroken(t, t.order).value;
      assert Broken(t, t.order[i]);
    }
  }

  // ---------------------------------------------------------------------
  // slice_tree

  /** A record `slice_tree` keeps: its trimmed path starts with "from/". */
  predicate Below(t: Tree, k: int, f: string) {
    k in t.recs && (f + "/") <= PathTrim(t.recs[k].path)
  }

  function BelowAmong(t: Tree, ks: seq<int>, f: string): (r: seq<int>)
    ensures forall k :: k in r <==> k in ks && Below(t, k, f)
    ensures Distinct(ks) ==> Distinct(r)
    decreases |ks|
  {
    if ks == [] then []
    else
      var rest := BelowAmong(t, ks[1..], f);
      assert ([ks[0]] + rest)[1..] == rest;
      if Below(t, ks[0], f) then [ks[0]] + rest else rest
  }

  /** The filter keeps the order: the keys below `f` of a concatenation are those of each part, in turn. */
  lemma {:induction false} BelowAmongConcat(t: Tree, ks: seq<int>, ls: seq<int>, f: string)
    ensures BelowAmong(t, ks + ls, f) == BelowAmong(t, ks, f) + BelowAmong(t, ls, f)
    decreases |ks|
  {
    if ks == [] {
      assert ks + ls == ls;
    } else {
      assert (ks + ls)[0] == ks[0] && (ks + ls)[1..] == ks[1..] + ls;
      BelowAmongConcat(t, ks[1..], ls, f);
    }
  }

  /**
   * The path `slice_tree` gives a kept record: every occurrence of "from/"
   * removed (the source's gsub), then trimmed and canonized.
   */
  function RelativePath(path: string, f: string): string {
    PathCanonize(PathTrim(DeleteAll(path, f + "/")))
  }

  /**
   * `slice_tree`: with an empty `from` the tree itself; otherwise the
   * records strictly below `from`, paths made relative, parents untouched.
   */
  function SliceTree(t: Tree, from: string): (r: Tree)
    requires Valid(t)
    ensures Valid(r)
    ensures PathTrim(from) == [] ==> r == t
    ensures PathTrim(from) != [] ==> forall k :: k in r.recs <==> Below(t, k, PathTrim(from))
    ensures PathTrim(from) != [] ==> forall k :: k in r.recs ==>
      (k in t.recs && r.recs[k] == t.recs[k].(path := RelativePath(t.recs[k].path, PathTrim(from))))
  {
    var f := PathTrim(from);
    if f == [] then t
    else
      Tree(BelowAmong(t, t.order, f),
           map k | k in t.recs && Below(t, k, f) :: t.recs[k].(path := RelativePath(t.recs[k].path, f)))
  }

  /** The folder `from` itself is never part of its slice. */
  lemma SliceExcludesFrom(t: Tree, from: string, k: int)
    requires Valid(t) && PathTrim(from) != [] && k in t.recs
    requires PathTrim(t.recs[k].path) == PathTrim(from)
    ensures k !in SliceTree(t, from).recs
  {
  }

  /** Below `from`, a canonical path loses exactly its "/from" prefix when "from/" occurs nowhere else. */
  lemma {:induction false} RelativePathOfChild(f: string, rest: string)
    requires f != [] && Trimmed(f) && rest != [] && Trimmed(rest)
    requires !Occurs(rest, f + "/")
    ensures RelativePath("/" + f + "/" + rest, f) == "/" + rest
  {
    var pat := f + "/";
    var s := "/" + f + "/" + rest;
    assert s == "/" + (pat + rest);
    assert s[..|pat|] != pat by { assert s[0] == '/' && pat[0] == f[0]; }
    assert s[1..] == pat + rest;
    assert DeleteAll(s, pat) == "/" + DeleteAll(pat + rest, pat);
    assert (pat + rest)[..|pat|] == pat && (pat + rest)[|pat|..] == rest;
    DeleteAllAbsent(rest, pat);
    assert DeleteAll(s, pat) == "/" + rest;
    assert "/" + rest == "/" + rest + [];
    PathTrimUnique("/", rest, []);
    assert rest == [] + rest + [];
    PathTrimUnique([], rest, []);
  }

  // ---------------------------------------------------------------------
  // Paths and ids round trip

  /** Every cached path is what `folder_path` computes from the parent chain. */
  ghost predicate PathsAgree(t: Tree) {
    forall k :: k in t.recs ==> FolderPath(t, k) == Some(t.recs[k].path)
  }

  ghost predicate CanonicalPaths(t: Tree) {
    forall k :: k in t.recs ==> Canonical(t.recs[k].path)
  }

  lemma {:induction false} CanonicalTrim(p: string)
    requires Canonical(p)
    ensures PathTrim(p) == p[1..] && p == "/" + PathTrim(p)
  {
    CanonizeCanonical(p);
  }

  /** `folder_path(folder_id(p))` is the canonical form of `p`. */
  lemma {:induction false} IdThenPath(t: Tree, p: string)
    requires Valid(t) && PathsAgree(t) && CanonicalPaths(t)
    requires PathTrim(p) != [] && FolderId(t, p).Some?
    ensures FolderPath(t, FolderId(t, p).value) == Some(PathCanonize(p))
  {
    var k := FolderId(t, p).value;
    CanonicalTrim(t.recs[k].path);
  }

  /** `folder_id(folder_path(k))` finds a record with the same path: `k` itself when paths are unique. */
  lemma {:induction false} PathThenId(t: Tree, k: int)
    requires Valid(t) && PathsAgree(t) && CanonicalPaths(t)
    requires k in t.recs && |t.recs[k].path| > 1
    ensures FolderId(t, FolderPath(t, k).value).Some?
    ensures FolderPath(t, FolderId(t, FolderPath(t, k).value).value) == FolderPath(t, k)
  {
    var p := t.recs[k].path;
    CanonicalTrim(p);
    assert PathIs(t, k, PathTrim(p));
    var i :| 0 <= i < |t.order| && t.order[i] == k;
    FindIndexFirst(t, t.order, PathTrim(p));
    assert FindIndex(t, t.order, PathTrim(p)).Some?;
    var k' := FolderId(t, p).value;
    CanonicalTrim(t.recs[k'].path);
  }

  /** The quirk at the root: `folder_path(folder_id('/'))` is the placeholder path. */
  lemma RootPathIsPlaceholder(t: Tree)
    requires 0 !in t.recs
    ensures FolderId(t, "/") == Some(0)
    ensures FolderPath(t, 0) == Some("/" + Undefined)
  {
    assert "/" == "/" + [] + [];
    PathTrimUnique("/", [], []);
  }
}
