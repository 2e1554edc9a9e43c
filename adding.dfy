/**
 * `add_folder`: walk the prefixes of the path, reuse every prefix that
 * already resolves, and create each missing segment under the last
 * resolved parent, caching `{parent, name, canonical path}` for it.
 *
 * `AddFrom` is the loop as a function of its variables; the lemmas say
 * what it achieves when the server hands out fresh ids.
 */
module Adding {
  import opened Outcomes
  import opened Paths
  import opened Hierarchy
  import opened Backend

  /** The loop variables: the cache, `parent`, `folder_id`, the server answers consumed and the commands issued. */
  datatype Step = Step(t: Tree, parent: int, found: Option<int>, used: nat, cmds: seq<Command>)

  /** The record cached for a created folder: the parent's path (when cached), "/", the name, canonized. */
  function NewRecord(t: Tree, parent: int, name: string): (r: Record)
    ensures r.parent == parent && r.name == name && Canonical(r.path)
  {
    var prefix := if parent in t.recs then t.recs[parent].path + "/" else "";
    Record(parent, name, PathCanonize(prefix + name))
  }

  /** The state after creating `name` under `s.parent` and receiving `id` from the server. */
  function Created(s: Step, id: int, name: string): (r: Step)
    requires Valid(s.t)
    ensures Valid(r.t) && r.used == s.used + 1 && r.cmds == s.cmds + [AddRealFolder(s.parent, name)]
  {
    Step(Put(s.t, id, NewRecord(s.t, s.parent, name)), id, Some(id), s.used + 1, s.cmds + [AddRealFolder(s.parent, name)])
  }

  /** The segments the loop walks. */
  function Segments(path: string): seq<string> {
    Split(PathTrim(path), '/')
  }

  /**
   * The loop after `k` segments have been walked (the source's 1-based `i`
   * is `k + 1`), given the ids the server answers to successive creates.
   * The second component is the error raised when a create was issued
   * under a negative parent.
   */
  function AddFrom(segs: seq<string>, k: nat, s: Step, answers: seq<int>): (r: (Step, Option<Error>))
    requires k <= |segs|
    requires Valid(s.t)
    requires s.used + (|segs| - k) <= |answers|
    ensures Valid(r.0.t)
    ensures s.cmds <= r.0.cmds && |r.0.cmds| - |s.cmds| == r.0.used - s.used
    ensures s.used <= r.0.used <= s.used + (|segs| - k)
    decreases |segs| - k
  {
    if k == |segs| then (s, None)
    else
      var base := Join(segs[..k + 1], '/');
      match FolderId(s.t, base)
      case Some(id) => AddFrom(segs, k + 1, s.(parent := id, found := Some(id)), answers)
      case None =>
        var name := segs[k];
        var id := answers[s.used];
        var cmds := s.cmds + [AddRealFolder(s.parent, name)];
        if s.parent < 0 then (s.(found := Some(id), used := s.used + 1, cmds := cmds), Some(CreateFailed(s.parent)))
        else AddFrom(segs, k + 1, Created(s, id, name), answers)
  }

  /** `add_folder(path)` on a loaded cache `t`. */
  function AddPath(t: Tree, path: string, answers: seq<int>): (r: (Step, Option<Error>))
    requires Valid(t) && |Segments(path)| <= |answers|
  {
    AddFrom(Segments(path), 0, Step(t, 0, None, 0, []), answers)
  }

  // ---------------------------------------------------------------------
  // Hypotheses: a well-formed cache and a server that hands out fresh ids.

  /** Canonical cached paths, and 0 is never a key. */
  ghost predicate WellFormed(t: Tree) {
    Valid(t) && CanonicalPaths(t) && forall k :: k in t.recs ==> k > 0
  }

  /** The server's answers are distinct, non-zero ids not already cached. */
  ghost predicate FreshIds(t: Tree, answers: seq<int>) {
    Distinct(answers) && forall j :: 0 <= j < |answers| ==> answers[j] > 0 && answers[j] !in t.recs
  }

  predicate NonEmptySegments(segs: seq<string>) {
    forall k :: 0 <= k < |segs| ==> segs[k] != []
  }

  /** `u` is `t` with records appended after the existing ones, which are untouched. */
  ghost predicate Extends(t: Tree, u: Tree) {
    t.order <= u.order && forall k :: k in t.recs ==> k in u.recs && u.recs[k] == t.recs[k]
  }

  // ---------------------------------------------------------------------
  // folder_id and folder_path under appended records

  /** The first match in `ks` is also the first in any longer `ls` that agrees on `ks`. */
  lemma {:induction false} FindIndexPrefix(t: Tree, u: Tree, ks: seq<int>, ls: seq<int>, q: string)
    requires ks <= ls
    requires forall k :: k in ks ==> PathIs(t, k, q) == PathIs(u, k, q)
    requires FindIndex(t, ks, q).Some?
    ensures FindIndex(u, ls, q) == FindIndex(t, ks, q)
    decreases |ks|
  {
    if !PathIs(t, ks[0], q) {
      assert ks[1..] <= ls[1..];
      FindIndexPrefix(t, u, ks[1..], ls[1..], q);
    }
  }

  /** With no match in `ks`, a match right after them is the first one in `ls`. */
  lemma {:induction false} FindIndexNext(t: Tree, u: Tree, ks: seq<int>, ls: seq<int>, q: string)
    requires ks < ls
    requires forall k :: k in ks ==> PathIs(t, k, q) == PathIs(u, k, q)
    requires FindIndex(t, ks, q).None? && PathIs(u, ls[|ks|], q)
    ensures FindIndex(u, ls, q) == Some(|ks|)
    decreases |ks|
  {
    if ks != [] {
      assert ks[1..] < ls[1..];
      FindIndexNext(t, u, ks[1..], ls[1..], q);
    }
  }

  /** A path that resolves keeps resolving to the same id when records are appended. */
  lemma FolderIdExtend(t: Tree, u: Tree, p: string)
    requires Valid(t) && Valid(u) && Extends(t, u)
    requires FolderId(t, p).Some?
    ensures FolderId(u, p) == FolderId(t, p)
  {
    var q := PathTrim(p);
    if q != [] {
      FindIndexPrefix(t, u, t.order, u.order, q);
    }
  }

  /** Appending a record for a path that did not resolve makes it resolve to that record. */
  lemma FolderIdAppend(t: Tree, y: int, r: Record, p: string)
    requires Valid(t) && y !in t.recs
    requires PathTrim(p) != [] && FolderId(t, p).None?
    requires PathTrim(r.path) == PathTrim(p)
    ensures FolderId(Put(t, y, r), p) == Some(y)
  {
    var u := Put(t, y, r);
    var q := PathTrim(p);
    assert FindIndex(t, t.order, q).None?;
    FindIndexNext(t, u, t.order, u.order, q);
  }

  /** A fresh record changes no existing folder's path in a parent-closed tree. */
  lemma {:induction false} FolderPathFresh(t: Tree, y: int, r: Record, x: int, n: nat)
    requires Valid(t) && Closed(t) && y !in t.recs && x in t.recs
    ensures FolderPathN(Put(t, y, r), x, n) == FolderPathN(t, x, n)
    decreases n
  {
    var p := t.recs[x].parent;
    if p != 0 && n > 0 {
      FolderPathFresh(t, y, r, p, n - 1);
    }
  }

  /** Trimming leaves a trimmed string alone. */
  lemma TrimmedFixed(s: string)
    requires Trimmed(s)
    ensures PathTrim(s) == s
  {
    assert [] + s + [] == s;
    PathTrimUnique([], s, []);
  }

  /** The prefix of `n + 1` segments is a trimmed, non-empty path: the previous prefix, "/", the next segment. */
  lemma {:induction false} PrefixTrimmed(segs: seq<string>, n: nat)
    requires PlainSegments(segs)
    requires n < |segs|
    ensures Join(segs[..n + 1], '/') != [] && Trimmed(Join(segs[..n + 1], '/'))
    ensures n > 0 ==> Join(segs[..n + 1], '/') == Join(segs[..n], '/') + "/" + segs[n]
    ensures n == 0 ==> Join(segs[..n + 1], '/') == segs[0]
    decreases n
  {
    var s := segs[n];
    assert s[0] != '/' && s[|s| - 1] != '/';
    if n > 0 {
      PrefixTrimmed(segs, n - 1);
      assert segs[..n + 1] == segs[..n] + [s];
      JoinAppend(segs[..n], [s], '/');
      var j := Join(segs[..n], '/');
      assert Join(segs[..n + 1], '/') == j + "/" + s;
      assert (j + "/" + s)[0] == j[0];
    }
  }

  /** The path cached for the segment after the first `k` is the canonical form of the longer prefix. */
  lemma {:induction false} NewRecordPath(t: Tree, parent: int, segs: seq<string>, k: nat)
    requires WellFormed(t)
    requires PlainSegments(segs)
    requires k < |segs|
    requires k == 0 ==> parent == 0
    requires k > 0 ==> parent in t.recs && PathTrim(t.recs[parent].path) == Join(segs[..k], '/')
    ensures NewRecord(t, parent, segs[k]).path == "/" + Join(segs[..k + 1], '/')
  {
    PrefixTrimmed(segs, k);
    var j := Join(segs[..k + 1], '/');
    if k > 0 {
      var pp := t.recs[parent].path;
      CanonicalTrim(pp);
      assert pp + "/" + segs[k] == "/" + j + [] by {
        assert j == Join(segs[..k], '/') + "/" + segs[k];
      }
      PathTrimUnique("/", j, []);
      assert NewRecord(t, parent, segs[k]).path == "/" + PathTrim(pp + "/" + segs[k]);
    } else {
      TrimmedFixed(j);
      assert 0 !in t.recs;
      assert NewRecord(t, parent, segs[k]).path == "/" + PathTrim(segs[0]);
    }
  }

  // ---------------------------------------------------------------------
  // What the loop achieves

  /** The cache has only grown by the records created with the answers used so far. */
  ghost predicate Grown(t0: Tree, answers: seq<int>, s: Step) {
    Valid(t0) && WellFormed(s.t) && Extends(t0, s.t) &&
    s.used <= |answers| && s.t.order == t0.order + answers[..s.used] && |s.cmds| == s.used
  }

  /** The prefix of `j` segments resolves. */
  predicate PrefixResolves(t: Tree, segs: seq<string>, j: nat) {
    1 <= j <= |segs| && FolderId(t, Join(segs[..j], '/')).Some?
  }

  /** Each of the first `n` prefixes resolves. */
  ghost predicate AllResolve(t: Tree, segs: seq<string>, n: nat)
    decreases n
  {
    n == 0 || (PrefixResolves(t, segs, n) && AllResolve(t, segs, n - 1))
  }

  lemma {:induction false} AllResolveAt(t: Tree, segs: seq<string>, n: nat, j: nat)
    requires AllResolve(t, segs, n) && 1 <= j <= n
    ensures PrefixResolves(t, segs, j)
    decreases n
  {
    if j < n {
      AllResolveAt(t, segs, n - 1, j);
    }
  }

  /** Every prefix walked so far resolves, the last one to `parent`, which is what `folder_id` holds. */
  ghost predicate Resolved(segs: seq<string>, k: nat, s: Step) {
    (k == 0 ==> s.parent == 0 && s.found.None?) &&
    (k > 0 ==> k <= |segs| && s.found == Some(s.parent) && FolderId(s.t, Join(segs[..k], '/')) == Some(s.parent)) &&
    AllResolve(s.t, segs, k)
  }

  /** The loop invariant after `k` segments, relative to the cache `t0` it started from. */
  ghost predicate LoopInv(t0: Tree, segs: seq<string>, answers: seq<int>, k: nat, s: Step) {
    k <= |segs| && s.used <= k &&
    Grown(t0, answers, s) && Resolved(segs, k, s) &&
    (Closed(t0) && PathsAgree(t0) ==> Closed(s.t) && PathsAgree(s.t))
  }

  /** A canonical path, "/" and a trimmed name form a canonical path. */
  lemma CanonizeChild(pp: string, name: string)
    requires Canonical(pp) && |pp| > 1 && name != [] && Trimmed(name)
    ensures PathCanonize(pp + "/" + name) == pp + "/" + name
  {
    CanonicalTrim(pp);
    var q := PathTrim(pp);
    assert Trimmed(q + "/" + name) by {
      assert (q + "/" + name)[0] == q[0];
    }
    assert pp + "/" + name == "/" + (q + "/" + name) + [];
    PathTrimUnique("/", q + "/" + name, []);
  }

  /** The created folder's cached path is the one its parent chain gives. */
  lemma {:induction false} CreatedPathAgrees(t: Tree, y: int, parent: int, name: string)
    requires WellFormed(t) && Closed(t) && PathsAgree(t) && y !in t.recs
    requires name != [] && Trimmed(name)
    requires parent == 0 || (parent in t.recs && |t.recs[parent].path| > 1)
    ensures FolderPath(Put(t, y, NewRecord(t, parent, name)), y) == Some(NewRecord(t, parent, name).path)
  {
    var r := NewRecord(t, parent, name);
    var u := Put(t, y, r);
    var n := |t.order|;
    assert |u.order| == n + 1 && u.recs[y] == r;
    if parent == 0 {
      TrimmedFixed(name);
      assert 0 !in t.recs;
      assert r.path == "/" + name;
    } else {
      var pp := t.recs[parent].path;
      assert FolderPathN(t, parent, n) == Some(pp);
      FolderPathFresh(t, y, r, parent, n);
      assert FolderPathN(u, y, n + 1) == Some(pp + "/" + name);
      CanonizeChild(pp, name);
    }
  }

  /** An existing folder's parent-chain path is unchanged by a fresh record. */
  lemma OldPathAgrees(t: Tree, y: int, r: Record, k: int)
    requires WellFormed(t) && Closed(t) && PathsAgree(t) && y !in t.recs && k in t.recs
    ensures FolderPath(Put(t, y, r), k) == Some(t.recs[k].path)
  {
    var n := |t.order|;
    var u := Put(t, y, r);
    assert |u.order| == n + 1;
    assert FolderPathN(t, k, n) == Some(t.recs[k].path);
    FolderPathFuel(t, k, n, n + 1);
    FolderPathFresh(t, y, r, k, n + 1);
    assert FolderPath(u, k) == FolderPathN(u, k, n + 1);
  }

  /** One create keeps paths agreeing with parent chains and the tree parent-closed. */
  lemma CreateKeepsAgree(t: Tree, y: int, parent: int, name: string)
    requires WellFormed(t) && Closed(t) && PathsAgree(t) && y !in t.recs
    requires name != [] && Trimmed(name)
    requires parent == 0 || (parent in t.recs && |t.recs[parent].path| > 1)
    ensures Closed(Put(t, y, NewRecord(t, parent, name)))
    ensures PathsAgree(Put(t, y, NewRecord(t, parent, name)))
  {
    var r := NewRecord(t, parent, name);
    var u := Put(t, y, r);
    forall k | k in u.recs ensures FolderPath(u, k) == Some(u.recs[k].path) {
      if k == y {
        CreatedPathAgrees(t, y, parent, name);
      } else {
        OldPathAgrees(t, y, r, k);
      }
    }
  }

  /** The segments are non-empty and free of '/', as the split of a trimmed path without "//" is. */
  predicate PlainSegments(segs: seq<string>) {
    NonEmptySegments(segs) && forall k :: 0 <= k < |segs| ==> Free(segs[k], '/')
  }

  /** A create consumes the next answer, which is fresh, and grows the cache by that record only. */
  lemma {:induction false} CreateGrows(t0: Tree, answers: seq<int>, s: Step, name: string)
    requires Grown(t0, answers, s) && FreshIds(t0, answers) && s.used < |answers|
    ensures answers[s.used] !in s.t.recs
    ensures Grown(t0, answers, Created(s, answers[s.used], name))
  {
    var id := answers[s.used];
    assert id !in s.t.recs by {
      assert id !in t0.order;
      forall j | 0 <= j < s.used ensures answers[j] != id {
        DistinctAt(answers, j, s.used);
      }
      assert id !in answers[..s.used];
    }
    var u := Created(s, id, name).t;
    assert answers[..s.used + 1] == answers[..s.used] + [id];
    assert forall k :: k in t0.recs ==> k != id;
  }

  /** Past the first segment, `parent` is a cached folder whose path is the prefix walked. */
  lemma ParentRecord(segs: seq<string>, k: nat, s: Step)
    requires PlainSegments(segs) && 0 < k <= |segs|
    requires WellFormed(s.t) && Resolved(segs, k, s)
    ensures s.parent in s.t.recs && PathTrim(s.t.recs[s.parent].path) == Join(segs[..k], '/')
    ensures |s.t.recs[s.parent].path| > 1
  {
    PrefixFacts(segs, k);
    CanonicalTrim(s.t.recs[s.parent].path);
  }

  /** The prefix of `n` segments is non-empty and trimmed, and so is its canonical form once trimmed. */
  lemma PrefixFacts(segs: seq<string>, n: nat)
    requires PlainSegments(segs) && 1 <= n <= |segs|
    ensures Join(segs[..n], '/') != []
    ensures PathTrim(Join(segs[..n], '/')) == Join(segs[..n], '/')
    ensures PathTrim("/" + Join(segs[..n], '/')) == Join(segs[..n], '/')
  {
    var base := Join(segs[..n], '/');
    PrefixTrimmed(segs, n - 1);
    TrimmedFixed(base);
    assert "/" + base == "/" + base + [];
    PathTrimUnique("/", base, []);
  }

  /** The created record is the one `folder_id` finds for the longer prefix. */
  lemma CreatedResolvesBase(segs: seq<string>, k: nat, s: Step, id: int)
    requires PlainSegments(segs) && k < |segs|
    requires WellFormed(s.t) && Resolved(segs, k, s) && id !in s.t.recs
    requires FolderId(s.t, Join(segs[..k + 1], '/')).None?
    ensures FolderId(Created(s, id, segs[k]).t, Join(segs[..k + 1], '/')) == Some(id)
  {
    if k > 0 {
      ParentRecord(segs, k, s);
    }
    NewRecordPath(s.t, s.parent, segs, k);
    PrefixFacts(segs, k + 1);
    FolderIdAppend(s.t, id, NewRecord(s.t, s.parent, segs[k]), Join(segs[..k + 1], '/'));
  }

  /** Prefixes that resolve keep resolving when records are appended. */
  lemma {:induction false} ExtendKeepsResolved(segs: seq<string>, n: nat, t: Tree, u: Tree)
    requires Valid(t) && Valid(u) && Extends(t, u)
    requires AllResolve(t, segs, n)
    ensures AllResolve(u, segs, n)
    decreases n
  {
    if n > 0 {
      FolderIdExtend(t, u, Join(segs[..n], '/'));
      ExtendKeepsResolved(segs, n - 1, t, u);
    }
  }

  /** Resolving one more prefix to `id`, now `parent`, extends what has been resolved. */
  lemma ResolvedNext(segs: seq<string>, k: nat, s: Step, id: int)
    requires k < |segs| && s.parent == id && s.found == Some(id)
    requires FolderId(s.t, Join(segs[..k + 1], '/')) == Some(id)
    requires AllResolve(s.t, segs, k)
    ensures Resolved(segs, k + 1, s)
  {
    assert PrefixResolves(s.t, segs, k + 1);
  }

  /** A create for a prefix that did not resolve makes it resolve to the new id, and earlier prefixes keep theirs. */
  lemma {:induction false} CreateResolves(segs: seq<string>, k: nat, s: Step, id: int)
    requires PlainSegments(segs) && k < |segs|
    requires WellFormed(s.t) && Resolved(segs, k, s) && id !in s.t.recs
    requires FolderId(s.t, Join(segs[..k + 1], '/')).None?
    ensures s.parent == 0 || (s.parent in s.t.recs && |s.t.recs[s.parent].path| > 1)
    ensures Resolved(segs, k + 1, Created(s, id, segs[k]))
  {
    if k > 0 {
      ParentRecord(segs, k, s);
    }
    var s' := Created(s, id, segs[k]);
    CreatedResolvesBase(segs, k, s, id);
    ExtendKeepsResolved(segs, k, s.t, s'.t);
    ResolvedNext(segs, k, s', id);
  }

  /** Changing only `parent` and `folder_id` keeps the cache's growth. */
  lemma GrownSameCache(t0: Tree, answers: seq<int>, s: Step, s': Step)
    requires Grown(t0, answers, s) && s'.t == s.t && s'.used == s.used && s'.cmds == s.cmds
    ensures Grown(t0, answers, s')
  {
  }

  /** A prefix that resolves becomes `parent`. */
  lemma FoundResolves(segs: seq<string>, k: nat, s: Step, id: int)
    requires Resolved(segs, k, s) && k < |segs|
    requires FolderId(s.t, Join(segs[..k + 1], '/')) == Some(id)
    ensures Resolved(segs, k + 1, s.(parent := id, found := Some(id)))
  {
    ResolvedNext(segs, k, s.(parent := id, found := Some(id)), id);
  }

  /** A prefix that resolves becomes the parent and keeps the invariant. */
  lemma {:induction false} FoundStep(t0: Tree, segs: seq<string>, answers: seq<int>, k: nat, s: Step, id: int)
    requires LoopInv(t0, segs, answers, k, s) && k < |segs|
    requires FolderId(s.t, Join(segs[..k + 1], '/')) == Some(id)
    ensures LoopInv(t0, segs, answers, k + 1, s.(parent := id, found := Some(id)))
  {
    var s' := s.(parent := id, found := Some(id));
    GrownSameCache(t0, answers, s, s');
    FoundResolves(segs, k, s, id);
    assert s'.t == s.t;
  }

  /** A create step keeps the invariant. */
  lemma {:induction false} CreateStep(t0: Tree, segs: seq<string>, answers: seq<int>, k: nat, s: Step)
    requires PlainSegments(segs) && FreshIds(t0, answers) && |segs| <= |answers|
    requires LoopInv(t0, segs, answers, k, s) && k < |segs|
    requires FolderId(s.t, Join(segs[..k + 1], '/')).None?
    ensures s.used < |answers| && s.parent >= 0 && answers[s.used] !in s.t.recs
    ensures LoopInv(t0, segs, answers, k + 1, Created(s, answers[s.used], segs[k]))
  {
    var id := answers[s.used];
    var name := segs[k];
    CreateGrows(t0, answers, s, name);
    CreateResolves(segs, k, s, id);
    if Closed(t0) && PathsAgree(t0) {
      assert name[0] != '/' && name[|name| - 1] != '/';
      CreateKeepsAgree(s.t, id, s.parent, name);
    }
  }

  /** One iteration of the loop when the next prefix resolves. */
  lemma AddFromFound(segs: seq<string>, k: nat, s: Step, answers: seq<int>, id: int)
    requires k < |segs| && Valid(s.t)
    requires s.used + (|segs| - k) <= |answers|
    requires FolderId(s.t, Join(segs[..k + 1], '/')) == Some(id)
    ensures AddFrom(segs, k, s, answers) == AddFrom(segs, k + 1, s.(parent := id, found := Some(id)), answers)
  {
  }

  /** Past the last segment the loop is over. */
  lemma AddFromEnd(segs: seq<string>, s: Step, answers: seq<int>)
    requires Valid(s.t) && s.used <= |answers|
    ensures AddFrom(segs, |segs|, s, answers) == (s, None)
  {
  }

  /** One iteration of the loop when the next prefix does not resolve and the parent is not negative. */
  lemma AddFromCreated(segs: seq<string>, k: nat, s: Step, answers: seq<int>)
    requires k < |segs| && Valid(s.t)
    requires s.used + (|segs| - k) <= |answers|
    requires FolderId(s.t, Join(segs[..k + 1], '/')).None? && s.parent >= 0
    ensures AddFrom(segs, k, s, answers) == AddFrom(segs, k + 1, Created(s, answers[s.used], segs[k]), answers)
  {
  }

  /** From any state satisfying the invariant, the loop ends without error with the leaf resolved. */
  lemma {:induction false} AddFromInv(t0: Tree, segs: seq<string>, answers: seq<int>, k: nat, s: Step)
    requires PlainSegments(segs)
    requires FreshIds(t0, answers) && |segs| <= |answers|
    requires LoopInv(t0, segs, answers, k, s)
    ensures s.used + (|segs| - k) <= |answers|
    ensures AddFrom(segs, k, s, answers).1.None?
    ensures LoopInv(t0, segs, answers, |segs|, AddFrom(segs, k, s, answers).0)
    decreases |segs| - k, 1
  {
    if k < |segs| {
      if FolderId(s.t, Join(segs[..k + 1], '/')).Some? {
        FoundInv(t0, segs, answers, k, s);
      } else {
        CreateStep(t0, segs, answers, k, s);
        CreatedInv(t0, segs, answers, k, s);
      }
    }
  }

  lemma {:induction false} FoundInv(t0: Tree, segs: seq<string>, answers: seq<int>, k: nat, s: Step)
    requires PlainSegments(segs)
    requires FreshIds(t0, answers) && |segs| <= |answers|
    requires LoopInv(t0, segs, answers, k, s) && k < |segs|
    requires FolderId(s.t, Join(segs[..k + 1], '/')).Some?
    ensures AddFrom(segs, k, s, answers).1.None?
    ensures LoopInv(t0, segs, answers, |segs|, AddFrom(segs, k, s, answers).0)
    decreases |segs| - k, 0
  {
    var id := FolderId(s.t, Join(segs[..k + 1], '/')).value;
    var s' := s.(parent := id, found := Some(id));
    FoundStep(t0, segs, answers, k, s, id);
    AddFromInv(t0, segs, answers, k + 1, s');
    AddFromFound(segs, k, s, answers, id);
  }

  lemma {:induction false} CreatedInv(t0: Tree, segs: seq<string>, answers: seq<int>, k: nat, s: Step)
    requires PlainSegments(segs)
    requires FreshIds(t0, answers) && |segs| <= |answers|
    requires LoopInv(t0, segs, answers, k, s) && k < |segs|
    requires FolderId(s.t, Join(segs[..k + 1], '/')).None?
    requires s.used < |answers| && s.parent >= 0
    requires LoopInv(t0, segs, answers, k + 1, Created(s, answers[s.used], segs[k]))
    ensures AddFrom(segs, k, s, answers).1.None?
    ensures LoopInv(t0, segs, answers, |segs|, AddFrom(segs, k, s, answers).0)
    decreases |segs| - k, 0
  {
    AddFromInv(t0, segs, answers, k + 1, Created(s, answers[s.used], segs[k]));
    AddFromCreated(segs, k, s, answers);
  }

  /** The whole loop, from the first segment, under the invariant's hypotheses. */
  lemma AddFromStart(t0: Tree, segs: seq<string>, answers: seq<int>)
    requires WellFormed(t0) && FreshIds(t0, answers)
    requires PlainSegments(segs) && |segs| <= |answers|
    ensures AddFrom(segs, 0, Step(t0, 0, None, 0, []), answers).1.None?
    ensures LoopInv(t0, segs, answers, |segs|, AddFrom(segs, 0, Step(t0, 0, None, 0, []), answers).0)
  {
    var init := Step(t0, 0, None, 0, []);
    assert answers[..0] == [] && t0.order + [] == t0.order;
    assert Extends(t0, t0);
    assert LoopInv(t0, segs, answers, 0, init);
    AddFromInv(t0, segs, answers, 0, init);
  }

  /** A trimmed non-empty path splits into fields with no empty one at the end. */
  lemma {:induction false} SplitAllLast(s: string, c: char)
    requires s != [] && s[|s| - 1] != c
    ensures SplitAll(s, c)[|SplitAll(s, c)| - 1] != []
    decreases |s|
  {
    if s[0] == c {
      SplitAllLast(s[1..], c);
    } else if |s| > 1 {
      SplitAllLast(s[1..], c);
    }
  }

  /** Joining the segments gives back the trimmed path. */
  lemma JoinSegments(path: string)
    requires PathTrim(path) != []
    ensures Segments(path) == SplitAll(PathTrim(path), '/')
    ensures Join(Segments(path), '/') == PathTrim(path)
  {
    SplitAllLast(PathTrim(path), '/');
    JoinSplitAll(PathTrim(path), '/');
  }

  /**
   * With fresh ids from the server, `add_folder` succeeds and returns the id
   * that `folder_id` now gives for the path; it only appends records, one
   * create command per answer used, and keeps every cached path equal to
   * the parent-chain path `folder_path` computes.
   */
  lemma AddResolves(t: Tree, path: string, answers: seq<int>)
    requires WellFormed(t) && FreshIds(t, answers)
    requires PathTrim(path) != [] && NonEmptySegments(Segments(path))
    requires |Segments(path)| <= |answers|
    ensures var (s, err) := AddPath(t, path, answers);
      err.None? && s.found.Some? && FolderId(s.t, path) == s.found &&
      WellFormed(s.t) && Extends(t, s.t) && s.t.order == t.order + answers[..s.used] &&
      |s.cmds| == s.used &&
      (Closed(t) && PathsAgree(t) ==> Closed(s.t) && PathsAgree(s.t))
  {
    var segs := Segments(path);
    SegmentsPlain(path);
    AddFromStart(t, segs, answers);
    var s := AddFrom(segs, 0, Step(t, 0, None, 0, []), answers).0;
    assert AddPath(t, path, answers).0 == s;
    LeafResolves(path, s.t, s.found);
  }

  /** The segments of a non-root path are plain. */
  lemma SegmentsPlain(path: string)
    requires PathTrim(path) != [] && NonEmptySegments(Segments(path))
    ensures PlainSegments(Segments(path)) && |Segments(path)| > 0
  {
    JoinSegments(path);
  }

  /** What resolves the whole joined segment list resolves the path. */
  lemma LeafResolves(path: string, u: Tree, found: Option<int>)
    requires PathTrim(path) != []
    requires var segs := Segments(path); |segs| > 0 && FolderId(u, Join(segs[..|segs|], '/')) == found
    ensures FolderId(u, path) == found
  {
    var segs := Segments(path);
    JoinSegments(path);
    assert segs[..|segs|] == segs;
    PathTrimIdempotent(path);
  }

  /** When every remaining prefix already resolves, the loop creates nothing and ends at the leaf's id. */
  lemma {:induction false} AddFromExisting(segs: seq<string>, k: nat, s: Step, answers: seq<int>)
    requires k <= |segs| && Valid(s.t)
    requires s.used + (|segs| - k) <= |answers|
    requires AllResolve(s.t, segs, |segs|)
    ensures AddFrom(segs, k, s, answers).1.None?
    ensures k == |segs| ==> AddFrom(segs, k, s, answers).0 == s
    ensures k < |segs| ==> (FolderId(s.t, Join(segs, '/')).Some? &&
      AddFrom(segs, k, s, answers).0 ==
        s.(parent := FolderId(s.t, Join(segs, '/')).value, found := FolderId(s.t, Join(segs, '/'))))
    decreases |segs| - k
  {
    if k < |segs| {
      AllResolveAt(s.t, segs, |segs|, k + 1);
      var id := FolderId(s.t, Join(segs[..k + 1], '/')).value;
      var s' := s.(parent := id, found := Some(id));
      AddFromFound(segs, k, s, answers, id);
      AddFromExisting(segs, k + 1, s', answers);
      if k + 1 == |segs| {
        assert segs[..k + 1] == segs;
      }
    }
  }

  /** Adding the same path again creates nothing and returns the same id. */
  lemma AddTwice(t: Tree, path: string, answers: seq<int>, again: seq<int>)
    requires WellFormed(t) && FreshIds(t, answers)
    requires PathTrim(path) != [] && NonEmptySegments(Segments(path))
    requires |Segments(path)| <= |answers| && |Segments(path)| <= |again|
    ensures var s := AddPath(t, path, answers).0;
      Valid(s.t) && AddPath(s.t, path, again) == (s.(used := 0, cmds := []), None)
  {
    var segs := Segments(path);
    SegmentsPlain(path);
    AddFromStart(t, segs, answers);
    var s := AddFrom(segs, 0, Step(t, 0, None, 0, []), answers).0;
    assert AddPath(t, path, answers).0 == s;
    assert segs[..|segs|] == segs;
    AddFromExisting(segs, 0, Step(s.t, 0, None, 0, []), again);
    assert AddPath(s.t, path, again) == AddFrom(segs, 0, Step(s.t, 0, None, 0, []), again);
  }

  /** `add_folder` on the root (or an empty) path issues nothing and returns nil. */
  lemma AddRoot(t: Tree, path: string, answers: seq<int>)
    requires Valid(t) && PathTrim(path) == []
    ensures AddPath(t, path, answers) == (Step(t, 0, None, 0, []), None)
  {
    assert SplitAll([], '/') == [[]];
    assert Segments(path) == [];
  }
}
