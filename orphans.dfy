/**
 * `remove_orphans!` deletes from the cache while `delete_if` walks it, so
 * each `orphan?` question is put to a tree from which earlier orphans are
 * already gone. These lemmas show that the answers are those of the tree
 * as it was when the pass began, and what the pass leaves behind.
 */
module Orphans {
  import opened Outcomes
  import opened Hierarchy

  /** `cur` is `t` with some of `t`'s orphans deleted and every other record untouched. */
  ghost predicate PrunedOrphans(t: Tree, cur: Tree) {
    (forall k :: k in cur.recs ==> k in t.recs && cur.recs[k] == t.recs[k]) &&
    (forall k :: k in t.recs && k !in cur.recs ==> Orphaned(t, k))
  }

  /** Off the roots and gaps, a folder is an orphan exactly when its parent is. */
  lemma {:induction false} OrphanedStep(t: Tree, x: int)
    requires x in t.recs && !IsRoot(t, x) && !IsGap(t, x)
    ensures Orphaned(t, x) <==> Orphaned(t, t.recs[x].parent)
  {
    var p := t.recs[x].parent;
    if Orphaned(t, x) {
      var m: nat :| OrphanN(t, x, m) == Some(true);
      assert m > 0;
      OrphanStep(t, x, m - 1);
    }
    if Orphaned(t, p) {
      var m: nat :| OrphanN(t, p, m) == Some(true);
      OrphanStep(t, x, m);
    }
  }

  /** A root is never an orphan. */
  lemma RootNotOrphaned(t: Tree, x: int)
    requires IsRoot(t, x)
    ensures !Orphaned(t, x)
  {
  }

  /** Asked on the partly pruned tree, `orphan?` answers as on the original tree. */
  lemma {:induction false} LiveAgrees(t: Tree, cur: Tree, x: int, n: nat)
    requires PrunedOrphans(t, cur)
    requires x in cur.recs && OrphanN(cur, x, n).Some?
    ensures OrphanN(cur, x, n).value <==> Orphaned(t, x)
    decreases n
  {
    var rec := cur.recs[x];
    var p := rec.parent;
    if p == 0 {
      RootNotOrphaned(t, x);
    } else if p !in cur.recs {
      if p !in t.recs {
        GapIsOrphan(t, x);
      } else {
        OrphanedStep(t, x);
      }
    } else {
      LiveAgrees(t, cur, p, n - 1);
      OrphanedStep(t, x);
    }
  }

  /** The keys of `ks`, in order, that are not orphans of `t`. */
  ghost function Survivors(t: Tree, ks: seq<int>): (r: seq<int>)
    ensures forall k :: k in r <==> k in ks && !Orphaned(t, k)
    ensures Distinct(ks) ==> Distinct(r)
    decreases |ks|
  {
    if ks == [] then []
    else
      var rest := Survivors(t, ks[1..]);
      assert ([ks[0]] + rest)[1..] == rest;
      if Orphaned(t, ks[0]) then rest else [ks[0]] + rest
  }

  /** The keys of `ks`, in order, that are orphans of `t`. */
  ghost function OrphansAmong(t: Tree, ks: seq<int>): (r: seq<int>)
    ensures forall k :: k in r <==> k in ks && Orphaned(t, k)
    decreases |ks|
  {
    if ks == [] then []
    else
      var rest := OrphansAmong(t, ks[1..]);
      if Orphaned(t, ks[0]) then [ks[0]] + rest else rest
  }

  /** `t` with every orphan removed. */
  ghost function Pruned(t: Tree): (u: Tree)
    requires Valid(t)
    ensures Valid(u)
    ensures PrunedOrphans(t, u)
    ensures forall k :: k in u.recs <==> k in t.recs && !Orphaned(t, k)
  {
    Tree(Survivors(t, t.order), map k | k in t.recs && !Orphaned(t, k) :: t.recs[k])
  }

  /** After the pass every surviving parent is cached: the tree passes validation. */
  lemma {:induction false} PrunedIsClosed(t: Tree)
    requires Valid(t)
    ensures Closed(Pruned(t))
  {
    var u := Pruned(t);
    forall x | x in u.recs ensures u.recs[x].parent == 0 || u.recs[x].parent in u.recs {
      var p := t.recs[x].parent;
      if p != 0 {
        if p !in t.recs {
          GapIsOrphan(t, x);
        } else {
          OrphanedStep(t, x);
        }
      }
    }
  }

  /** No folder left by the pass is an orphan, whatever the budget. */
  lemma {:induction false} PrunedHasNoOrphans(t: Tree, x: int, n: nat)
    requires Valid(t)
    ensures OrphanN(Pruned(t), x, n) != Some(true)
  {
    PrunedIsClosed(t);
    ClosedHasNoOrphans(Pruned(t), x, n);
  }
}
