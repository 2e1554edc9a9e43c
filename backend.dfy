/**
 * The Rapidshare folder commands the engine issues. The server itself is not
 * modelled: each command is appended to a ghost log, and what the server
 * answers (listings, new folder ids) is passed in by the caller.
 */
module Backend {
  import opened Outcomes

  datatype Command =
    | ListRealFolders
    | AddRealFolder(parent: int, name: string)
    | DelRealFolder(folder: int)
    /** `move_folder`: either id may be nil when its path did not resolve. */
    | MoveRealFolder(source: Option<int>, destination: Option<int>)
    /** `move_orphans`: a comma-joined id list and the destination path string. */
    | MoveRealFolders(folders: seq<int>, destinationPath: string)

  /** One delete per id, in order. */
  function Deletes(ids: seq<int>): (r: seq<Command>)
    ensures |r| == |ids|
    ensures forall i :: 0 <= i < |ids| ==> r[i] == DelRealFolder(ids[i])
    decreases |ids|
  {
    if ids == [] then [] else [DelRealFolder(ids[0])] + Deletes(ids[1..])
  }

  /** One more delete goes at the end. */
  lemma {:induction false} DeletesAppend(ids: seq<int>, k: int)
    ensures Deletes(ids + [k]) == Deletes(ids) + [DelRealFolder(k)]
    decreases |ids|
  {
    if ids == [] {
      assert [k][1..] == [];
    } else {
      assert (ids + [k])[1..] == ids[1..] + [k];
      DeletesAppend(ids[1..], k);
    }
  }

  /** The deletes of a prefix one longer. */
  lemma DeletesPrefix(ids: seq<int>, i: nat)
    requires i < |ids|
    ensures Deletes(ids[..i + 1]) == Deletes(ids[..i]) + [DelRealFolder(ids[i])]
  {
    assert ids[..i + 1] == ids[..i] + [ids[i]];
    DeletesAppend(ids[..i], ids[i]);
  }

  /** Appending to a log in two steps or in one. */
  lemma LogAppend(log: seq<Command>, a: seq<Command>, b: seq<Command>)
    ensures log + a + b == log + (a + b)
  {
  }
}
