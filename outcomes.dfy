/** Failure-compatible wrappers shared by the model. */
module Outcomes {

  datatype Option<+T> = None | Some(value: T) {
    predicate IsFailure() { None? }

    function PropagateFailure<U>(): Option<U>
      requires None?
    {
      None
    }

    function Extract(): T
      requires Some?
    {
      value
    }
  }

  /** Why an operation of the folder engine stopped, in the terms the client raises. */
  datatype Error =
    /** A path did not resolve to a folder ("Folder ... could not be found"). */
    | FolderNotFound(path: string)
    /** Validation met a record whose non-zero parent is not cached. */
    | InconsistentTree(folder: int, path: string, missingParent: int)
    /** A parent chain never reaches a root: the unbounded recursion never returns. */
    | CyclicChain(folder: int)
    /** A folder id that has no cached record was dereferenced. */
    | NoRecord(folder: int)
    /** `add_folder` met a negative parent id after a create. */
    | CreateFailed(parent: int)
    /** `text_to_hash` met a line that does not split into one or two fields. */
    | InvalidElements(line: string)

  datatype Result<+R> = Ok(value: R) | Err(error: Error) {
    predicate IsFailure() { Err? }

    function PropagateFailure<U>(): Result<U>
      requires Err?
    {
      Err(error)
    }

    function Extract(): R
      requires Ok?
    {
      value
    }
  }
}
