/**
  The requests a loader issues to the world outside the control store's pure state: the
  manifest bucket, the warehouse connection and result writes to the control store.  They are
  appended to one journal in the order they are issued, so their relative order can be stated.
*/
module Effects {
  import opened ControlStores

  /** Where a `copy` loads into. */
  datatype Target = WorkTable | DestTable

  datatype Effect =
    | PutManifest(name: string)
    | DeleteManifest(name: string)
    | TruncateWorkTable
    | CopyInto(target: Target, manifestUrl: string)
    | Begin
    | RunSqlSource
    | Commit
    | Rollback
    | WriteResult(jobSeq: nat, status: Status, message: string)

  /** The ordered record of issued requests. */
  class Journal {
    var entries: seq<Effect>

    constructor()
      ensures entries == []
    {
      entries := [];
    }

    method Append(e: Effect)
      modifies this
      ensures entries == old(entries) + [e]
    {
      entries := entries + [e];
    }
  }
}
