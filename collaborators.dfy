/** The collaborators of the tiered-storage cleaner, seen only at their
    interfaces: the file-state ledger ({tool_sssfs_filestate}), the Moodle
    {files} table, the set of blobs present in the local file system, the S3
    client and the local-delete primitive, and the clock. */
module Collaborators {

  datatype Option<+T> = None | Some(value: T)

  /** A content hash: the key shared by the ledger, the {files} table and both tiers. */
  type Hash = string

  /** The SSS_FILE_STATE_* constants. The cleaner reads Duplicated and writes External. */
  datatype FileState = Local | Duplicated | External | Errored

  /** One row of {tool_sssfs_filestate}. */
  datatype StateRecord = StateRecord(state: FileState, timeduplicated: int)

  /** {tool_sssfs_filestate}, keyed by content hash. */
  type Ledger = map<Hash, StateRecord>

  /** One row of {files}: several rows may share a content hash. */
  datatype FileRow = FileRow(contenthash: Hash, filesize: int)

  /** The two exception classes the cleaning loop catches. */
  datatype Exception = FileException | S3Exception

  /** What `check_file` does: return a value, or throw. */
  datatype CheckResult = Returned(fileinsss: bool) | CheckThrew(e: Exception)

  /** What `delete_local_file_from_contenthash` does: complete, or throw. */
  datatype Outcome = Done | Threw(e: Exception)

  /** One call the cleaner makes on a collaborator, with what came back. */
  datatype Call =
    | CheckFile(hash: Hash, size: Option<int>, result: CheckResult)
    | DeleteLocal(hash: Hash, outcome: Outcome)
    | LogFileState(hash: Hash, state: FileState)

  /** The world outside the cleaner, sampled once per loop iteration `i`:
      the wall clock, the S3 client's answer and the local file system's answer. */
  datatype Env = Env(
    clock: nat -> int,
    checkFile: (nat, Hash, Option<int>) -> CheckResult,
    deleteLocal: (nat, Hash) -> Outcome)

  /** The part of the world the cleaner changes, as a value. */
  datatype Snapshot = Snapshot(ledger: Ledger, local: set<Hash>, calls: seq<Call>)

  /** `log_file_state(contenthash, state)`: the record for `h` takes the new state.
      An existing record keeps its timeduplicated; a missing one is inserted,
      stamped with `now`. */
  function WriteState(ledger: Ledger, h: Hash, state: FileState, now: int): (r: Ledger)
    ensures r.Keys == ledger.Keys + {h}
    ensures r[h].state == state
    ensures h in ledger ==> r[h].timeduplicated == ledger[h].timeduplicated
    ensures forall g :: g in ledger && g != h ==> r[g] == ledger[g]
  {
    if h in ledger then ledger[h := ledger[h].(state := state)]
    else ledger[h := StateRecord(state, now)]
  }

  /** The database tables and the local blob store, updated in place. */
  class Storage {
    var ledger: Ledger
    var files: seq<FileRow>
    var local: set<Hash>
    /** Every collaborator call made so far, in order. */
    var calls: seq<Call>

    constructor (ledger: Ledger, files: seq<FileRow>, local: set<Hash>)
      ensures this.ledger == ledger && this.files == files && this.local == local
      ensures calls == []
    {
      this.ledger := ledger;
      this.files := files;
      this.local := local;
      calls := [];
    }

    function State(): Snapshot
      reads this
    {
      Snapshot(ledger, local, calls)
    }
  }
}
