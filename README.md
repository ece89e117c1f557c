# Tiered-storage cleaner of tool_sssfs, in Dafny

This project models the cleaner of the Moodle S3 file-system plugin
(`tool_sssfs\file_manipulators\cleaner`). The plugin keeps a file-state ledger
(`{tool_sssfs_filestate}`). It records, per content hash, whether the blob is only
local, duplicated to S3, or external (in S3 only). The cleaner does two things:

- it selects the content hashes that are duplicated and have been so for at
  least `consistencydelay` seconds (`get_candidate_content_hashes`);
- for each candidate in turn (`execute`), until the clock reaches `finishtime`, it
  looks up the largest size recorded for the hash in `{files}`. It then asks the
  S3 client to `check_file`, deletes the local copy, and writes state EXTERNAL.
  A `file_exception` or `S3Exception` on an item skips to the next item.

Files:

- `collaborators.dfy` (module `Collaborators`) holds the tables and oracles the
  cleaner talks to. The ledger is a `map` from hash to (state, timeduplicated).
  `{files}` is a sequence of (contenthash, filesize) rows. The local blob store
  is a `set` of hashes. `Env` holds the clock, the S3 client and the local-delete
  primitive, each a function of the loop iteration number. The `Storage` class
  holds the tables the cleaner updates in place, plus the log of every
  collaborator call it makes.
- `cleaner.dfy` (module `FileManipulators`) holds the `Cleaner` class. It has the
  fields `consistencydelay`, `deletelocal` and `finishtime` and the methods
  `GetCandidateContentHashes` and `Execute`. The module also holds the
  specification functions that `Execute` is proved against: `Step` (one item),
  `Run` (the loop from an item on), `Clean` (the whole call), and their helpers.
- `cleaner_properties.dfy` (module `CleanerProperties`) holds the lemmas about
  one run: which items are processed, the order of collaborator calls, which
  hashes lose their local copy, which ledger rows change, and what the next
  selection sees.

`Execute` ensures that the new state of the `Storage` object equals
`Clean(...)` of the old state. Every property below is proved about `Clean`.
So each property holds for the state `Execute` leaves behind.

Behaviour the model takes from the code, where a reader might expect otherwise:

- The value `check_file` returns is ignored. Only an exception stops the
  item. A check that returns `false` still leads to the delete
  (`CheckReturnValueIgnored`).
- When no `{files}` row has the hash, `max(filesize)` is NULL. That NULL
  (`None`) is passed to `check_file`. The cleaner does not treat it as a
  failure itself; only an exception from the S3 client does.
- `log_file_state` runs inside the `try`, but only `file_exception` and
  `S3Exception` are caught, and the failures modelled are those of
  `check_file` and the local delete. So the state write always succeeds in
  the model; a failing database write is out of scope (see "Left out").
- The candidate query has no ORDER BY. `GetCandidateContentHashes` is
  specified by membership and by having no duplicates, not by order.

## Model

| member | source | states |
|---|---|---|
| `FileManipulators.Cleaner.constructor` | classes/file_manipulators/cleaner.php:57-61 | the cleaner keeps the configured consistencydelay and deletelocal and the given finishtime |
| `FileManipulators.Cleaner.GetCandidateContentHashes` | classes/file_manipulators/cleaner.php:70-85 | empty when deletelocal is 0; otherwise a hash is returned iff its ledger state is Duplicated and its timeduplicated is at or before now - consistencydelay; no hash is returned twice |
| `FileManipulators.Cleaner.Execute` | classes/file_manipulators/cleaner.php:92-123 | the new ledger, local store and call log are those of `Clean` applied to the old ones; {files} is not changed; with deletelocal 0 nothing changes at all |
| `FileManipulators.MaxFileSize` | classes/file_manipulators/cleaner.php:105-109 | None iff no {files} row has the hash; otherwise a value some row with that hash has, and no row with that hash is larger |
| `FileManipulators.Reach` | classes/file_manipulators/cleaner.php:99-103 | the loop stops at the first item whose clock sample is at or past finishtime, or at the end; every sample before it is earlier than finishtime |
| `Collaborators.WriteState` | classes/file_manipulators/cleaner.php:114 | after log_file_state the hash has a row in the new state; an existing row keeps its timeduplicated; every other row is unchanged |
| `CleanerProperties.CleanIsSteps` | classes/file_manipulators/cleaner.php:95-122 | a call of execute is exactly the first ProcessedCount items, each processed once, in order |
| `CleanerProperties.DeadlineTruncation` | classes/file_manipulators/cleaner.php:99-103 | the run checks exactly the candidates before the deadline index, in order and once each (none when disabled); it only appends to the call log, and every call it adds concerns a processed candidate |
| `CleanerProperties.UnprocessedUntouched` | classes/file_manipulators/cleaner.php:99-103 | a hash not among the processed candidates keeps its ledger row and its local copy |
| `CleanerProperties.VerifyBeforeDeleteBeforeRecord` | classes/file_manipulators/cleaner.php:107-114 | each local delete comes right after a non-throwing check of the same hash; each state write comes right after a completed delete of the same hash; each check is given the max(filesize) of its hash |
| `CleanerProperties.LocalDeletedIffConfirmed` | classes/file_manipulators/cleaner.php:111-121 | a hash is still local afterwards iff it was local before and no processed item for it had both a non-throwing check and a completed delete |
| `CleanerProperties.ExternalOnlyAfterConfirmAndDelete` | classes/file_manipulators/cleaner.php:111-121 | a ledger row changes only if some processed item for its hash was confirmed and deleted; when one was, the row reads External and there is no local copy left |
| `CleanerProperties.FaultIsolation` | classes/file_manipulators/cleaner.php:111-121 | an item whose check or delete threw leaves ledger and local store as they were; the next item is still processed when its clock sample is before finishtime, and ends External and deleted if it succeeds |
| `CleanerProperties.Reselection` | classes/file_manipulators/cleaner.php:77-83 | a hash eligible before the run is eligible for the next selection, at the same or a later threshold, iff this run did not confirm and delete it |
| `CleanerProperties.SelectedRunSafety` | classes/file_manipulators/cleaner.php:70-123 | over selected candidates, every ledger row the run changes was Duplicated and old enough, now reads External, has no local copy, and had a confirmed check and a completed delete |
| `CleanerProperties.CheckReturnValueIgnored` | classes/file_manipulators/cleaner.php:112-114 | a processed item whose check_file returns false without throwing, and whose delete completes, still ends with no local copy and the ledger reading External |
| `CleanerProperties.ItemCallsShape` | classes/file_manipulators/cleaner.php:111-114 | one item's calls start with the check, keep verify, delete, record order, all concern its own hash, give the check the right size, and include the state write iff the item succeeds |
| `CleanerProperties.ItemCallsChecked` | classes/file_manipulators/cleaner.php:112 | one item calls check_file exactly once, on its own hash |
| `CleanerProperties.StepsLocal` | classes/file_manipulators/cleaner.php:113 | after k items, the local store is the old one minus the hashes of the items that succeeded |
| `CleanerProperties.StepsLedger` | classes/file_manipulators/cleaner.php:114 | after k items, the hashes of succeeded items read External, every other row is unchanged, and existing rows keep their timeduplicated |
| `CleanerProperties.SuccessHashesMembers` | classes/file_manipulators/cleaner.php:111-121 | a hash is in the success set of the first k items iff one of those items, for that hash, was confirmed and deleted |

## Left out

- The SQL text and the `$DB` engine. The two queries are a filter over the ledger map and a fold over the `{files}` rows.
- A failing ledger query. It would propagate out of the cleaner and is not modelled.
- The S3 client's internals and transport. `check_file` is an oracle that returns a value or throws `S3Exception` or `file_exception`.
- `delete_local_file_from_contenthash`. It is an oracle; when it completes, the hash leaves the local set.
- `log_file_state` (lib.php is not part of this model). It is a write of the new state to the ledger map. A hash with no row gets a new one stamped with the iteration's clock sample; this timestamp is an assumption. A database error inside it is not caught by the cleaner, so it is out of scope.
- `mtrace` logging of caught exceptions. Exceptions of other classes propagate in the code and are not modelled.
- The wall clock. Each iteration gets one supplied sample, `Env.clock(i)`. `get_candidate_content_hashes` takes `now` as a parameter.
- The manipulator base class and config loading. `finishtime` is given to the constructor; `maxtaskruntime`, from which the base class derives it, is not modelled.
- `deletelocal` is an integer compared with 0. PHP's loose comparison rules for string config values are not modelled.
- Concurrency with the duplication process. Each run is a sequential function of the state it starts from.
- The global `$DB` handle. The candidate query takes the ledger as a value rather than reading it from the `Storage` object, since it only reads it.
