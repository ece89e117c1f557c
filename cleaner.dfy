/** The tiered-storage cleaner (`tool_sssfs\file_manipulators\cleaner`):
    selects the content hashes that are duplicated to S3 and old enough, then
    for each one, until the deadline, confirms it in S3, deletes the local copy
    and records it as external. */
module FileManipulators {
  import opened Collaborators

  /** The sssfs configuration fields cleaner reads. */
  datatype Config = Config(consistencydelay: int, deletelocal: int)

  /** `SELECT max(filesize) FROM {files} WHERE contenthash = ?`: NULL (None)
      when no row carries the hash, else the largest size among those rows. */
  function MaxFileSize(files: seq<FileRow>, h: Hash): (r: Option<int>)
    ensures r.None? <==> forall i :: 0 <= i < |files| ==> files[i].contenthash != h
    ensures r.Some? ==> exists i :: 0 <= i < |files| && files[i].contenthash == h && files[i].filesize == r.value
    ensures r.Some? ==> forall i :: 0 <= i < |files| && files[i].contenthash == h ==> files[i].filesize <= r.value
    decreases |files|
  {
    if |files| == 0 then None
    else
      var last := files[|files| - 1];
      var rest := MaxFileSize(files[..|files| - 1], h);
      if last.contenthash != h then rest
      else if rest.Some? && rest.value > last.filesize then rest
      else Some(last.filesize)
  }

  /** Item `i` of the loop, for hash `h`: `check_file` returned (whatever it
      returned) and the local delete completed. */
  predicate Succeeds(i: nat, h: Hash, files: seq<FileRow>, env: Env)
  {
    env.checkFile(i, h, MaxFileSize(files, h)).Returned? && env.deleteLocal(i, h).Done?
  }

  /** The collaborator calls item `i` makes: check, then delete only if the
      check did not throw, then record only if the delete did not throw. */
  function ItemCalls(i: nat, h: Hash, files: seq<FileRow>, env: Env): seq<Call>
  {
    var size := MaxFileSize(files, h);
    var checked := env.checkFile(i, h, size);
    if checked.CheckThrew? then [CheckFile(h, size, checked)]
    else
      var deleted := env.deleteLocal(i, h);
      if deleted.Threw? then [CheckFile(h, size, checked), DeleteLocal(h, deleted)]
      else [CheckFile(h, size, checked), DeleteLocal(h, deleted), LogFileState(h, External)]
  }

  /** The effect of item `i` of the loop on the world. */
  function Step(i: nat, h: Hash, files: seq<FileRow>, env: Env, w: Snapshot): Snapshot
  {
    if Succeeds(i, h, files, env) then
      Snapshot(WriteState(w.ledger, h, External, env.clock(i)), w.local - {h}, w.calls + ItemCalls(i, h, files, env))
    else
      w.(calls := w.calls + ItemCalls(i, h, files, env))
  }

  /** The loop from item `i` on: stop at the end or at the first clock sample
      at or past `finishtime`. */
  function Run(cands: seq<Hash>, files: seq<FileRow>, env: Env, finishtime: int, i: nat, w: Snapshot): Snapshot
    requires i <= |cands|
    decreases |cands| - i
  {
    if i == |cands| || env.clock(i) >= finishtime then w
    else Run(cands, files, env, finishtime, i + 1, Step(i, cands[i], files, env, w))
  }

  /** What `execute` does to the world. */
  function Clean(deletelocal: int, finishtime: int, cands: seq<Hash>, files: seq<FileRow>, env: Env, w: Snapshot): Snapshot
  {
    if deletelocal == 0 then w else Run(cands, files, env, finishtime, 0, w)
  }

  /** The first items `k` of the loop, all processed. */
  function Steps(cands: seq<Hash>, files: seq<FileRow>, env: Env, k: nat, w: Snapshot): Snapshot
    requires k <= |cands|
  {
    if k == 0 then w else Step(k - 1, cands[k - 1], files, env, Steps(cands, files, env, k - 1, w))
  }

  /** The index of the first item from `i` on at which the loop stops: the
      end of the candidates or the first clock sample at or past `finishtime`. */
  function Reach(clock: nat -> int, finishtime: int, n: nat, i: nat): (k: nat)
    requires i <= n
    ensures i <= k <= n
    ensures forall j :: i <= j < k ==> clock(j) < finishtime
    ensures k < n ==> clock(k) >= finishtime
    decreases n - i
  {
    if i == n || clock(i) >= finishtime then i else Reach(clock, finishtime, n, i + 1)
  }

  /** How many candidates `execute` processes: none when disabled. */
  function ProcessedCount(deletelocal: int, finishtime: int, n: nat, clock: nat -> int): (k: nat)
    ensures k <= n
  {
    if deletelocal == 0 then 0 else Reach(clock, finishtime, n, 0)
  }

  /** The hashes of the first `k` items that were confirmed and deleted. */
  function SuccessHashes(cands: seq<Hash>, files: seq<FileRow>, env: Env, k: nat): set<Hash>
    requires k <= |cands|
  {
    if k == 0 then {}
    else SuccessHashes(cands, files, env, k - 1)
         + (if Succeeds(k - 1, cands[k - 1], files, env) then {cands[k - 1]} else {})
  }

  /** A ledger row the candidate query selects at `threshold`. */
  predicate IsEligible(ledger: Ledger, h: Hash, threshold: int)
  {
    h in ledger && ledger[h].state == Duplicated && ledger[h].timeduplicated <= threshold
  }

  class Cleaner {
    /** Seconds a file must stay duplicated before its local copy may go. */
    const consistencydelay: int
    /** Master switch: 0 disables all cleaning. */
    const deletelocal: int
    /** The deadline of this run, set up by the manipulator base class. */
    const finishtime: int

    constructor (config: Config, finishtime: int)
      ensures consistencydelay == config.consistencydelay
      ensures deletelocal == config.deletelocal
      ensures this.finishtime == finishtime
    {
      consistencydelay := config.consistencydelay;
      deletelocal := config.deletelocal;
      this.finishtime := finishtime;
    }

    /** The content hashes fit for cleaning at time `now`: nothing when
        disabled, else each duplicated hash whose timeduplicated is at or
        before `now - consistencydelay`, once each, in no particular order. */
    method GetCandidateContentHashes(ledger: Ledger, now: int) returns (contenthashes: seq<Hash>)
      ensures deletelocal == 0 ==> contenthashes == []
      ensures deletelocal != 0 ==> forall h :: h in contenthashes <==>
        h in ledger && ledger[h].state == Duplicated && ledger[h].timeduplicated <= now - consistencydelay
      ensures forall i, j :: 0 <= i < j < |contenthashes| ==> contenthashes[i] != contenthashes[j]
    {
      if deletelocal == 0 {
        return [];
      }
      var threshold := now - consistencydelay;
      var remaining := ledger.Keys;
      contenthashes := [];
      while remaining != {}
        invariant remaining <= ledger.Keys
        invariant forall h :: h in contenthashes <==> h !in remaining && IsEligible(ledger, h, threshold)
        invariant forall i, j :: 0 <= i < j < |contenthashes| ==> contenthashes[i] != contenthashes[j]
        decreases remaining
      {
        var h :| h in remaining;
        if ledger[h].state == Duplicated && ledger[h].timeduplicated <= threshold {
          contenthashes := contenthashes + [h];
        }
        remaining := remaining - {h};
      }
    }

    /** Cleans the local file system of the candidate hashes: for each, in
        order, stop once the clock reaches finishtime; otherwise look up the
        size, check the file in S3, delete the local copy and record it as
        external, skipping to the next hash on an exception. */
    method Execute(candidatehashes: seq<Hash>, store: Storage, env: Env)
      modifies store
      ensures store.files == old(store.files)
      ensures store.State() == Clean(deletelocal, finishtime, candidatehashes, old(store.files), env, old(store.State()))
      ensures deletelocal == 0 ==> store.State() == old(store.State())
    {
      if deletelocal == 0 {
        return;
      }
      ghost var start := store.State();
      for i := 0 to |candidatehashes|
        invariant store.files == old(store.files)
        invariant Run(candidatehashes, store.files, env, finishtime, 0, start)
               == Run(candidatehashes, store.files, env, finishtime, i, store.State())
      {
        if env.clock(i) >= finishtime {
          break;
        }
        var contenthash := candidatehashes[i];
        ghost var before := store.State();
        assert Run(candidatehashes, store.files, env, finishtime, i, before)
            == Run(candidatehashes, store.files, env, finishtime, i + 1, Step(i, contenthash, store.files, env, before));
        var filesize := MaxFileSize(store.files, contenthash);
        var fileinsss := env.checkFile(i, contenthash, filesize);
        store.calls := store.calls + [CheckFile(contenthash, filesize, fileinsss)];
        if fileinsss.CheckThrew? {
          assert store.State() == Step(i, contenthash, store.files, env, before);
          continue;
        }
        var deleted := env.deleteLocal(i, contenthash);
        store.calls := store.calls + [DeleteLocal(contenthash, deleted)];
        if deleted.Threw? {
          assert store.State() == Step(i, contenthash, store.files, env, before);
          continue;
        }
        store.local := store.local - {contenthash};
        store.ledger := WriteState(store.ledger, contenthash, External, env.clock(i));
        store.calls := store.calls + [LogFileState(contenthash, External)];
        assert store.State() == Step(i, contenthash, store.files, env, before);
      }
    }
  }
}
