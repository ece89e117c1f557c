/** What one run of the cleaner guarantees about the ledger, the local blob
    store and the calls it makes on its collaborators. */
module CleanerProperties {
  import opened Collaborators
  import opened FileManipulators

  /** Local deletion only right after a check of the same hash that did not
      throw; a state write only right after a local delete of the same hash
      that did not throw. */
  predicate Ordered(log: seq<Call>)
  {
    forall k :: 0 <= k < |log| ==> OrderedAt(log, k)
  }

  predicate OrderedAt(log: seq<Call>, k: nat)
    requires k < |log|
  {
    && (log[k].DeleteLocal? ==>
          k > 0 && log[k - 1].CheckFile? && log[k - 1].hash == log[k].hash && log[k - 1].result.Returned?)
    && (log[k].LogFileState? ==>
          k > 0 && log[k - 1].DeleteLocal? && log[k - 1].hash == log[k].hash && log[k - 1].outcome.Done?)
  }

  /** Every check in the log was given the max(filesize) of its hash. */
  predicate SizesFromFiles(files: seq<FileRow>, log: seq<Call>)
  {
    forall k :: 0 <= k < |log| && log[k].CheckFile? ==> log[k].size == MaxFileSize(files, log[k].hash)
  }

  /** The hashes passed to `check_file`, in call order. */
  function CheckedHashes(log: seq<Call>): seq<Hash>
  {
    if log == [] then []
    else CheckedHashes(log[..|log| - 1]) + (if log[|log| - 1].CheckFile? then [log[|log| - 1].hash] else [])
  }

  /** The calls made by the first `k` items of the loop. */
  function NewCalls(cands: seq<Hash>, files: seq<FileRow>, env: Env, k: nat): seq<Call>
    requires k <= |cands|
  {
    if k == 0 then [] else NewCalls(cands, files, env, k - 1) + ItemCalls(k - 1, cands[k - 1], files, env)
  }

  /** Some item among the first `k` was confirmed in S3 and deleted locally for `h`. */
  ghost predicate SucceededWithin(cands: seq<Hash>, files: seq<FileRow>, env: Env, k: nat, h: Hash)
    requires k <= |cands|
  {
    exists j :: 0 <= j < k && cands[j] == h && Succeeds(j, cands[j], files, env)
  }

  /** The ledger rows for `h` differ between `a` and `b`. */
  predicate LedgerChangedAt(a: Ledger, b: Ledger, h: Hash)
  {
    (h in a) != (h in b) || (h in a && a[h] != b[h])
  }

  // ---------------------------------------------------------------------
  // The loop as a fold over its processed prefix

  lemma {:induction false} RunFromSteps(cands: seq<Hash>, files: seq<FileRow>, env: Env, finishtime: int, i: nat, w: Snapshot)
    requires i <= |cands|
    ensures Run(cands, files, env, finishtime, i, Steps(cands, files, env, i, w))
         == Steps(cands, files, env, Reach(env.clock, finishtime, |cands|, i), w)
    decreases |cands| - i
  {
    if i < |cands| && env.clock(i) < finishtime {
      var here := Steps(cands, files, env, i, w);
      assert Steps(cands, files, env, i + 1, w) == Step(i, cands[i], files, env, here);
      assert Run(cands, files, env, finishtime, i, here)
          == Run(cands, files, env, finishtime, i + 1, Step(i, cands[i], files, env, here));
      RunFromSteps(cands, files, env, finishtime, i + 1, w);
    }
  }

  /** `execute` processes exactly its first ProcessedCount candidates, each as one Step. */
  lemma CleanIsSteps(deletelocal: int, finishtime: int, cands: seq<Hash>, files: seq<FileRow>, env: Env, w: Snapshot)
    ensures Clean(deletelocal, finishtime, cands, files, env, w)
         == Steps(cands, files, env, ProcessedCount(deletelocal, finishtime, |cands|, env.clock), w)
  {
    if deletelocal != 0 {
      RunFromSteps(cands, files, env, finishtime, 0, w);
    }
  }

  lemma {:induction false} StepsCalls(cands: seq<Hash>, files: seq<FileRow>, env: Env, k: nat, w: Snapshot)
    requires k <= |cands|
    ensures Steps(cands, files, env, k, w).calls == w.calls + NewCalls(cands, files, env, k)
  {
    if k > 0 {
      var before := Steps(cands, files, env, k - 1, w);
      StepsCalls(cands, files, env, k - 1, w);
      assert Step(k - 1, cands[k - 1], files, env, before).calls == before.calls + ItemCalls(k - 1, cands[k - 1], files, env);
      assert NewCalls(cands, files, env, k) == NewCalls(cands, files, env, k - 1) + ItemCalls(k - 1, cands[k - 1], files, env);
    }
  }

  lemma {:induction false} CheckedHashesAppend(a: seq<Call>, b: seq<Call>)
    ensures CheckedHashes(a + b) == CheckedHashes(a) + CheckedHashes(b)
    decreases |b|
  {
    if b == [] {
      assert a + b == a;
    } else {
      assert (a + b)[..|a + b| - 1] == a + b[..|b| - 1];
      CheckedHashesAppend(a, b[..|b| - 1]);
    }
  }

  lemma OrderedAppend(a: seq<Call>, b: seq<Call>)
    requires Ordered(a) && Ordered(b)
    requires b == [] || b[0].CheckFile?
    ensures Ordered(a + b)
  {
    var c := a + b;
    forall k | 0 <= k < |c|
      ensures OrderedAt(c, k)
    {
      if k < |a| {
        assert OrderedAt(a, k);
        assert c[k] == a[k];
        if k > 0 {
          assert c[k - 1] == a[k - 1];
        }
      } else if k == |a| {
        assert c[k] == b[0];
      } else {
        assert OrderedAt(b, k - |a|);
        assert c[k] == b[k - |a|];
        assert c[k - 1] == b[k - |a| - 1];
      }
    }
  }

  /** One item checks its own hash exactly once. */
  lemma ItemCallsChecked(i: nat, h: Hash, files: seq<FileRow>, env: Env)
    ensures CheckedHashes(ItemCalls(i, h, files, env)) == [h]
  {
    var c := ItemCalls(i, h, files, env);
    assert CheckedHashes(c[..1]) == [h] by {
      assert c[..1][..0] == [];
    }
    if |c| == 3 {
      assert c[..2][..1] == c[..1];
      assert c[..|c| - 1] == c[..2];
    } else if |c| == 2 {
      assert c[..|c| - 1] == c[..1];
    } else {
      assert c[..1] == c;
    }
  }

  /** One item's calls: in verify-delete-record order, all about its own hash,
      the check given the right size, writing the ledger exactly when it succeeds. */
  lemma ItemCallsShape(i: nat, h: Hash, files: seq<FileRow>, env: Env)
    ensures var c := ItemCalls(i, h, files, env);
      && c != [] && c[0].CheckFile?
      && Ordered(c)
      && SizesFromFiles(files, c)
      && (forall m :: 0 <= m < |c| ==> c[m].hash == h)
      && (Succeeds(i, h, files, env) <==> LogFileState(h, External) in c)
  {
  }

  lemma {:induction false} NewCallsChecked(cands: seq<Hash>, files: seq<FileRow>, env: Env, k: nat)
    requires k <= |cands|
    ensures CheckedHashes(NewCalls(cands, files, env, k)) == cands[..k]
  {
    if k > 0 {
      NewCallsChecked(cands, files, env, k - 1);
      ItemCallsChecked(k - 1, cands[k - 1], files, env);
      CheckedHashesExtend(NewCalls(cands, files, env, k - 1), ItemCalls(k - 1, cands[k - 1], files, env), cands, k);
    }
  }

  lemma CheckedHashesExtend(prev: seq<Call>, item: seq<Call>, cands: seq<Hash>, k: nat)
    requires 0 < k <= |cands|
    requires CheckedHashes(prev) == cands[..k - 1] && CheckedHashes(item) == [cands[k - 1]]
    ensures CheckedHashes(prev + item) == cands[..k]
  {
    CheckedHashesAppend(prev, item);
    assert cands[..k] == cands[..k - 1] + [cands[k - 1]];
  }

  lemma {:induction false} NewCallsOrdered(cands: seq<Hash>, files: seq<FileRow>, env: Env, k: nat)
    requires k <= |cands|
    ensures var c := NewCalls(cands, files, env, k);
      (c == [] || c[0].CheckFile?) && Ordered(c)
  {
    if k > 0 {
      var prev := NewCalls(cands, files, env, k - 1);
      NewCallsOrdered(cands, files, env, k - 1);
      ItemCallsShape(k - 1, cands[k - 1], files, env);
      OrderedAppend(prev, ItemCalls(k - 1, cands[k - 1], files, env));
    }
  }

  lemma {:induction false} NewCallsAbout(cands: seq<Hash>, files: seq<FileRow>, env: Env, k: nat)
    requires k <= |cands|
    ensures var c := NewCalls(cands, files, env, k);
      SizesFromFiles(files, c) && forall m :: 0 <= m < |c| ==> c[m].hash in cands[..k]
  {
    if k > 0 {
      var prev := NewCalls(cands, files, env, k - 1);
      var item := ItemCalls(k - 1, cands[k - 1], files, env);
      NewCallsAbout(cands, files, env, k - 1);
      ItemCallsShape(k - 1, cands[k - 1], files, env);
      var c := prev + item;
      forall m | 0 <= m < |c|
        ensures c[m].hash in cands[..k]
        ensures c[m].CheckFile? ==> c[m].size == MaxFileSize(files, c[m].hash)
      {
        if m < |prev| {
          assert c[m] == prev[m];
          assert prev[m].hash in cands[..k - 1];
          assert cands[..k - 1] <= cands[..k];
        } else {
          assert c[m] == item[m - |prev|];
          assert cands[..k][k - 1] == cands[k - 1];
        }
      }
    }
  }

  lemma {:induction false} SuccessHashesMembers(cands: seq<Hash>, files: seq<FileRow>, env: Env, k: nat, h: Hash)
    requires k <= |cands|
    ensures h in SuccessHashes(cands, files, env, k) <==> SucceededWithin(cands, files, env, k, h)
  {
    if k > 0 {
      SuccessHashesMembers(cands, files, env, k - 1, h);
      if SucceededWithin(cands, files, env, k, h) && !Succeeds(k - 1, cands[k - 1], files, env) {
        var j :| 0 <= j < k && cands[j] == h && Succeeds(j, cands[j], files, env);
        assert j < k - 1;
      }
      if SucceededWithin(cands, files, env, k, h) && cands[k - 1] != h {
        var j :| 0 <= j < k && cands[j] == h && Succeeds(j, cands[j], files, env);
        assert j < k - 1;
      }
    }
  }

  lemma {:induction false} StepsLocal(cands: seq<Hash>, files: seq<FileRow>, env: Env, k: nat, w: Snapshot)
    requires k <= |cands|
    ensures Steps(cands, files, env, k, w).local == w.local - SuccessHashes(cands, files, env, k)
  {
    if k > 0 {
      StepsLocal(cands, files, env, k - 1, w);
    }
  }

  lemma {:induction false} StepsLedger(cands: seq<Hash>, files: seq<FileRow>, env: Env, k: nat, w: Snapshot, h: Hash)
    requires k <= |cands|
    ensures var r := Steps(cands, files, env, k, w).ledger;
      && (h in SuccessHashes(cands, files, env, k) ==> h in r && r[h].state == External)
      && (h !in SuccessHashes(cands, files, env, k) ==> !LedgerChangedAt(w.ledger, r, h))
      && (h in w.ledger ==> h in r && r[h].timeduplicated == w.ledger[h].timeduplicated)
  {
    if k > 0 {
      StepsLedger(cands, files, env, k - 1, w, h);
    }
  }

  // ---------------------------------------------------------------------
  // What one run of `execute` guarantees

  /** Deadline truncation: the run checks exactly the candidates before the
      first clock sample at or past finishtime, in order and once each, and
      every call it makes is about one of them; nothing when disabled. */
  lemma DeadlineTruncation(deletelocal: int, finishtime: int, cands: seq<Hash>, files: seq<FileRow>, env: Env, w: Snapshot)
    ensures var k := ProcessedCount(deletelocal, finishtime, |cands|, env.clock);
      var r := Clean(deletelocal, finishtime, cands, files, env, w);
      && (deletelocal == 0 ==> k == 0)
      && (deletelocal != 0 ==>
            (forall j :: 0 <= j < k ==> env.clock(j) < finishtime) && (k == |cands| || env.clock(k) >= finishtime))
      && |w.calls| <= |r.calls| && r.calls[..|w.calls|] == w.calls
      && CheckedHashes(r.calls[|w.calls|..]) == cands[..k]
      && (forall m :: |w.calls| <= m < |r.calls| ==> r.calls[m].hash in cands[..k])
  {
    var k := ProcessedCount(deletelocal, finishtime, |cands|, env.clock);
    CleanIsSteps(deletelocal, finishtime, cands, files, env, w);
    StepsCalls(cands, files, env, k, w);
    NewCallsChecked(cands, files, env, k);
    NewCallsAbout(cands, files, env, k);
    var r := Clean(deletelocal, finishtime, cands, files, env, w);
    assert r.calls[|w.calls|..] == NewCalls(cands, files, env, k);
    forall m | |w.calls| <= m < |r.calls|
      ensures r.calls[m].hash in cands[..k]
    {
      assert r.calls[m] == NewCalls(cands, files, env, k)[m - |w.calls|];
    }
  }

  /** Hashes outside the processed prefix keep their ledger row and their local copy. */
  lemma UnprocessedUntouched(deletelocal: int, finishtime: int, cands: seq<Hash>, files: seq<FileRow>, env: Env, w: Snapshot, h: Hash)
    requires h !in cands[..ProcessedCount(deletelocal, finishtime, |cands|, env.clock)]
    ensures var r := Clean(deletelocal, finishtime, cands, files, env, w);
      !LedgerChangedAt(w.ledger, r.ledger, h) && (h in r.local <==> h in w.local)
  {
    var k := ProcessedCount(deletelocal, finishtime, |cands|, env.clock);
    CleanIsSteps(deletelocal, finishtime, cands, files, env, w);
    StepsLocal(cands, files, env, k, w);
    StepsLedger(cands, files, env, k, w, h);
    SuccessHashesMembers(cands, files, env, k, h);
    forall j | 0 <= j < k
      ensures cands[j] != h
    {
      assert cands[..k][j] == cands[j];
    }
  }

  /** Verify before delete before record, each on the same hash, and every
      check given the max(filesize) of its hash. */
  lemma VerifyBeforeDeleteBeforeRecord(deletelocal: int, finishtime: int, cands: seq<Hash>, files: seq<FileRow>, env: Env, w: Snapshot)
    requires Ordered(w.calls)
    ensures var r := Clean(deletelocal, finishtime, cands, files, env, w);
      && Ordered(r.calls)
      && |w.calls| <= |r.calls|
      && SizesFromFiles(files, r.calls[|w.calls|..])
  {
    var k := ProcessedCount(deletelocal, finishtime, |cands|, env.clock);
    CleanIsSteps(deletelocal, finishtime, cands, files, env, w);
    StepsCalls(cands, files, env, k, w);
    NewCallsOrdered(cands, files, env, k);
    NewCallsAbout(cands, files, env, k);
    OrderedAppend(w.calls, NewCalls(cands, files, env, k));
    var r := Clean(deletelocal, finishtime, cands, files, env, w);
    assert r.calls[|w.calls|..] == NewCalls(cands, files, env, k);
  }

  /** A local copy goes away exactly when some processed item for its hash
      was confirmed in S3 and its local delete completed; none appears. */
  lemma LocalDeletedIffConfirmed(deletelocal: int, finishtime: int, cands: seq<Hash>, files: seq<FileRow>, env: Env, w: Snapshot, h: Hash)
    ensures var k := ProcessedCount(deletelocal, finishtime, |cands|, env.clock);
      var r := Clean(deletelocal, finishtime, cands, files, env, w);
      (h in r.local <==> h in w.local && !SucceededWithin(cands, files, env, k, h))
  {
    var k := ProcessedCount(deletelocal, finishtime, |cands|, env.clock);
    CleanIsSteps(deletelocal, finishtime, cands, files, env, w);
    StepsLocal(cands, files, env, k, w);
    SuccessHashesMembers(cands, files, env, k, h);
  }

  /** The ledger row of a hash changes only when some processed item for it
      was confirmed and deleted, and then it reads External; such a hash has
      no local copy left. */
  lemma ExternalOnlyAfterConfirmAndDelete(deletelocal: int, finishtime: int, cands: seq<Hash>, files: seq<FileRow>, env: Env, w: Snapshot, h: Hash)
    ensures var k := ProcessedCount(deletelocal, finishtime, |cands|, env.clock);
      var r := Clean(deletelocal, finishtime, cands, files, env, w);
      && (LedgerChangedAt(w.ledger, r.ledger, h) ==> SucceededWithin(cands, files, env, k, h))
      && (SucceededWithin(cands, files, env, k, h) ==> h in r.ledger && r.ledger[h].state == External && h !in r.local)
  {
    var k := ProcessedCount(deletelocal, finishtime, |cands|, env.clock);
    CleanIsSteps(deletelocal, finishtime, cands, files, env, w);
    StepsLedger(cands, files, env, k, w, h);
    StepsLocal(cands, files, env, k, w);
    SuccessHashesMembers(cands, files, env, k, h);
  }

  /** Fault isolation: a candidate whose check or delete threw leaves the
      ledger and the local store as they were, and the next candidate is
      still processed if the clock allows it; that one, when it succeeds,
      ends External with its local copy gone. */
  lemma FaultIsolation(deletelocal: int, finishtime: int, cands: seq<Hash>, files: seq<FileRow>, env: Env, w: Snapshot, j: nat)
    requires deletelocal != 0
    requires j + 1 < |cands|
    requires j < ProcessedCount(deletelocal, finishtime, |cands|, env.clock)
    requires !Succeeds(j, cands[j], files, env)
    requires env.clock(j + 1) < finishtime
    ensures var before := Steps(cands, files, env, j, w);
      var after := Step(j, cands[j], files, env, before);
      after.ledger == before.ledger && after.local == before.local
    ensures j + 1 < ProcessedCount(deletelocal, finishtime, |cands|, env.clock)
    ensures var r := Clean(deletelocal, finishtime, cands, files, env, w);
      Succeeds(j + 1, cands[j + 1], files, env) ==>
        cands[j + 1] in r.ledger && r.ledger[cands[j + 1]].state == External && cands[j + 1] !in r.local
  {
    var k := ProcessedCount(deletelocal, finishtime, |cands|, env.clock);
    if Succeeds(j + 1, cands[j + 1], files, env) {
      assert SucceededWithin(cands, files, env, k, cands[j + 1]);
      ExternalOnlyAfterConfirmAndDelete(deletelocal, finishtime, cands, files, env, w, cands[j + 1]);
    }
  }

  /** A hash that was eligible stays eligible for the next run (at the same or
      a later time) exactly when this run did not confirm and delete it. */
  lemma Reselection(deletelocal: int, finishtime: int, cands: seq<Hash>, files: seq<FileRow>, env: Env, w: Snapshot,
                    h: Hash, threshold: int, nextThreshold: int)
    requires IsEligible(w.ledger, h, threshold)
    requires threshold <= nextThreshold
    ensures var k := ProcessedCount(deletelocal, finishtime, |cands|, env.clock);
      var r := Clean(deletelocal, finishtime, cands, files, env, w);
      IsEligible(r.ledger, h, nextThreshold) <==> !SucceededWithin(cands, files, env, k, h)
  {
    ExternalOnlyAfterConfirmAndDelete(deletelocal, finishtime, cands, files, env, w, h);
  }

  /** A run over selected candidates moves to External only hashes that were
      duplicated at least consistencydelay ago, that S3 confirmed and whose
      local copy was deleted: the ledger never claims External for a blob
      still stored locally or never confirmed. */
  lemma SelectedRunSafety(deletelocal: int, finishtime: int, cands: seq<Hash>, files: seq<FileRow>, env: Env, w: Snapshot,
                          threshold: int, h: Hash)
    requires forall i :: 0 <= i < |cands| ==> IsEligible(w.ledger, cands[i], threshold)
    ensures var k := ProcessedCount(deletelocal, finishtime, |cands|, env.clock);
      var r := Clean(deletelocal, finishtime, cands, files, env, w);
      LedgerChangedAt(w.ledger, r.ledger, h) ==>
        && IsEligible(w.ledger, h, threshold)
        && h in r.ledger && r.ledger[h].state == External
        && h !in r.local
        && SucceededWithin(cands, files, env, k, h)
  {
    ExternalOnlyAfterConfirmAndDelete(deletelocal, finishtime, cands, files, env, w, h);
  }

  /** The value `check_file` returns is not looked at: a processed item whose
      check returns false without throwing, and whose delete completes, still
      loses its local copy and ends External. */
  lemma CheckReturnValueIgnored(deletelocal: int, finishtime: int, cands: seq<Hash>, files: seq<FileRow>, env: Env, w: Snapshot, j: nat)
    requires j < ProcessedCount(deletelocal, finishtime, |cands|, env.clock)
    requires env.checkFile(j, cands[j], MaxFileSize(files, cands[j])) == Returned(false)
    requires env.deleteLocal(j, cands[j]) == Done
    ensures var r := Clean(deletelocal, finishtime, cands, files, env, w);
      cands[j] in r.ledger && r.ledger[cands[j]].state == External && cands[j] !in r.local
  {
    assert SucceededWithin(cands, files, env, ProcessedCount(deletelocal, finishtime, |cands|, env.clock), cands[j]);
    ExternalOnlyAfterConfirmAndDelete(deletelocal, finishtime, cands, files, env, w, cands[j]);
  }
}
