/** What the code must find in a store's directory to open it again (db/version_set.cc, Recover; db/db_impl.cc,
    Recover), and that every run of the store leaves it behind. */
module DatabaseRecovery {
  import opened Visibility
  import opened Versions
  import opened VersionEdits
  import opened CompactionPicking
  import opened Store
  import opened StoreInvariant
  import opened StoreRecovery
  import R = StoreRuns

  // ---------- What the code needs to find ----------

  /** The last edit has every counter, edits are well-formed, no log has number 0, and none is named the previous
      one. */
  ghost predicate Recoverable(db: Db) {
    && HasCounters(db.manifest)
    && (forall e :: e in db.manifest ==> EditOk(e))
    && 0 !in db.logs
  }

  ghost predicate HasCounters(m: seq<Edit>) {
    m != [] && var e := m[|m| - 1]; e.logNumber.Some? && e.nextFileNumber.Some? && e.lastSequence.Some?
  }

  ghost predicate EditOk(e: Edit) {
    && DistinctNumbers(e.added)
    && (forall n :: n in e.added ==> n.level < NUM_LEVELS)
    && (forall d :: d in e.deleted ==> d.0 < NUM_LEVELS)
    && (e.prevLogNumber.Some? ==> e.prevLogNumber.value == 0)
  }

  lemma AddedToLevel(files: seq<File>, level: nat)
    requires forall i, j :: 0 <= i < j < |files| ==> files[i].number != files[j].number
    ensures DistinctNumbers(AtLevel(files, level)) && forall n :: n in AtLevel(files, level) ==> n.level == level
  {
  }

  lemma OneMoreEdit(m: seq<Edit>, e: Edit)
    requires (forall x :: x in m ==> EditOk(x)) && EditOk(e)
    requires e.logNumber.Some? && e.nextFileNumber.Some? && e.lastSequence.Some?
    ensures HasCounters(m + [e]) && forall x :: x in m + [e] ==> EditOk(x)
  {
  }

  lemma FlushKeeps(db: Db, db': Db, files: seq<File>, level: nat, v: Version)
    requires Recoverable(db) && InstallFlush(db, db', files, level, v)
    ensures Recoverable(db')
  {
    AddedToLevel(files, level);
    OneMoreEdit(db.manifest, CompletedEdit(db, db.logfileNumber, {}, AtLevel(files, level)));
  }

  lemma CompactionKeeps(db: Db, db': Db, p: Plan, outputs: seq<File>, v: Version)
    requires Recoverable(db) && InstallCompaction(db, db', p, outputs, v)
    ensures Recoverable(db')
  {
    AddedToLevel(outputs, p.level + 1);
    OneMoreEdit(db.manifest, CompletedEdit(db, db.logNumber, InputDeletions(p), AtLevel(outputs, p.level + 1)));
  }

  lemma MoveKeeps(db: Db, db': Db, p: Plan, v: Version)
    requires Recoverable(db) && TrivialMove(db, db', p, v)
    ensures Recoverable(db')
  {
    AddedToLevel(p.inputs0, p.level + 1);
    OneMoreEdit(db.manifest, CompletedEdit(db, db.logNumber, InputDeletions(p), AtLevel(p.inputs0, p.level + 1)));
  }

  lemma FilesDiffer(v: Version, l: nat)
    requires VersionInv(v) && l < NUM_LEVELS
    ensures forall i, j :: 0 <= i < j < |v[l]| ==> v[l][i].number != v[l][j].number
  {
    forall i, j | 0 <= i < j < |v[l]| ensures v[l][i].number != v[l][j].number {
      assert Ascending(v[l]) && v[l][i] in v[l] && v[l][j] in v[l];
      BySmallestIsTotal(v[l][i], v[l][j], v[l][i]);
    }
  }

  lemma JoinDistinct(a: seq<NewFile>, b: seq<NewFile>, level: nat)
    requires DistinctNumbers(a) && DistinctNumbers(b)
    requires (forall n :: n in a ==> n.level < level) && forall n :: n in b ==> n.level == level
    ensures DistinctNumbers(a + b) && forall n :: n in a + b ==> n.level < level + 1
  {
    assert (forall i :: 0 <= i < |a| ==> a[i] in a) && forall i :: 0 <= i < |b| ==> b[i] in b;
    assert forall i :: 0 <= i < |a| ==> (a + b)[i] == a[i];
    assert forall i :: |a| <= i < |a + b| ==> (a + b)[i] == b[i - |a|];
  }

  lemma SnapshotOk(v: Version)
    requires VersionInv(v)
    ensures EditOk(Store.Snapshot(v))
  {
    forall l | 0 <= l < NUM_LEVELS
      ensures DistinctNumbers(AtLevel(v[l], l)) && forall n :: n in AtLevel(v[l], l) ==> n.level == l
    {
      FilesDiffer(v, l);
      AddedToLevel(v[l], l);
    }
    var a := AtLevel(v[0], 0);
    JoinDistinct(a, AtLevel(v[1], 1), 1);
    JoinDistinct(a + AtLevel(v[1], 1), AtLevel(v[2], 2), 2);
    JoinDistinct(a + AtLevel(v[1], 1) + AtLevel(v[2], 2), AtLevel(v[3], 3), 3);
    JoinDistinct(a + AtLevel(v[1], 1) + AtLevel(v[2], 2) + AtLevel(v[3], 3), AtLevel(v[4], 4), 4);
    JoinDistinct(a + AtLevel(v[1], 1) + AtLevel(v[2], 2) + AtLevel(v[3], 3) + AtLevel(v[4], 4), AtLevel(v[5], 5), 5);
    JoinDistinct(a + AtLevel(v[1], 1) + AtLevel(v[2], 2) + AtLevel(v[3], 3) + AtLevel(v[4], 4) + AtLevel(v[5], 5),
                 AtLevel(v[6], 6), 6);
  }

  lemma ReopenKeeps(db: Db, db': Db, recovered: Version, limit: nat, files: seq<File>, newLog: nat, nextFile: nat,
                    v: Version)
    requires Inv(db) && Recoverable(db) && CrashAndReopen(db, db', recovered, limit, files, newLog, nextFile, v)
    ensures Recoverable(db')
  {
    ReplayGivesCurrent(db.manifest, db.version, recovered);
    SnapshotOk(recovered);
    AddedToLevel(files, 0);
    var e := db'.manifest[1];
    assert db'.manifest == [Store.Snapshot(recovered)] + [e];
    OneMoreEdit([Store.Snapshot(recovered)], e);
  }

  /** Every step of the store keeps it so. */
  lemma StepKeepsRecoverable(db: Db, step: R.Step, db': Db)
    requires Inv(db) && Recoverable(db) && R.Next(db, step, db')
    ensures Recoverable(db')
  {
    match step
    case Flushed(files, level, v) => FlushKeeps(db, db', files, level, v);
    case Compacted(p, outputs, v) => CompactionKeeps(db, db', p, outputs, v);
    case Moved(p, v) => MoveKeeps(db, db', p, v);
    case Reopen(recovered, limit, files, newLog, nextFile, v) =>
      ReopenKeeps(db, db', recovered, limit, files, newLog, nextFile, v);
    case Switch => assert db.nextFile > db.logfileNumber;
    case Abandon(newLogs, junk, nextFile) => assert db.logfileNumber in db.logs;
    case _ =>
  }

  lemma CreatedIsRecoverable()
    ensures Recoverable(R.CREATED)
  {
    R.CreatedSatisfiesInv();
    var e := Edit(Some(3), Some(0), Some(4), Some(0), {}, []);
    SnapshotOk(EMPTY);
    OneMoreEdit([Store.Snapshot(EMPTY)], e);
    assert R.CREATED.manifest == [Store.Snapshot(EMPTY)] + [e];
  }

  lemma {:induction false} RunIsRecoverable(dbs: seq<Db>, steps: seq<R.Step>, i: nat)
    requires R.IsSafeRun(dbs, steps) && i < |dbs|
    ensures Inv(dbs[i]) && Recoverable(dbs[i])
  {
    R.SafeRunKeepsInv(dbs, steps, i);
    if i == 0 {
      CreatedIsRecoverable();
    } else {
      RunIsRecoverable(dbs, steps, i - 1);
      StepKeepsRecoverable(dbs[i - 1], steps[i - 1], dbs[i]);
    }
  }
}
