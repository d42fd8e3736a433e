/** Runs of the store from an empty database: what every reachable state guarantees. */
module StoreRuns {
  import opened InternalKeys
  import opened Visibility
  import opened Versions
  import opened VersionEdits
  import opened CompactionWork
  import opened CompactionPicking
  import opened CompactionSafety
  import opened CompactionEdges
  import opened Flush
  import opened History
  import opened Store
  import opened StoreInvariant
  import opened StoreWrites
  import opened StoreBackground
  import opened StoreRecovery

  datatype Step =
    | Append(record: Record)
    | Acknowledge
    | Switch
    | NewTable(entries: seq<Entry>)
    | TakeOffPending(number: nat)
    | FailFlush
    | Flushed(files: seq<File>, level: nat, version: Version)
    | Compacted(plan: Plan, outputs: seq<File>, version: Version)
    | Moved(plan: Plan, version: Version)
    | Collect
    | Snapshot
    | Release(index: nat)
    | Pin
    | Unpin(version: Version)
    | Reopen(recovered: Version, limit: nat, files: seq<File>, newLog: nat, nextFile: nat, version: Version)
    | Abandon(newLogs: set<nat>, junk: map<nat, seq<Entry>>, nextFile: nat)

  ghost predicate Next(db: Db, step: Step, db': Db) {
    match step
    case Append(r) => AppendLog(db, db', r)
    case Acknowledge => ApplyGroup(db, db')
    case Switch => SwitchMemtable(db, db')
    case NewTable(entries) => WriteTable(db, db', entries)
    case TakeOffPending(n) => Unprotect(db, db', n)
    case FailFlush => FlushFailed(db, db')
    case Flushed(files, level, v) => InstallFlush(db, db', files, level, v)
    case Compacted(p, outputs, v) => InstallCompaction(db, db', p, outputs, v)
    case Moved(p, v) => TrivialMove(db, db', p, v)
    case Collect => DeleteObsolete(db, db')
    case Snapshot => TakeSnapshot(db, db')
    case Release(i) => ReleaseSnapshot(db, db', i)
    case Pin => PinVersion(db, db')
    case Unpin(v) => UnpinVersion(db, db', v)
    case Reopen(recovered, limit, files, newLog, nextFile, v) =>
      CrashAndReopen(db, db', recovered, limit, files, newLog, nextFile, v)
    case Abandon(newLogs, junk, nextFile) => AbandonedRecovery(db, db', newLogs, junk, nextFile)
  }

  /** DB::Open on a new directory: NewDB's manifest is replaced at once by one that names log 3. */
  const CREATED := Db(
    map[3 := []],
    [Store.Snapshot(EMPTY), Edit(Some(3), Some(0), Some(4), Some(0), {}, [])],
    map[],
    EMPTY, {}, {}, None, 3, 3, 4, 0, [], {}, {}, None, [], 0, 0, 0)

  /** A compaction in this step is safe for the oldest snapshot; a file that is moved in it ends with a user key
      that no other file of the level continues. */
  ghost predicate Safe(db: Db, step: Step) {
    match step
    case Compacted(p, _, _) => ValidPlan(db.version, p) ==> SafeAt(db.version, p, SmallestSnapshot(db))
    case Moved(p, _) => ValidPlan(db.version, p) ==> p.level == 0 || !SplitsAKey(db.version[p.level], p.inputs0)
    case _ => true
  }

  /** The same as far as the files at the edges of the inputs show it, whatever the oldest snapshot. */
  ghost predicate Careful(db: Db, step: Step) {
    match step
    case Compacted(p, _, _) => ValidPlan(db.version, p) ==> SafeEdges(db.version, p)
    case Moved(p, _) => ValidPlan(db.version, p) ==> p.level == 0 || !SplitsAKey(db.version[p.level], p.inputs0)
    case _ => true
  }

  lemma CarefulIsSafe(db: Db, step: Step)
    requires Inv(db) && Careful(db, step)
    ensures Safe(db, step)
  {
    if step.Compacted? && ValidPlan(db.version, step.plan) {
      SafeExactlyAtEdges(db.version, step.plan);
    }
  }

  /** With some oldest snapshot a compaction with unsafe edges breaks the invariant of whatever store it runs in. */
  lemma CarelessBreaksInv(v: Version, p: Plan) returns (snapshot: nat)
    requires Ok(v) && ValidPlan(v, p) && !SafeEdges(v, p)
    ensures forall db, outputs, v', db' ::
              Inv(db) && db.version == v && SmallestSnapshot(db) == snapshot
                  && InstallCompaction(db, db', p, outputs, v')
              ==> !Inv(db')
  {
    hide Inv, InstallCompaction;
    SafeExactlyAtEdges(v, p);
    snapshot :| !SafeAt(v, p, snapshot);
    forall db, outputs, v', db' | Inv(db) && db.version == v && SmallestSnapshot(db) == snapshot
                                  && InstallCompaction(db, db', p, outputs, v')
      ensures !Inv(db')
    {
      InstallCompactionKeepsInv(db, db', p, outputs, v');
    }
  }

  // ---------- One step ----------

  /** Exactly the safe steps keep the invariant. */
  lemma StepKeepsInv(db: Db, step: Step, db': Db)
    requires Inv(db) && Next(db, step, db')
    ensures Inv(db') <==> Safe(db, step)
  {
    hide Inv, ValidPlan, Installs, AllWellFormed, LevelSorted, AppendLog, ApplyGroup, SwitchMemtable, WriteTable,
        InstallFlush, DeleteObsolete, CrashAndReopen, AbandonedRecovery, SafeAt;
    match step
    case Append(r) => AppendLogKeepsInv(db, db', r);
    case Acknowledge => ApplyGroupKeepsInv(db, db');
    case Switch => SwitchMemtableKeepsInv(db, db');
    case NewTable(entries) => WriteTableKeepsInv(db, db', entries);
    case TakeOffPending(n) => UnprotectKeepsInv(db, db', n);
    case FailFlush => FlushFailedKeepsInv(db, db');
    case Flushed(files, level, v) => InstallFlushKeepsInv(db, db', files, level, v);
    case Compacted(p, outputs, v) => InstallCompactionKeepsInv(db, db', p, outputs, v);
    case Moved(p, v) => TrivialMoveKeepsInv(db, db', p, v);
    case Collect => DeleteObsoleteKeepsInv(db, db');
    case Snapshot => TakeSnapshotKeepsInv(db, db');
    case Release(i) => ReleaseSnapshotKeepsInv(db, db', i);
    case Pin => PinVersionKeepsInv(db, db');
    case Unpin(v) => UnpinVersionKeepsInv(db, db', v);
    case Reopen(recovered, limit, files, newLog, nextFile, v) =>
      CrashAndReopenKeepsInv(db, db', recovered, limit, files, newLog, nextFile, v);
    case Abandon(newLogs, junk, nextFile) => AbandonedRecoveryKeepsInv(db, db', newLogs, junk, nextFile);
  }

  lemma EmptyVersion()
    ensures forall l :: 0 <= l < NUM_LEVELS ==> EMPTY[l] == []
    ensures All(EMPTY) == {} && Ok(EMPTY) && LevelsDisjoint(EMPTY)
  {
    forall l | 0 <= l < NUM_LEVELS ensures EMPTY[l] == [] && Contents(EMPTY[l]) == {} {}
  }

  lemma EmptyManifest()
    ensures ManifestInv(CREATED.manifest, EMPTY, 3, 4, 0, 0) && NumbersDescend(CREATED.manifest, EMPTY)
  {
    var e := Edit(Some(3), Some(0), Some(4), Some(0), {}, []);
    EmptyVersion();
    assert AtLevel([], 0) == [];
    forall l | 0 <= l < NUM_LEVELS
      ensures AfterAll({}, CREATED.manifest, l) == {} && EverNumbers(CREATED.manifest, l) == {}
      ensures NeverReadded({}, CREATED.manifest, l)
    {
      NewManifestLevels(EMPTY, e, [], l);
      SnapshotAdds(EMPTY, l);
    }
  }

  lemma EmptyReads()
    ensures ReadInv(EMPTY, [], 0, 0)
  {
    var none: seq<Op> := [];
    assert none[..0] == none;
    assert EntriesFrom(none[..0], 1) == {} == All(EMPTY) by {
      EmptyVersion();
    }
  }

  lemma CreatedSatisfiesInv()
    ensures Inv(CREATED) && LevelsDisjoint(CREATED.version)
  {
    EmptyVersion();
    EmptyManifest();
    EmptyReads();
    FreshStart(map[], 3, 4, []);
    EmptyVersionInv();
  }

  lemma EmptyVersionInv()
    ensures VersionInv(EMPTY) && OnDisk(map[], 4, EMPTY)
  {
    EmptyVersion();
  }

  // ---------- Steps without snapshots ----------

  lemma FlushDisjoint(db: Db, db': Db, files: seq<File>, level: nat, v: Version)
    requires Inv(db) && LevelsDisjoint(db.version) && InstallFlush(db, db', files, level, v)
    ensures LevelsDisjoint(db'.version) && db'.snapshots == db.snapshots
  {
    var e := CompletedEdit(db, db.logfileNumber, {}, AtLevel(files, level));
    if files == [] {
      NothingInstalled(db.version, e, v);
    } else {
      assert files == [files[0]];
      InstallPlaces(db.version, e, v, files[0], level);
      FlushKeepsDisjoint(db.version, files[0], level, v);
    }
  }

  lemma CompactionDisjoint(db: Db, db': Db, p: Plan, outputs: seq<File>, v: Version)
    requires Inv(db) && LevelsDisjoint(db.version) && db.snapshots == [] && InstallCompaction(db, db', p, outputs, v)
    ensures LevelsDisjoint(db'.version) && db'.snapshots == []
  {
    var e := CompletedEdit(db, db.logNumber, InputDeletions(p), AtLevel(outputs, p.level + 1));
    InstallReplaces(db.version, p, outputs, e, v);
    CompactionSafety.AllBefore(db.version, p);
    EntriesAreNumbered(db.history[..db.flushed], 1);
    CompactionKeepsDisjoint(db.version, p, db.lastSequence, outputs, v);
  }

  lemma MoveDisjoint(db: Db, db': Db, p: Plan, v: Version)
    requires Inv(db) && LevelsDisjoint(db.version) && TrivialMove(db, db', p, v)
    ensures LevelsDisjoint(db'.version) && db'.snapshots == db.snapshots
  {
    var e := CompletedEdit(db, db.logNumber, InputDeletions(p), AtLevel(p.inputs0, p.level + 1));
    InstallReplaces(db.version, p, p.inputs0, e, v);
    MoveKeepsDisjoint(db.version, p, v);
  }

  lemma ReopenDisjoint(db: Db, db': Db, recovered: Version, limit: nat, files: seq<File>, newLog: nat, nextFile: nat,
                       v: Version)
    requires Inv(db) && LevelsDisjoint(db.version)
    requires CrashAndReopen(db, db', recovered, limit, files, newLog, nextFile, v)
    ensures LevelsDisjoint(db'.version) && db'.snapshots == []
  {
    ReplayGivesCurrent(db.manifest, db.version, recovered);
    InstallDumps(recovered, files,
                 Edit(Some(newLog), Some(0), Some(nextFile), Some(db'.lastSequence), {}, AtLevel(files, 0)), v);
    forall l | 1 <= l < NUM_LEVELS ensures UserDisjoint(v[l]) {
      assert v[l] == db.version[l] && UserDisjoint(db.version[l]);
    }
  }

  lemma DisjointIsCareful(db: Db, p: Plan)
    requires Inv(db) && LevelsDisjoint(db.version)
    ensures ValidPlan(db.version, p) ==>
              SafeEdges(db.version, p) && (p.level == 0 || !SplitsAKey(db.version[p.level], p.inputs0))
  {
    hide LevelsDisjoint, ValidPlan, UncoversAt;
    if ValidPlan(db.version, p) {
      DisjointIsUnsplit(db.version, p);
      UnsplitExposesNothing(db.version, p);
    }
  }

  /** As long as no snapshot is held, compactions never find a split key and never make one. */
  lemma SnapshotFreeStep(db: Db, step: Step, db': Db)
    requires Inv(db) && LevelsDisjoint(db.version) && db.snapshots == [] && Next(db, step, db') && !step.Snapshot?
    ensures Careful(db, step) && LevelsDisjoint(db'.version) && db'.snapshots == []
  {
    hide Inv, LevelsDisjoint, InstallFlush, InstallCompaction, TrivialMove, CrashAndReopen, ValidPlan, SafeEdges;
    match step
    case Flushed(files, level, v) => FlushDisjoint(db, db', files, level, v);
    case Compacted(p, outputs, v) =>
      CompactionDisjoint(db, db', p, outputs, v);
      DisjointIsCareful(db, p);
    case Moved(p, v) =>
      MoveDisjoint(db, db', p, v);
      DisjointIsCareful(db, p);
    case Reopen(recovered, limit, files, newLog, nextFile, v) =>
      ReopenDisjoint(db, db', recovered, limit, files, newLog, nextFile, v);
    case _ =>
  }

  // ---------- Runs ----------

  ghost predicate IsRun(dbs: seq<Db>, steps: seq<Step>) {
    && |dbs| == |steps| + 1 && dbs[0] == CREATED
    && forall i :: 0 <= i < |steps| ==> Next(dbs[i], steps[i], dbs[i + 1])
  }

  ghost predicate IsSafeRun(dbs: seq<Db>, steps: seq<Step>) {
    IsRun(dbs, steps) && forall i :: 0 <= i < |steps| ==> Safe(dbs[i], steps[i])
  }

  ghost predicate IsSnapshotFreeRun(dbs: seq<Db>, steps: seq<Step>) {
    IsRun(dbs, steps) && forall i :: 0 <= i < |steps| ==> !steps[i].Snapshot?
  }

  /** Every state of a safe run satisfies the invariant. */
  lemma {:induction false} SafeRunKeepsInv(dbs: seq<Db>, steps: seq<Step>, i: nat)
    requires IsSafeRun(dbs, steps) && i < |dbs|
    ensures Inv(dbs[i])
  {
    if i == 0 {
      CreatedSatisfiesInv();
    } else {
      SafeRunKeepsInv(dbs, steps, i - 1);
      StepKeepsInv(dbs[i - 1], steps[i - 1], dbs[i]);
    }
  }

  /** And the safe runs are exactly those all of whose states satisfy it. */
  lemma SafeRunsExactly(dbs: seq<Db>, steps: seq<Step>)
    requires IsRun(dbs, steps)
    ensures IsSafeRun(dbs, steps) <==> forall i :: 0 <= i < |dbs| ==> Inv(dbs[i])
  {
    hide Inv, Safe, Next;
    if IsSafeRun(dbs, steps) {
      forall i | 0 <= i < |dbs| ensures Inv(dbs[i]) {
        SafeRunKeepsInv(dbs, steps, i);
      }
    } else {
      var i :| 0 <= i < |steps| && !Safe(dbs[i], steps[i]);
      if Inv(dbs[i]) {
        StepKeepsInv(dbs[i], steps[i], dbs[i + 1]);
      }
    }
  }

  /** A run without snapshots is safe by itself, and no two files of one of its sorted levels share
      a user key. */
  lemma {:induction false} SnapshotFreeRunIsCareful(dbs: seq<Db>, steps: seq<Step>, i: nat)
    requires IsSnapshotFreeRun(dbs, steps) && i < |dbs|
    ensures Inv(dbs[i]) && LevelsDisjoint(dbs[i].version) && dbs[i].snapshots == []
    ensures forall j :: 0 <= j < i ==> Careful(dbs[j], steps[j])
  {
    if i == 0 {
      CreatedSatisfiesInv();
    } else {
      SnapshotFreeRunIsCareful(dbs, steps, i - 1);
      SnapshotFreeStep(dbs[i - 1], steps[i - 1], dbs[i]);
      CarefulIsSafe(dbs[i - 1], steps[i - 1]);
      StepKeepsInv(dbs[i - 1], steps[i - 1], dbs[i]);
    }
  }

  /** What is acknowledged stays; a step adds at most the group that is in flight. */
  lemma HistoryGrows(db: Db, step: Step, db': Db)
    requires Next(db, step, db')
    ensures db'.history == db.history || db'.history == db.history + InflightOps(db)
    ensures step.Acknowledge? || step.Reopen? ==> db'.history == db.history + InflightOps(db)
  {
  }

  lemma {:induction false} AcknowledgedIsKept(dbs: seq<Db>, steps: seq<Step>, i: nat, j: nat)
    requires IsRun(dbs, steps) && i <= j < |dbs|
    ensures dbs[i].history <= dbs[j].history
  {
    if i < j {
      AcknowledgedIsKept(dbs, steps, i, j - 1);
      HistoryGrows(dbs[j - 1], steps[j - 1], dbs[j]);
    }
  }

  /** Crash safety: in every later state of the run, through any crashes, the store reads as the map of
      an operation sequence that starts with everything acknowledged before. */
  lemma NothingAcknowledgedIsLost(dbs: seq<Db>, steps: seq<Step>, i: nat, j: nat, k: Key)
    requires IsSafeRun(dbs, steps) && i <= j < |dbs|
    ensures dbs[i].history <= dbs[j].history && dbs[j].lastSequence == |dbs[j].history|
    ensures forall e :: e in Visible(dbs[j]) ==> e.key.sequence <= dbs[j].lastSequence
    ensures Read(Visible(dbs[j]), k, dbs[j].lastSequence) == ValueAt(MapOf(dbs[j].history), k)
  {
    AcknowledgedIsKept(dbs, steps, i, j);
    SafeRunKeepsInv(dbs, steps, j);
    var db := dbs[j];
    ReadsAreMaps(db, k, db.lastSequence);
    assert db.history[..|db.history|] == db.history;
    VisibleIsTablesAndRest(db);
    WholeHistory(db.history, db.flushed);
    EntriesAreNumbered(db.history, 1);
  }

  /** A snapshot reads the same in every state of the run in which it is held. */
  lemma SnapshotsAreStable(dbs: seq<Db>, steps: seq<Step>, i: nat, j: nat, s: nat, k: Key)
    requires IsSafeRun(dbs, steps) && i <= j < |dbs|
    requires s in dbs[i].snapshots && s in dbs[j].snapshots
    ensures s <= |dbs[i].history|
    ensures Read(Visible(dbs[i]), k, s) == Read(Visible(dbs[j]), k, s) == ValueAt(MapOf(dbs[i].history[..s]), k)
  {
    AcknowledgedIsKept(dbs, steps, i, j);
    SafeRunKeepsInv(dbs, steps, i);
    SafeRunKeepsInv(dbs, steps, j);
    HeldSnapshot(dbs[i], s);
    HeldSnapshot(dbs[j], s);
    ReadsAreMaps(dbs[i], k, s);
    ReadsAreMaps(dbs[j], k, s);
    assert dbs[j].history[..s] == dbs[i].history[..s];
  }

  lemma HeldSnapshot(db: Db, s: nat)
    requires SnapshotInv(db.snapshots, db.lastSequence) && s in db.snapshots
    ensures SmallestSnapshot(db) <= s <= db.lastSequence
  {
  }
}
