/** The writing steps and the reader steps keep the invariant of the store. */
module StoreWrites {
  import opened InternalKeys
  import opened Versions
  import opened VersionEdits
  import opened History
  import opened Store
  import opened StoreInvariant
  import Coding

  // ---------- Logs ----------

  lemma {:induction false} SameLogs(a: map<nat, seq<Record>>, b: map<nat, seq<Record>>, lo: nat, hi: nat)
    requires forall n :: lo <= n < hi ==> LogAt(a, n) == LogAt(b, n)
    ensures LogRecords(a, lo, hi) == LogRecords(b, lo, hi)
    decreases hi - lo
  {
    if lo < hi {
      SameLogs(a, b, lo, hi - 1);
    }
  }

  lemma {:induction false} EmptyLogs(logs: map<nat, seq<Record>>, lo: nat, mid: nat, hi: nat)
    requires lo <= mid <= hi && forall n :: mid <= n < hi ==> LogAt(logs, n) == []
    ensures LogRecords(logs, lo, hi) == LogRecords(logs, lo, mid)
    decreases hi - mid
  {
    if mid < hi {
      EmptyLogs(logs, lo, mid, hi - 1);
    }
  }

  // ---------- Steps ----------

  lemma AppendLogKeepsInv(db: Db, db': Db, r: Record)
    requires Inv(db) && AppendLog(db, db', r)
    ensures Inv(db')
  {
    SameLogs(db.logs, db'.logs, db.logNumber, db.logfileNumber);
    var newer := db.logs[db.logfileNumber];
    assert (newer + [r])[..|newer + [r]| - 1] == newer;
    assert db.history[db.switched..] + [] == db.history[db.switched..];
  }

  lemma ApplyGroupKeepsInv(db: Db, db': Db)
    requires Inv(db) && ApplyGroup(db, db')
    ensures Inv(db')
  {
    ApplyGroupKeepsMem(db, db');
    ApplyGroupKeepsLogs(db, db');
    assert db'.history[..db.flushed] == db.history[..db.flushed];
    assert SmallestSnapshot(db) <= SmallestSnapshot(db');
  }

  lemma ApplyGroupKeepsMem(db: Db, db': Db)
    requires MemInv(db.mem, db.imm, db.history, db.flushed, db.switched)
    requires ApplyGroup(db, db') && db.inflight.value.first == |db.history| + 1
    ensures MemInv(db'.mem, db'.imm, db'.history, db'.flushed, db'.switched)
  {
    var ops := db.inflight.value.ops;
    var h, h' := db.history, db'.history;
    assert h'[db.flushed..db.switched] == h[db.flushed..db.switched];
    assert h'[db.switched..] == h[db.switched..] + ops;
    EntriesOfConcat(h[db.switched..], ops, db.switched + 1);
  }

  lemma ApplyGroupKeepsLogs(db: Db, db': Db)
    requires LogInv(db.logs, db.logNumber, db.logfileNumber, db.nextFile, db.history, db.flushed, db.switched,
                    InflightOps(db))
    requires ApplyGroup(db, db')
    ensures LogInv(db'.logs, db'.logNumber, db'.logfileNumber, db'.nextFile, db'.history, db'.flushed, db'.switched,
                   InflightOps(db'))
  {
    var h, h' := db.history, db'.history;
    assert h'[db.flushed..db.switched] == h[db.flushed..db.switched];
    assert h'[db.switched..] == h[db.switched..] + db.inflight.value.ops;
    assert h'[db.switched..] + [] == h'[db.switched..];
  }

  lemma SwitchMemtableKeepsInv(db: Db, db': Db)
    requires Inv(db) && SwitchMemtable(db, db')
    ensures Inv(db')
  {
    hide VersionInv, NumbersDescend, ReadInv, LogInv, TableInv, Replayed;
    var h := db.history;
    SwitchKeepsLogs(db.logs, db.logNumber, db.logfileNumber, db.nextFile, h, db.flushed);
    assert h[|h|..] == [] && h[db.switched..|h|] == h[db.switched..];
    MoreNumbers(db.tables, db.version, db.pinned, db.nextFile, db'.nextFile);
    BelowFloor(db.tables, db.version, db.pinned, db.nextFile);
  }

  lemma BelowFloor(tables: map<nat, seq<Entry>>, v: Version, pinned: set<Version>, nextFile: nat)
    requires TableInv(tables, nextFile, v, pinned)
    ensures forall g :: g in v[0] ==> g.number < nextFile
  {
  }

  lemma MoreNumbers(tables: map<nat, seq<Entry>>, v: Version, pinned: set<Version>, nextFile: nat, nextFile': nat)
    requires TableInv(tables, nextFile, v, pinned) && nextFile <= nextFile'
    ensures TableInv(tables, nextFile', v, pinned)
  {
    forall w | w in pinned ensures OnDisk(tables, nextFile', w) {
      assert OnDisk(tables, nextFile, w);
    }
  }

  /** All that the logs hold: what the version set's log number leaves of the older ones, then the current one. */
  lemma AllRecords(logs: map<nat, seq<Record>>, logNumber: nat, logfileNumber: nat, limit: nat)
    requires logfileNumber in logs && logNumber <= logfileNumber < limit
    requires forall n :: n in logs && n > logfileNumber ==> logs[n] == []
    ensures LogRecords(logs, logNumber, limit) == LogRecords(logs, logNumber, logfileNumber) + logs[logfileNumber]
  {
    EmptyLogs(logs, logNumber, logfileNumber + 1, limit);
  }

  lemma AllRecordsAreTheRest(logs: map<nat, seq<Record>>, logNumber: nat, logfileNumber: nat, nextFile: nat,
                             h: seq<Op>, flushed: nat, switched: nat, inflight: seq<Op>, limit: nat)
    requires LogInv(logs, logNumber, logfileNumber, nextFile, h, flushed, switched, inflight)
    requires logfileNumber < limit
    ensures var records := LogRecords(logs, logNumber, limit);
            Consecutive(records, flushed + 1) && Ops(records) == h[flushed..] + inflight
  {
    var older, newer := LogRecords(logs, logNumber, logfileNumber), logs[logfileNumber];
    AllRecords(logs, logNumber, logfileNumber, limit);
    ConsecutiveConcat(older, newer, flushed + 1);
    OpsOfConcat(older, newer);
    RestOfHistory(h, flushed, switched, inflight);
    hide LogRecords, Consecutive, Ops;
  }

  lemma RestOfHistory(h: seq<Op>, flushed: nat, switched: nat, inflight: seq<Op>)
    requires flushed <= switched <= |h|
    ensures h[flushed..switched] + (h[switched..] + inflight) == h[flushed..] + inflight
  {
    Coding.Associate(h[flushed..switched], h[switched..], inflight);
  }

  lemma NoRecords(first: nat)
    ensures Consecutive([], first) && Ops([]) == []
  {
  }

  lemma SwitchKeepsLogs(logs: map<nat, seq<Record>>, logNumber: nat, logfileNumber: nat, nextFile: nat, h: seq<Op>,
                        flushed: nat)
    requires LogInv(logs, logNumber, logfileNumber, nextFile, h, flushed, flushed, [])
    ensures LogInv(logs[nextFile := []], logNumber, nextFile, nextFile + 1, h, flushed, |h|, [])
  {
    hide Consecutive, Ops, LogRecords;
    NoRecords(|h| + 1);
    AllRecordsAreTheRest(logs, logNumber, logfileNumber, nextFile, h, flushed, flushed, [], nextFile);
    SameLogs(logs, logs[nextFile := []], logNumber, nextFile);
    assert h[flushed..] + [] == h[flushed..|h|] && h[|h|..] + [] == [];
  }

  lemma TakeSnapshotKeepsInv(db: Db, db': Db)
    requires Inv(db) && TakeSnapshot(db, db')
    ensures Inv(db')
  {
    assert SmallestSnapshot(db') == SmallestSnapshot(db);
  }

  lemma ReleaseSnapshotKeepsInv(db: Db, db': Db, i: nat)
    requires Inv(db) && ReleaseSnapshot(db, db', i)
    ensures Inv(db')
  {
    assert SmallestSnapshot(db) <= SmallestSnapshot(db');
  }

  lemma PinVersionKeepsInv(db: Db, db': Db)
    requires Inv(db) && PinVersion(db, db')
    ensures Inv(db')
  {
    assert OnDisk(db.tables, db.nextFile, db.version);
  }

  lemma UnpinVersionKeepsInv(db: Db, db': Db, v: Version)
    requires Inv(db) && UnpinVersion(db, db', v)
    ensures Inv(db')
  {
  }

  lemma WriteTableKeepsInv(db: Db, db': Db, entries: seq<Entry>)
    requires Inv(db) && WriteTable(db, db', entries)
    ensures Inv(db')
  {
    NewPending(db.pending + db.unprotected, db.manifest, db.version, db.nextFile);
    assert db'.pending + db'.unprotected == db.pending + db.unprotected + {db.nextFile};
    NewTableElsewhere(db.tables, db.nextFile, entries, db.version);
    forall w | w in db.pinned ensures OnDisk(db'.tables, db'.nextFile, w) {
      NewTableElsewhere(db.tables, db.nextFile, entries, w);
    }
  }

  lemma UnprotectKeepsInv(db: Db, db': Db, n: nat)
    requires Inv(db) && Unprotect(db, db', n)
    ensures Inv(db')
  {
    assert db'.pending + db'.unprotected == db.pending + db.unprotected;
  }

  lemma FlushFailedKeepsInv(db: Db, db': Db)
    requires Inv(db) && FlushFailed(db, db')
    ensures Inv(db')
  {
  }

  lemma NewPending(pending: set<nat>, m: seq<Edit>, v: Version, nextFile: nat)
    requires PendingInv(pending, m, nextFile) && NumbersDescend(m, v) && LastNextFile(m) <= nextFile
    ensures PendingInv(pending + {nextFile}, m, nextFile + 1)
  {
    forall l | 0 <= l < NUM_LEVELS ensures nextFile !in EverNumbers(m, l) {
    }
  }

  lemma NewTableElsewhere(tables: map<nat, seq<Entry>>, nextFile: nat, entries: seq<Entry>, v: Version)
    requires OnDisk(tables, nextFile, v)
    ensures OnDisk(tables[nextFile := entries], nextFile + 1, v)
  {
  }

  /** Nothing a reader, a flush, a compaction or a recovery still needs is deleted. */
  lemma DeleteObsoleteKeepsInv(db: Db, db': Db)
    requires Inv(db) && DeleteObsolete(db, db')
    ensures Inv(db')
    ensures LogRecords(db'.logs, db.logNumber, db.nextFile) == LogRecords(db.logs, db.logNumber, db.nextFile)
    ensures forall n :: n in db.pending && n in db.tables ==> n in db'.tables && db'.tables[n] == db.tables[n]
  {
    SameLogs(db.logs, db'.logs, db.logNumber, db.logfileNumber);
    SameLogs(db.logs, db'.logs, db.logNumber, db.nextFile);
    LiveTablesStay(db.tables, db'.tables, db.nextFile, db.version);
    forall w | w in db.pinned ensures OnDisk(db'.tables, db.nextFile, w) {
      LiveTablesStay(db.tables, db'.tables, db.nextFile, w);
    }
  }

  /** Nothing else stays: afterwards there are the tables of the current version and of those that readers hold, the
      tables that are being written, and the logs from the version set's log number on. (No log has number 0.) */
  lemma NothingObsoleteStays(db: Db, db': Db, n: nat)
    requires Inv(db) && 0 !in db.logs && DeleteObsolete(db, db')
    ensures n in db'.tables <==>
            || (exists v: Version, l: nat,
                f :: (v == db.version || v in db.pinned) && 0 <= l < NUM_LEVELS && f in v[l] && f.number == n)
            || (n in db.pending && n in db.tables)
    ensures n in db'.logs <==> n in db.logs && db.logNumber <= n
    ensures n in db'.tables ==> db'.tables[n] == db.tables[n]
    ensures n in db'.logs ==> db'.logs[n] == db.logs[n]
  {
    forall v | v == db.version || v in db.pinned ensures OnDisk(db.tables, db.nextFile, v) {
    }
    forall v: Version, l: nat, f | (v == db.version || v in db.pinned) && 0 <= l < NUM_LEVELS && f in v[l]
        && f.number == n
      ensures n in LiveNumbers(v) && n in db.tables
    {
      assert OnDisk(db.tables, db.nextFile, v);
    }
    if n in db'.tables && n !in db.pending {
      var v: Version :| (v == db.version || v in db.pinned) && n in LiveNumbers(v);
      var l: nat, f :| l < NUM_LEVELS && f in v[l] && f.number == n;
    }
  }

  lemma LiveTablesStay(tables: map<nat, seq<Entry>>, tables': map<nat, seq<Entry>>, nextFile: nat, v: Version)
    requires OnDisk(tables, nextFile, v)
    requires forall n :: n in LiveNumbers(v) && n in tables ==> n in tables' && tables'[n] == tables[n]
    ensures OnDisk(tables', nextFile, v)
  {
    forall l, f | 0 <= l < NUM_LEVELS && f in v[l] ensures f.number in tables' && tables'[f.number] == f.entries {
      assert f.number in LiveNumbers(v);
    }
  }
}
