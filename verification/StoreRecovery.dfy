/** A crash at any point, and the recovery after it, keeps the invariant: the recovered store answers
    for every operation that was acknowledged, and for the group in flight if its record was complete. */
module StoreRecovery {
  import opened InternalKeys
  import opened Visibility
  import opened Versions
  import opened VersionEdits
  import opened CompactionWork
  import Flush
  import opened History
  import opened Store
  import opened StoreInvariant
  import opened StoreWrites
  import opened StoreBackground

  lemma ReplayGivesCurrent(m: seq<Edit>, v: Version, recovered: Version)
    requires Replayed(m, v) && Replayed(m, recovered)
    ensures recovered == v
  {
    forall l | 0 <= l < NUM_LEVELS ensures recovered[l] == v[l] {
      assert forall f :: f in recovered[l] <==> f in Members(recovered[l]);
      assert forall f :: f in v[l] <==> f in Members(v[l]);
      AscendingIsUnique(recovered[l], v[l]);
    }
  }

  // ---------- Level 0 after the logs were written to tables ----------

  lemma DumpedLevelZero(v: Version, files: seq<File>, v': Version, bound: nat)
    requires NewerByNumber(v[0]) && Members(v'[0]) == Members(v[0]) + Members(files) && Ascending(v'[0])
    requires forall g :: g in v[0] ==> g.number < bound
    requires forall f :: f in files ==> f.number >= bound
    requires IncreasingNumbers(files)
    requires NewerThan(Contents(files), All(v))
    requires forall i, j, e, x :: 0 <= i < j < |files| && e in files[i].entries && x in files[j].entries
                                  ==> e.key.sequence < x.key.sequence
    ensures NewerByNumber(v'[0])
  {
    forall g | g in v'[0] ensures g in v[0] || g in files {
      assert g in Members(v'[0]);
    }
    forall i, j | 0 <= i < j < |v'[0]| ensures v'[0][i].number != v'[0][j].number {
      var g, h := v'[0][i], v'[0][j];
      assert g in v'[0] && h in v'[0] && BySmallest(g, h) && !BySmallest(g, g);
      DifferentNumbers(v, files, bound, g, h);
    }
    forall g, h | g in v'[0] && h in v'[0] && g.number > h.number ensures NewerThan(Contents([g]), Contents([h])) {
      DumpedIsNewer(v, files, bound, g, h);
    }
  }

  lemma DifferentNumbers(v: Version, files: seq<File>, bound: nat, g: File, h: File)
    requires NewerByNumber(v[0]) && g != h && (g in v[0] || g in files) && (h in v[0] || h in files)
    requires forall f :: f in v[0] ==> f.number < bound
    requires forall f :: f in files ==> f.number >= bound
    requires IncreasingNumbers(files)
    ensures g.number != h.number
  {
    if g in v[0] && h in v[0] {
      Flush.SameNumberSameFile(v[0], g, h);
    } else if g in files && h in files {
      var i :| 0 <= i < |files| && files[i] == g;
      var j :| 0 <= j < |files| && files[j] == h;
      assert i < j || j < i;
    }
  }

  lemma DumpedIsNewer(v: Version, files: seq<File>, bound: nat, g: File, h: File)
    requires NewerByNumber(v[0]) && (g in v[0] || g in files) && (h in v[0] || h in files) && g.number > h.number
    requires forall f :: f in v[0] ==> f.number < bound
    requires forall f :: f in files ==> f.number >= bound
    requires IncreasingNumbers(files)
    requires NewerThan(Contents(files), All(v))
    requires forall i, j, e, x :: 0 <= i < j < |files| && e in files[i].entries && x in files[j].entries
                                  ==> e.key.sequence < x.key.sequence
    ensures NewerThan(Contents([g]), Contents([h]))
  {
    if g in v[0] {
      assert h in v[0];
    } else if h in v[0] {
      assert Contents([g]) <= Contents(files);
      assert Contents([h]) <= Contents(v[0]) <= All(v);
    } else {
      var i :| 0 <= i < |files| && files[i] == g;
      var j :| 0 <= j < |files| && files[j] == h;
      assert j < i;
      forall e, x | e in Contents([g]) && x in Contents([h]) ensures e.key.sequence > x.key.sequence {
        assert x in files[j].entries && e in files[i].entries;
      }
    }
  }

  lemma DumpedContents(v: Version, files: seq<File>, v': Version)
    requires Members(v'[0]) == Members(v[0]) + Members(files)
    requires forall l :: 1 <= l < NUM_LEVELS ==> v'[l] == v[l]
    ensures Contents(v'[0]) == Contents(v[0]) + Contents(files)
    ensures All(v') == All(v) + Contents(files)
  {
    assert forall f :: f in v'[0] <==> f in Members(v'[0]);
    assert forall f :: f in v[0] <==> f in Members(v[0]);
    assert forall f :: f in files <==> f in Members(files);
    assert Contents(v'[0]) == Contents(v[0]) + Contents(files);
    forall e | e in All(v') ensures e in All(v) + Contents(files) {
      var l :| 0 <= l < NUM_LEVELS && e in Contents(v'[l]);
    }
    forall e | e in All(v) ensures e in All(v') {
      var l :| 0 <= l < NUM_LEVELS && e in Contents(v[l]);
      assert l > 0 ==> v'[l] == v[l];
      assert e in Contents(v'[l]);
    }
    forall e | e in Contents(files) ensures e in All(v') {
      assert e in Contents(v'[0]);
    }
  }

  /** Level 0 may take any number of newer tables at once. */
  lemma DumpKeepsOk(v: Version, files: seq<File>, v': Version, bound: nat)
    requires Ok(v) && AllWellFormed(files) && NewerThan(Contents(files), All(v))
    requires Members(v'[0]) == Members(v[0]) + Members(files) && Ascending(v'[0])
    requires forall l :: 1 <= l < NUM_LEVELS ==> v'[l] == v[l]
    requires forall g :: g in v[0] ==> g.number < bound
    requires forall f :: f in files ==> f.number >= bound
    requires IncreasingNumbers(files)
    requires forall i, j, e, x :: 0 <= i < j < |files| && e in files[i].entries && x in files[j].entries
                                  ==> e.key.sequence < x.key.sequence
    requires UniqueSequences(All(v) + Contents(files))
    ensures Ok(v') && All(v') == All(v) + Contents(files)
  {
    DumpedContents(v, files, v');
    DumpedLevelZero(v, files, v', bound);
    forall f | f in v'[0] ensures WellFormed(f) {
      assert f in Members(v'[0]) && (f in Members(v[0]) || f in Members(files));
      assert AllWellFormed(v[0]);
    }
    forall l | 0 <= l < NUM_LEVELS ensures AllWellFormed(v'[l]) && (l > 0 ==> LevelSorted(v'[l])) {
      assert AllWellFormed(v[l]) && (l > 0 ==> LevelSorted(v[l]));
    }
    forall l, m | 0 <= l < m < NUM_LEVELS ensures NewerThan(Contents(v'[l]), Contents(v'[m])) {
      assert NewerThan(Contents(v[l]), Contents(v[m]));
      assert Contents(v[m]) <= All(v);
    }
  }

  lemma {:induction false} SnapshotAdds(v: Version, l: nat)
    requires l < NUM_LEVELS
    ensures AddedAt(Snapshot(v), l) == Members(v[l])
  {
    AtLevelAddsThere(v[0], 0, l);
    AtLevelAddsThere(v[1], 1, l);
    AtLevelAddsThere(v[2], 2, l);
    AtLevelAddsThere(v[3], 3, l);
    AtLevelAddsThere(v[4], 4, l);
    AtLevelAddsThere(v[5], 5, l);
    AtLevelAddsThere(v[6], 6, l);
    AddedInConcat(v, l);
  }

  lemma AddedInBoth(a: seq<NewFile>, b: seq<NewFile>, l: nat)
    ensures AddedIn(a + b, l) == AddedIn(a, l) + AddedIn(b, l)
  {
    assert forall n :: n in a + b <==> n in a || n in b;
  }

  lemma AddedInConcat(v: Version, l: nat)
    requires l < NUM_LEVELS
    ensures AddedAt(Snapshot(v), l) ==
            AddedIn(AtLevel(v[0], 0), l) + AddedIn(AtLevel(v[1], 1), l) + AddedIn(AtLevel(v[2], 2), l)
            + AddedIn(AtLevel(v[3], 3), l) + AddedIn(AtLevel(v[4], 4), l) + AddedIn(AtLevel(v[5], 5), l)
            + AddedIn(AtLevel(v[6], 6), l)
  {
    var a1 := AtLevel(v[0], 0) + AtLevel(v[1], 1);
    var a2 := a1 + AtLevel(v[2], 2);
    var a3 := a2 + AtLevel(v[3], 3);
    var a4 := a3 + AtLevel(v[4], 4);
    var a5 := a4 + AtLevel(v[5], 5);
    AddedInBoth(AtLevel(v[0], 0), AtLevel(v[1], 1), l);
    AddedInBoth(a1, AtLevel(v[2], 2), l);
    AddedInBoth(a2, AtLevel(v[3], 3), l);
    AddedInBoth(a3, AtLevel(v[4], 4), l);
    AddedInBoth(a4, AtLevel(v[5], 5), l);
    AddedInBoth(a5, AtLevel(v[6], 6), l);
  }

  // ---------- What is recovered ----------

  ghost predicate NumbersBelow(v: Version, bound: nat) {
    forall l, f :: 0 <= l < NUM_LEVELS && f in v[l] ==> f.number < bound
  }

  lemma ManifestCoversNumbers(m: seq<Edit>, v: Version)
    requires Replayed(m, v) && NumbersDescend(m, v)
    ensures NumbersBelow(v, LastNextFile(m))
  {
    forall l, f | 0 <= l < NUM_LEVELS && f in v[l] ensures f.number < LastNextFile(m) {
      CurrentWasEver(m, l);
      assert f in Members(v[l]) && f.number in EverNumbers(m, l);
    }
  }

  /** The logs that the manifest does not cover hold the unflushed operations, in order. */
  lemma RecoveredRecords(logs: map<nat, seq<Record>>, logNumber: nat, logfileNumber: nat, nextFile: nat,
                         history: seq<Op>, flushed: nat, switched: nat, inflight: seq<Op>, limit: nat)
    requires LogInv(logs, logNumber, logfileNumber, nextFile, history, flushed, switched, inflight)
    requires forall n :: n in logs ==> n < limit
    ensures var records := LogRecords(logs, logNumber, limit);
            Consecutive(records, flushed + 1) && Ops(records) == (history + inflight)[flushed..]
  {
    AllRecordsAreTheRest(logs, logNumber, logfileNumber, nextFile, history, flushed, switched, inflight, limit);
    WithInflight(history, inflight, flushed);
  }

  lemma WithInflight(history: seq<Op>, inflight: seq<Op>, flushed: nat)
    requires flushed <= |history|
    ensures (history + inflight)[flushed..] == history[flushed..] + inflight
  {
  }

  lemma RecoveredSequence(records: seq<Record>, flushed: nat, manifestSequence: nat, h: seq<Op>)
    requires Consecutive(records, flushed + 1) && flushed <= manifestSequence <= |h| && Ops(records) == h[flushed..]
    ensures Max(manifestSequence, MaxSequence(records, 0)) == |h|
  {
    if records != [] {
      MaxSequenceIsLast(records, 0, flushed + 1);
    }
  }

  /** The recovered version answers for the whole history, including the group in flight. */
  lemma RecoveredReads(db: Db, records: seq<Record>, v: Version)
    requires Inv(db) && Consecutive(records, db.flushed + 1)
    requires Ops(records) == (db.history + InflightOps(db))[db.flushed..]
    requires All(v) == All(db.version) + Entries(records)
    ensures var h := db.history + InflightOps(db);
            ReadInv(v, h, |h|, |h|) && EntriesFrom(h[..|h|], 1) == EntriesFrom(h, 1)
  {
    var h := db.history + InflightOps(db);
    RecordsAreOps(records, db.flushed + 1);
    WholeHistory(h, db.flushed);
    assert h[..db.flushed] == db.history[..db.flushed] && h[..|h|] == h;
    var New, B := Entries(records), EntriesFrom(h[..db.flushed], 1);
    assert New + All(db.version) == All(v) && New + B == EntriesFrom(h, 1);
    assert SmallestSnapshot(db) <= |h|;
    forall k, s: nat | |h| <= s ensures Read(All(v), k, s) == Read(EntriesFrom(h[..|h|], 1), k, s) {
      SameBelowSameAbove(New, All(db.version), B, k, s);
    }
  }

  lemma InstallDumps(v: Version, files: seq<File>, e: Edit, v': Version)
    requires Installs(v, e, v') && e.deleted == {} && e.added == AtLevel(files, 0)
    requires forall l {:trigger Ascending(v[l])} :: 0 <= l < NUM_LEVELS ==> Ascending(v[l])
    ensures Members(v'[0]) == Members(v[0]) + Members(files) && Ascending(v'[0])
    ensures forall l :: 1 <= l < NUM_LEVELS ==> v'[l] == v[l]
  {
    AtLevelAddsThere(files, 0, 0);
    forall l | 1 <= l < NUM_LEVELS ensures v'[l] == v[l] {
      AtLevelAddsThere(files, 0, l);
      assert Ascending(v[l]) && Members(v'[l]) == Members(v[l]);
      assert forall f :: f in v'[l] <==> f in Members(v'[l]);
      assert forall f :: f in v[l] <==> f in Members(v[l]);
      AscendingIsUnique(v'[l], v[l]);
    }
  }

  lemma RecoveredVersion(v: Version, m: seq<Edit>, h: seq<Op>, flushed: nat, records: seq<Record>, files: seq<File>,
                         e: Edit, v': Version)
    requires VersionInv(v) && Replayed(m, v) && NumbersDescend(m, v)
    requires flushed <= |h| && All(v) <= EntriesFrom(h[..flushed], 1)
    requires Consecutive(records, flushed + 1) && Ops(records) == h[flushed..]
    requires Dumps(records, files, LastNextFile(m) + 1)
    requires Installs(v, e, v') && e.deleted == {} && e.added == AtLevel(files, 0)
    ensures Ok(v') && All(v') == All(v) + Entries(records) && All(v') <= EntriesFrom(h, 1)
  {
    RecordsAreOps(records, flushed + 1);
    WholeHistory(h, flushed);
    assert All(v) + Contents(files) <= EntriesFrom(h, 1);
    InstallDumps(v, files, e, v');
    ManifestCoversNumbers(m, v);
    DumpKeepsOk(v, files, v', LastNextFile(m));
  }

  // ---------- The new manifest ----------

  lemma NewManifestLevels(v: Version, e: Edit, files: seq<File>, l: nat)
    requires l < NUM_LEVELS && e.added == AtLevel(files, 0)
    ensures var m := [Snapshot(v), e];
            && AfterAll({}, m, l) == After(Members(v[l]), e, l)
            && Ever({}, m, l) == Members(v[l]) + (if l == 0 then Members(files) else {})
            && EverNumbers(m, l) == Numbers(Members(v[l])) + (if l == 0 then Numbers(Members(files)) else {})
            && m[..0] == [] && m[..1] == [Snapshot(v)] && Ever({}, [Snapshot(v)], l) == Members(v[l])
  {
    var m := [Snapshot(v), e];
    assert m[..|m| - 1] == [Snapshot(v)] && [Snapshot(v)][..0] == [];
    SnapshotAdds(v, l);
    AtLevelAddsThere(files, 0, l);
    var one := [Snapshot(v)];
    assert Ever({}, one, l) == Ever({}, one[..0], l) + AddedAt(one[0], l);
    assert AfterAll({}, one, l) == After(AfterAll({}, one[..0], l), one[0], l) == Members(v[l]);
    if l == 0 {
      NumbersOfUnion(Members(v[l]), Members(files));
    } else {
      assert Members(v[l]) + {} == Members(v[l]);
    }
  }

  lemma NewManifestReplays(v: Version, e: Edit, files: seq<File>, v': Version)
    requires Installs(v, e, v') && e.added == AtLevel(files, 0)
    ensures Replayed([Snapshot(v), e], v')
  {
    forall l | 0 <= l < NUM_LEVELS ensures Ascending(v'[l]) && Members(v'[l]) == AfterAll({}, [Snapshot(v), e], l) {
      NewManifestLevels(v, e, files, l);
    }
  }

  lemma NewManifestDescends(m: seq<Edit>, v: Version, e: Edit, files: seq<File>, v': Version)
    requires Replayed(m, v) && NumbersDescend(m, v)
    requires Installs(v, e, v') && e.deleted == {} && e.added == AtLevel(files, 0) && e.nextFileNumber.Some?
    requires forall f :: f in files ==> LastNextFile(m) < f.number < e.nextFileNumber.value
    requires LastNextFile(m) < e.nextFileNumber.value
    requires forall l {:trigger Ascending(v[l])} :: 0 <= l < NUM_LEVELS ==> Ascending(v[l])
    ensures NumbersDescend([Snapshot(v), e], v')
  {
    var m' := [Snapshot(v), e];
    ManifestCoversNumbers(m, v);
    InstallDumps(v, files, e, v');
    forall l | 0 <= l < NUM_LEVELS
      ensures NeverReadded({}, m', l)
      ensures forall n :: n in EverNumbers(m', l) ==> n < LastNextFile(m')
    {
      NewManifestLevels(v, e, files, l);
      SnapshotAdds(v, l);
      AtLevelAddsThere(files, 0, l);
      assert forall f :: f in Members(v[l]) ==> f.number < LastNextFile(m);
      forall i | 0 <= i < |m'| ensures Numbers(Ever({}, m'[..i], l)) !! Numbers(AddedAt(m'[i], l)) {
        assert i == 0 || i == 1;
      }
    }
    forall l, k, f | 0 <= l < k < NUM_LEVELS && f in v'[l] ensures f.number !in EverNumbers(m', k) {
      NewManifestLevels(v, e, files, k);
      NoNumberTwice(m, v, files, v', l, k, f);
    }
  }

  lemma NoNumberTwice(m: seq<Edit>, v: Version, files: seq<File>, v': Version, l: nat, k: nat, f: File)
    requires Replayed(m, v) && NumbersDescend(m, v) && NumbersBelow(v, LastNextFile(m))
    requires Members(v'[0]) == Members(v[0]) + Members(files) && forall i :: 1 <= i < NUM_LEVELS ==> v'[i] == v[i]
    requires forall g :: g in files ==> LastNextFile(m) < g.number
    requires l < k < NUM_LEVELS && f in v'[l]
    ensures f.number !in Numbers(Members(v[k]))
  {
    assert f in Members(v'[l]);
    CurrentWasEver(m, k);
    NumbersOfPart(Members(v[k]), Ever({}, m, k));
    if f in v[l] {
      assert f.number !in EverNumbers(m, k);
    } else {
      assert l == 0 && f in files;
      assert forall g :: g in Members(v[k]) ==> g.number < LastNextFile(m);
    }
  }

  lemma NewTablesOnDisk(tables: map<nat, seq<Entry>>, nextFile: nat, v: Version, files: seq<File>, v': Version,
                        nextFile': nat, bound: nat)
    requires OnDisk(tables, nextFile, v) && NumbersBelow(v, bound) && bound <= nextFile'
    requires Members(v'[0]) == Members(v[0]) + Members(files) && forall l :: 1 <= l < NUM_LEVELS ==> v'[l] == v[l]
    requires forall f :: f in files ==> bound < f.number < nextFile'
    requires IncreasingNumbers(files)
    ensures OnDisk(tables + TablesOf(files), nextFile', v')
  {
    forall l, f | 0 <= l < NUM_LEVELS && f in v'[l]
      ensures f.number in tables + TablesOf(files) && (tables + TablesOf(files))[f.number] == f.entries
              && f.number < nextFile'
    {
      assert f in Members(v'[l]);
      if f !in files {
        OldTableStays(tables, nextFile, v, files, bound, l, f);
      }
    }
  }

  lemma OldTableStays(tables: map<nat, seq<Entry>>, nextFile: nat, v: Version, files: seq<File>, bound: nat, l: nat,
                      f: File)
    requires OnDisk(tables, nextFile, v) && NumbersBelow(v, bound) && l < NUM_LEVELS && f in v[l]
    requires IncreasingNumbers(files) && forall g :: g in files ==> bound < g.number
    ensures f.number < bound && f.number in tables + TablesOf(files)
            && (tables + TablesOf(files))[f.number] == f.entries
  {
  }

  lemma DistinctAfterDumps(v: Version, files: seq<File>, v': Version, bound: nat)
    requires VersionInv(v) && Ok(v')
             && (forall l {:trigger Ascending(v'[l])} :: 0 <= l < NUM_LEVELS ==> Ascending(v'[l]))
    requires Members(v'[0]) == Members(v[0]) + Members(files) && forall l :: 1 <= l < NUM_LEVELS ==> v'[l] == v[l]
    requires NumbersBelow(v, bound) && forall f :: f in files ==> bound < f.number
    requires IncreasingNumbers(files)
    ensures VersionInv(v')
  {
    assert NewerByNumber(v'[0]);
    forall l, f, g | 0 <= l < NUM_LEVELS && f in v'[l] && g in v'[l] && f.number == g.number ensures f == g {
      if l == 0 && f != g {
        Flush.SameNumberSameFile(v'[0], f, g);
      }
    }
  }

  // ---------- The steps ----------

  /** What the recovery reads from disk is what was in memory and what the log held of the group in flight. */
  lemma RecoveredFromDisk(db: Db, db': Db, recovered: Version, limit: nat, files: seq<File>, newLog: nat,
                          nextFile: nat, v: Version)
    requires Inv(db) && CrashAndReopen(db, db', recovered, limit, files, newLog, nextFile, v)
    ensures recovered == db.version
    ensures db'.lastSequence == |db'.history| && db'.history == db.history + InflightOps(db)
    ensures var records := LogRecords(db.logs, db.logNumber, limit);
            Consecutive(records, db.flushed + 1) && Ops(records) == db'.history[db.flushed..]
  {
    ReplayGivesCurrent(db.manifest, db.version, recovered);
    RecoveredRecords(db.logs, db.logNumber, db.logfileNumber, db.nextFile, db.history, db.flushed, db.switched,
                     InflightOps(db), limit);
    RecoveredSequence(LogRecords(db.logs, db.logNumber, limit), db.flushed, LastLastSequence(db.manifest), db'.history);
  }

  lemma RecoveredContents(db: Db, h: seq<Op>, records: seq<Record>, files: seq<File>, e: Edit, v: Version)
    requires Inv(db) && h == db.history + InflightOps(db)
    requires Consecutive(records, db.flushed + 1) && Ops(records) == h[db.flushed..]
    requires Dumps(records, files, LastNextFile(db.manifest) + 1)
    requires Installs(db.version, e, v) && e.deleted == {} && e.added == AtLevel(files, 0)
    ensures Ok(v) && All(v) <= EntriesFrom(h, 1) && ReadInv(v, h, |h|, |h|)
  {
    assert h[..db.flushed] == db.history[..db.flushed];
    RecoveredVersion(db.version, db.manifest, h, db.flushed, records, files, e, v);
    RecoveredReads(db, records, v);
  }

  lemma CrashAndReopenKeepsInv(db: Db, db': Db, recovered: Version, limit: nat, files: seq<File>, newLog: nat,
                               nextFile: nat, v: Version)
    requires Inv(db) && CrashAndReopen(db, db', recovered, limit, files, newLog, nextFile, v)
    ensures Inv(db')
    ensures db'.history == db.history + InflightOps(db) && db'.lastSequence == |db'.history|
  {
    RecoveredFromDisk(db, db', recovered, limit, files, newLog, nextFile, v);
    var h := db'.history;
    var e := Edit(Some(newLog), Some(0), Some(nextFile), Some(|h|), {}, AtLevel(files, 0));
    RecoveredContents(db, h, LogRecords(db.logs, db.logNumber, limit), files, e, v);
    RecoveredManifest(db, h, files, newLog, nextFile, e, v);
    FreshStart(db.logs, newLog, nextFile, h);
    RestartedInv(db');
  }

  /** Nothing is in memory, held or under way. */
  lemma RestartedInv(db: Db)
    requires db.pending == {} && db.unprotected == {} && db.pinned == {} && db.snapshots == []
    requires db.inflight.None? && db.imm.None? && db.lastSequence == |db.history|
    requires VersionInv(db.version) && NumbersDescend(db.manifest, db.version)
             && OnDisk(db.tables, db.nextFile, db.version)
    requires ManifestInv(db.manifest, db.version, db.logNumber, db.nextFile, db.lastSequence, db.flushed)
    requires LogInv(db.logs, db.logNumber, db.logfileNumber, db.nextFile, db.history, db.flushed, db.switched, [])
    requires MemInv(db.mem, None, db.history, db.flushed, db.switched)
    requires ReadInv(db.version, db.history, db.flushed, db.lastSequence)
    ensures Inv(db)
  {
    hide VersionInv, ManifestInv, NumbersDescend, LogInv, MemInv, ReadInv, OnDisk;
  }

  /** The new log is empty, and so is the memtable. */
  lemma FreshStart(logs: map<nat, seq<Record>>, newLog: nat, nextFile: nat, h: seq<Op>)
    requires newLog < nextFile && forall n :: n in logs ==> n < newLog
    ensures LogInv(logs[newLog := []], newLog, newLog, nextFile, h, |h|, |h|, [])
    ensures MemInv({}, None, h, |h|, |h|)
  {
    assert h[|h|..] == [] && h[|h|..|h|] == [];
  }

  lemma RecoveredManifest(db: Db, h: seq<Op>, files: seq<File>, newLog: nat, nextFile: nat, e: Edit, v: Version)
    requires Inv(db) && Installs(db.version, e, v) && Ok(v) && All(v) <= EntriesFrom(h, 1)
    requires e == Edit(Some(newLog), Some(0), Some(nextFile), Some(|h|), {}, AtLevel(files, 0))
    requires IncreasingNumbers(files) && LastNextFile(db.manifest) < nextFile
    requires forall f :: f in files ==> LastNextFile(db.manifest) < f.number < nextFile
    ensures VersionInv(v)
    ensures ManifestInv([Snapshot(db.version), e], v, newLog, nextFile, |h|, |h|)
    ensures NumbersDescend([Snapshot(db.version), e], v)
    ensures OnDisk(db.tables + TablesOf(files), nextFile, v)
  {
    ManifestCoversNumbers(db.manifest, db.version);
    InstallDumps(db.version, files, e, v);
    NewManifestInv(db.version, h, files, newLog, nextFile, e, v);
    NewManifestDescends(db.manifest, db.version, e, files, v);
    NewTablesOnDisk(db.tables, db.nextFile, db.version, files, v, nextFile, LastNextFile(db.manifest));
    DistinctAfterDumps(db.version, files, v, LastNextFile(db.manifest));
  }

  lemma NewManifestInv(v: Version, h: seq<Op>, files: seq<File>, newLog: nat, nextFile: nat, e: Edit, v': Version)
    requires Installs(v, e, v') && All(v') <= EntriesFrom(h, 1)
    requires e == Edit(Some(newLog), Some(0), Some(nextFile), Some(|h|), {}, AtLevel(files, 0))
    ensures ManifestInv([Snapshot(v), e], v', newLog, nextFile, |h|, |h|)
  {
    EntriesAreNumbered(h, 1);
    NewManifestReplays(v, e, files, v');
  }

  lemma AbandonedRecoveryKeepsInv(db: Db, db': Db, newLogs: set<nat>, junk: map<nat, seq<Entry>>, nextFile: nat)
    requires Inv(db) && AbandonedRecovery(db, db', newLogs, junk, nextFile)
    ensures Inv(db')
  {
    assert forall n :: n in newLogs ==> n > db.logfileNumber;
    SameLogs(db.logs, db'.logs, db.logNumber, db.logfileNumber);
    ManifestCoversNumbers(db.manifest, db.version);
    assert OnDisk(db'.tables, nextFile, db.version);
    assert SmallestSnapshot(db) <= SmallestSnapshot(db');
  }
}
