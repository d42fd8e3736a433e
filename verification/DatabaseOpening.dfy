/** DB::Open (db/db_impl.cc, with Recover, RecoverLogFile and LogAndApply; db/version_set.cc, Recover): the store that
    is built from the bytes of the manifest and the logs is the one the step CrashAndReopen of module Store goes to, and
    it answers for every operation that was acknowledged. */
module DatabaseOpening {
  import opened Coding
  import opened Visibility
  import opened InternalKeys
  import opened Versions
  import opened VersionEdits
  import opened History
  import opened LogFormat
  import opened Store
  import opened StoreInvariant
  import opened StoreBackground
  import opened StoreRecovery
  import opened DatabaseRecovery
  import Manifest
  import M = ManifestRecovery
  import L = LogRecovery

  // ---------- The directory ----------

  /** What a crash leaves: the manifest that CURRENT names, the logs, and which tables there are. */
  datatype Directory = Directory(manifest: Bytes, logs: map<nat, Bytes>, tables: set<nat>)

  /** The bytes are those of the store, each file cut off anywhere inside the record that was being written. */
  ghost predicate Holds(crc: Checksum, dir: Directory, contents: M.Contents, logged: seq<Manifest.Logged>, db: Db) {
    && M.ManifestHolds(crc, dir.manifest, logged)
    && M.EditsOf(contents, M.CompleteEdits(crc, dir.manifest, logged)) == db.manifest
    && dir.logs.Keys == db.logs.Keys
    && (forall n :: n in db.logs ==> L.Yields(crc, L.LogFile(n, dir.logs[n]), db.logs[n]))
    && dir.tables == db.tables.Keys
  }

  // ---------- The logs that count, in order ----------

  ghost predicate Increasing(ns: seq<nat>) {
    forall i, j :: 0 <= i < j < |ns| ==> ns[i] < ns[j]
  }

  function InsertNumber(n: nat, ns: seq<nat>): (r: seq<nat>)
    requires Increasing(ns) && n !in ns
    ensures Increasing(r) && forall m :: m in r <==> m == n || m in ns
  {
    if ns == [] then [n]
    else if n < ns[0] then [n] + ns
    else
      assert ns == [ns[0]] + ns[1..];
      assert ns[0] in ns;
      var rest := InsertNumber(n, ns[1..]);
      assert forall i :: 0 <= i < |rest| ==> rest[i] in rest;
      [ns[0]] + rest
  }

  method LogNumbers(logs: map<nat, Bytes>, minLog: nat, prevLog: nat) returns (ns: seq<nat>)
    ensures forall n :: n in ns <==> n in logs && (n >= minLog || n == prevLog)
    ensures Increasing(ns)
  {
    ns := [];
    var todo := logs.Keys;
    while todo != {}
      invariant todo <= logs.Keys
      invariant forall n :: n in ns <==> n in logs && n !in todo && (n >= minLog || n == prevLog)
      invariant Increasing(ns)
    {
      var n :| n in todo;
      todo := todo - {n};
      if n >= minLog || n == prevLog {
        ns := InsertNumber(n, ns);
      }
    }
  }

  function LogFiles(logs: map<nat, Bytes>, ns: seq<nat>): seq<L.LogFile>
    requires forall n :: n in ns ==> n in logs
  {
    seq(|ns|, i requires 0 <= i < |ns| => L.LogFile(ns[i], logs[ns[i]]))
  }

  function Parts(logs: map<nat, seq<Record>>, ns: seq<nat>): (r: seq<seq<Record>>)
    requires forall n :: n in ns ==> n in logs
    ensures |r| == |ns| && forall i :: 0 <= i < |r| ==> r[i] == logs[ns[i]]
  {
    seq(|ns|, i requires 0 <= i < |ns| => logs[ns[i]])
  }

  /** These are the logs numbered from lo up to hi. */
  ghost predicate AreLogs(ns: seq<nat>, logs: map<nat, seq<Record>>, lo: nat, hi: nat) {
    Increasing(ns) && forall n :: n in ns <==> n in logs && lo <= n < hi
  }

  lemma LargestIsLast(ns: seq<nat>, logs: map<nat, seq<Record>>, lo: nat, hi: nat)
    requires AreLogs(ns, logs, lo, hi + 1) && hi in logs && lo <= hi
    ensures ns != [] && ns[|ns| - 1] == hi && AreLogs(ns[..|ns| - 1], logs, lo, hi)
  {
    assert hi in ns;
    var last := |ns| - 1;
    assert ns[last] in ns;
    assert ns == ns[..last] + [hi];
    forall n ensures n in ns[..last] <==> n in logs && lo <= n < hi {
      assert n in ns <==> n in ns[..last] || n == hi;
    }
  }

  lemma NotTheLast(ns: seq<nat>, logs: map<nat, seq<Record>>, lo: nat, hi: nat)
    requires AreLogs(ns, logs, lo, hi + 1) && hi !in logs
    ensures AreLogs(ns, logs, lo, hi)
  {
  }

  lemma HasMember(ns: seq<nat>)
    ensures ns == [] || exists n :: n in ns
  {
    assert ns != [] ==> ns[0] in ns;
  }

  lemma NoLogs(ns: seq<nat>, logs: map<nat, seq<Record>>, lo: nat, hi: nat)
    requires AreLogs(ns, logs, lo, hi) && hi <= lo
    ensures L.Joined(Parts(logs, ns)) == []
  {
    HasMember(ns);
  }

  lemma JoinedWithLast(logs: map<nat, seq<Record>>, ns: seq<nat>, fewer: seq<nat>, n: nat)
    requires (forall i :: i in ns ==> i in logs) && ns != [] && fewer == ns[..|ns| - 1] && ns[|ns| - 1] == n
    ensures L.Joined(Parts(logs, ns)) == L.Joined(Parts(logs, fewer)) + logs[n]
  {
    var parts := Parts(logs, ns);
    assert parts[..|ns| - 1] == Parts(logs, fewer) && parts[|ns| - 1] == logs[n];
  }

  /** One after the other, they are the records that the store's recovery looks at. */
  lemma {:induction false} JoinedAreLogRecords(logs: map<nat, seq<Record>>, ns: seq<nat>, lo: nat, hi: nat)
    requires AreLogs(ns, logs, lo, hi)
    ensures L.Joined(Parts(logs, ns)) == LogRecords(logs, lo, hi)
    decreases hi
  {
    hide Parts, L.Joined;
    if hi <= lo {
      NoLogs(ns, logs, lo, hi);
    } else if hi - 1 in logs {
      LargestIsLast(ns, logs, lo, hi - 1);
      var fewer := ns[..|ns| - 1];
      JoinedAreLogRecords(logs, fewer, lo, hi - 1);
      JoinedWithLast(logs, ns, fewer, hi - 1);
    } else {
      NotTheLast(ns, logs, lo, hi - 1);
      JoinedAreLogRecords(logs, ns, lo, hi - 1);
      assert LogAt(logs, hi - 1) == [];
    }
  }

  // ---------- What the manifest gives ----------

  lemma {:induction false} PreviousLogIsZero(m: seq<Edit>)
    requires forall e :: e in m ==> EditOk(e)
    ensures M.CountersOf(m).prevLogNumber in {None, Some(0)}
  {
    if m != [] {
      var n := |m| - 1;
      assert forall e :: e in m[..n] ==> e in m;
      PreviousLogIsZero(m[..n]);
      assert m[n] in m;
    }
  }

  /** Recover succeeds on the manifest of a reachable store, unless an edit names another comparator. */
  lemma ManifestRecovers(db: Db, status: M.Status, r: M.Recovered)
    requires Inv(db) && Recoverable(db) && M.RecoversTo(db.manifest, status, r)
    ensures status == M.Ok && r.version == db.version && r.logNumber == db.logNumber && r.prevLogNumber == 0
    ensures r.nextFileNumber == LastNextFile(db.manifest) + 1 && r.lastSequence == LastLastSequence(db.manifest)
    ensures LiveNumbers(r.version) <= db.tables.Keys
  {
    var c := M.CountersOf(db.manifest);
    assert c.nextFile.Some? && c.logNumber.Some? && c.lastSequence.Some?;
    PreviousLogIsZero(db.manifest);
    ReplayGivesCurrent(db.manifest, db.version, r.version);
    assert OnDisk(db.tables, db.nextFile, db.version);
  }

  lemma ManifestIsAddable(db: Db)
    requires Inv(db) && Recoverable(db)
    ensures M.Addable(db.manifest)
  {
  }

  lemma ReadsTheManifest(crc: Checksum, dir: Directory, contents: M.Contents, logged: seq<Manifest.Logged>, db: Db)
    requires Inv(db) && Recoverable(db) && Holds(crc, dir, contents, logged, db)
    ensures M.ManifestHolds(crc, dir.manifest, logged) && dir.tables == db.tables.Keys
    ensures M.AddableFiles(M.CompleteEdits(crc, dir.manifest, logged))
    ensures M.EditsOf(contents, M.CompleteEdits(crc, dir.manifest, logged)) == db.manifest
  {
    hide Inv, Recoverable, M.ManifestHolds, M.AddableFiles, M.Addable, M.EditsOf, M.CompleteEdits, L.Yields;
    ManifestIsAddable(db);
    M.AddableAre(contents, M.CompleteEdits(crc, dir.manifest, logged));
  }

  lemma RecordsInRange(db: Db)
    requires Inv(db)
    ensures L.InRange(LogRecords(db.logs, db.logNumber, db.nextFile), db.flushed + 1)
  {
    RecoveredRecords(db.logs, db.logNumber, db.logfileNumber, db.nextFile, db.history, db.flushed, db.switched,
                     InflightOps(db), db.nextFile);
  }

  // ---------- Recover ----------

  datatype Status = Opened | RecoverFailed(status: M.Status) | MissingFiles

  datatype Recovery = Recovery(version: Version, files: seq<File>, lastSequence: nat, number: nat)

  ghost predicate OtherComparator(crc: Checksum, dir: Directory, name: Bytes, logged: seq<Manifest.Logged>) {
    exists e :: e in M.CompleteEdits(crc, dir.manifest, logged) && !M.SameComparator(name, e)
  }

  /** What is recovered of the store. */
  ghost predicate IsRecovered(db: Db, r: Recovery) {
    var records := LogRecords(db.logs, LastLogNumber(db.manifest), db.nextFile);
    && r.version == db.version && L.DumpedTo(records, r.files, LastNextFile(db.manifest) + 1, r.number)
    && r.lastSequence == Max(LastLastSequence(db.manifest), MaxSequence(records, 0))
    && forall n :: n in db.logs ==> n < r.number
  }

  /** What the logs from minLog on add to the state m. */
  ghost predicate ReplaysTo(logs: map<nat, seq<Record>>, hi: nat, m: M.Recovered, r: Recovery) {
    var records := LogRecords(logs, m.logNumber, hi);
    && r.version == m.version && L.DumpedTo(records, r.files, m.nextFileNumber, r.number)
    && r.lastSequence == Max(m.lastSequence, MaxSequence(records, 0))
    && forall n :: n in logs && n >= m.logNumber ==> n < r.number
  }

  /** The logs that the manifest does not cover, and the previous one that it names (there is none with number 0). */
  method RecoverFromLogs(crc: Checksum, files: map<nat, Bytes>, ghost logs: map<nat, seq<Record>>, m: M.Recovered,
                         ghost hi: nat, ghost first: nat, full: set<Entry> -> bool, sizeOf: seq<Entry> -> nat)
    returns (r: Recovery)
    requires files.Keys == logs.Keys && m.prevLogNumber !in logs && forall n :: n in logs ==> n < hi
    requires forall n :: n in logs ==> L.Yields(crc, L.LogFile(n, files[n]), logs[n])
    requires L.InRange(LogRecords(logs, m.logNumber, hi), first)
    ensures ReplaysTo(logs, hi, m, r)
  {
    var ns := LogNumbers(files, m.logNumber, m.prevLogNumber);
    JoinedAreLogRecords(logs, ns, m.logNumber, hi);
    assert forall i :: 0 <= i < |ns| ==> ns[i] in ns;
    var tables, max, number := L.RecoverLogs(crc, LogFiles(files, ns), Parts(logs, ns), first, m.nextFileNumber, full,
                                             sizeOf);
    r := Recovery(m.version, tables, if m.lastSequence < max then max else m.lastSequence, number);
    AllBelow(files, ns, number);
  }

  lemma AllBelow(files: map<nat, Bytes>, ns: seq<nat>, number: nat)
    requires forall n :: n in ns ==> n in files
    requires forall i :: 0 <= i < |LogFiles(files, ns)| ==> LogFiles(files, ns)[i].number < number
    ensures forall n :: n in ns ==> n < number
  {
    forall n | n in ns ensures n < number {
      var i :| 0 <= i < |ns| && ns[i] == n;
      assert LogFiles(files, ns)[i].number == n;
    }
  }

  lemma LogsToReplay(crc: Checksum, dir: Directory, contents: M.Contents, logged: seq<Manifest.Logged>, db: Db)
    requires Inv(db) && Recoverable(db) && Holds(crc, dir, contents, logged, db)
    ensures dir.logs.Keys == db.logs.Keys && 0 !in db.logs && forall n :: n in db.logs ==> n < db.nextFile
    ensures forall n :: n in db.logs ==> L.Yields(crc, L.LogFile(n, dir.logs[n]), db.logs[n])
    ensures L.InRange(LogRecords(db.logs, db.logNumber, db.nextFile), db.flushed + 1)
  {
    RecordsInRange(db);
  }

  lemma ReplayedIsRecovered(db: Db, m: M.Recovered, r: Recovery)
    requires Inv(db) && Recoverable(db) && M.RecoversTo(db.manifest, M.Ok, m) && ReplaysTo(db.logs, db.nextFile, m, r)
    ensures IsRecovered(db, r)
  {
    ManifestRecovers(db, M.Ok, m);
    assert db.logfileNumber in db.logs;
  }

  /** What the manifest gives if it names no other comparator. */
  ghost predicate ManifestRead(db: Db, s: M.Status, m: M.Recovered) {
    && s == M.Ok && M.RecoversTo(db.manifest, s, m) && m.version == db.version && m.logNumber == db.logNumber
    && m.prevLogNumber == 0 && LiveNumbers(m.version) <= db.tables.Keys
  }

  method RecoverManifest(crc: Checksum, dir: Directory, contents: M.Contents, name: Bytes, ghost db: Db,
                         ghost logged: seq<Manifest.Logged>)
    returns (s: M.Status, m: M.Recovered)
    requires Inv(db) && Recoverable(db) && Holds(crc, dir, contents, logged, db)
    ensures dir.tables == db.tables.Keys
    ensures if OtherComparator(crc, dir, name, logged) then s == M.ComparatorDiffers else ManifestRead(db, s, m)
  {
    hide Inv, Recoverable, Holds, M.ManifestHolds, M.AddableFiles, M.Recovers, M.RecoversTo, M.EditsOf,
        M.CompleteEdits, LiveNumbers;
    ReadsTheManifest(crc, dir, contents, logged, db);
    s, m := M.Recover(crc, dir.manifest, contents, name, logged);
    if !OtherComparator(crc, dir, name, logged) {
      ManifestRecovers(db, s, m);
    }
  }

  method Recover(crc: Checksum, dir: Directory, contents: M.Contents, name: Bytes, full: set<Entry> -> bool,
                 sizeOf: seq<Entry> -> nat, ghost db: Db, ghost logged: seq<Manifest.Logged>)
    returns (status: Status, r: Recovery)
    requires Inv(db) && Recoverable(db) && Holds(crc, dir, contents, logged, db)
    ensures if OtherComparator(crc, dir, name, logged) then status == RecoverFailed(M.ComparatorDiffers)
            else status == Opened && IsRecovered(db, r)
  {
    hide Inv, Recoverable, Holds, M.RecoversTo, IsRecovered, ReplaysTo, LiveNumbers, L.Yields, L.InRange, LogRecords,
        OtherComparator;
    var s, m := RecoverManifest(crc, dir, contents, name, db, logged);
    r := Recovery(EMPTY, [], 0, 0);
    if !s.Ok? {
      status := RecoverFailed(s);
      return;
    }
    if !(LiveNumbers(m.version) <= dir.tables) {
      status := MissingFiles;
      return;
    }
    status := Opened;
    LogsToReplay(crc, dir, contents, logged, db);
    r := RecoverFromLogs(crc, dir.logs, db.logs, m, db.nextFile, db.flushed + 1, full, sizeOf);
    ReplayedIsRecovered(db, m, r);
  }

  // ---------- The first edit ----------

  /** The new log, and the edit that names it and adds the new tables. */
  function FirstEdit(r: Recovery): Edit {
    Edit(Some(r.number), Some(0), Some(r.number + 1), Some(r.lastSequence), {}, AtLevel(r.files, 0))
  }

  lemma MayAddTables(db: Db, r: Recovery)
    requires Inv(db) && IsRecovered(db, r)
    ensures MayApply(r.version, FirstEdit(r))
  {
    AddedToLevel(r.files, 0);
    ManifestCoversNumbers(db.manifest, db.version);
    var e := FirstEdit(r);
    forall l | 0 <= l < NUM_LEVELS ensures NeverReadded(Members(r.version[l]), [e], l) {
      AtLevelAddsThere(r.files, 0, l);
      assert Ever(Members(r.version[l]), [e][..0], l) == Members(r.version[l]);
    }
  }

  ghost predicate MayApply(v: Version, e: Edit) {
    && EditOk(e) && (forall l {:trigger Ascending(v[l])} :: 0 <= l < NUM_LEVELS ==> Ascending(v[l]))
    && forall l :: 0 <= l < NUM_LEVELS ==> NeverReadded(Members(v[l]), [e], l)
  }

  lemma AfterOne(files: set<File>, e: Edit, l: nat)
    ensures AfterAll(files, [e], l) == After(files, e, l)
  {
    assert [e][..0] == [];
  }

  /** LogAndApply of the first edit. */
  method ApplyFirst(base: Version, e: Edit) returns (v: Version)
    requires MayApply(base, e)
    ensures Installs(base, e, v)
  {
    var builder := new Builder(base);
    assert builder.edits + [e] == [e];
    builder.Apply(e);
    v := builder.SaveTo();
    forall l | 0 <= l < NUM_LEVELS ensures Ascending(v[l]) && Members(v[l]) == After(Members(base[l]), e, l) {
      AfterOne(Members(base[l]), e, l);
    }
  }

  /** The store after the reopening. */
  ghost function Reopened(db: Db, r: Recovery, v: Version): Db
    requires IncreasingNumbers(r.files)
  {
    var h := db.history + InflightOps(db);
    Db(db.logs[r.number := []], [Snapshot(r.version), FirstEdit(r)], db.tables + TablesOf(r.files), v, {}, {}, None,
       r.number, r.number, r.number + 1, r.lastSequence, [], {}, {}, None, h, |h|, |h|, 0)
  }

  /** Opening the store is the step CrashAndReopen. */
  ghost predicate Opens(db: Db, db': Db, r: Recovery, v: Version) {
    IsRecovered(db, r) && CrashAndReopen(db, db', r.version, db.nextFile, r.files, r.number, r.number + 1, v)
  }

  lemma IsReopening(db: Db, db': Db, r: Recovery, v: Version)
    requires Inv(db) && IsRecovered(db, r) && Installs(r.version, FirstEdit(r), v) && db' == Reopened(db, r, v)
    ensures Opens(db, db', r, v)
  {
    assert LiveNumbers(r.version) <= db.tables.Keys by {
      assert OnDisk(db.tables, db.nextFile, db.version);
    }
    assert Replayed(db.manifest, r.version);
    assert LastLogNumber(db.manifest) == db.logNumber;
    assert forall n :: n in db.logs ==> n < db.nextFile;
  }

  lemma ReadsWithoutMemtable(db: Db, k: Key)
    requires Inv(db) && db.mem == {} && db.imm.None? && db.snapshots == []
    ensures Read(All(db.version), k, db.lastSequence) == ValueAt(MapOf(db.history), k)
  {
    ReadsAreMaps(db, k, db.lastSequence);
    assert Visible(db) == All(db.version) && db.history[..|db.history|] == db.history;
  }

  lemma OpenedKeepsInv(db: Db, db': Db, r: Recovery, v: Version)
    requires Inv(db) && CrashAndReopen(db, db', r.version, db.nextFile, r.files, r.number, r.number + 1, v)
    ensures Inv(db')
  {
    hide Inv, CrashAndReopen;
    CrashAndReopenKeepsInv(db, db', r.version, db.nextFile, r.files, r.number, r.number + 1, v);
  }

  lemma OpenedIsRecoverable(db: Db, db': Db, r: Recovery, v: Version)
    requires Inv(db) && Recoverable(db)
             && CrashAndReopen(db, db', r.version, db.nextFile, r.files, r.number, r.number + 1, v)
    ensures Recoverable(db')
  {
    hide Inv, CrashAndReopen, Recoverable;
    ReopenKeeps(db, db', r.version, db.nextFile, r.files, r.number, r.number + 1, v);
  }

  /** The tables alone answer, at the last sequence number, with the map of all operations that were acknowledged, and
      of the group in flight if it was logged. */
  lemma OpenedIsWhole(db: Db, db': Db, r: Recovery, v: Version, k: Key)
    requires Opens(db, db', r, v) && Inv(db')
    ensures Read(All(v), k, r.lastSequence) == ValueAt(MapOf(db.history + InflightOps(db)), k)
  {
    assert db'.lastSequence == r.lastSequence;
    ReadsWithoutMemtable(db', k);
  }

  /** Opening a reachable store from its bytes succeeds, unless the manifest names another comparator, and it is a step
      of the store. */
  method Open(crc: Checksum, dir: Directory, contents: M.Contents, name: Bytes, full: set<Entry> -> bool,
              sizeOf: seq<Entry> -> nat, ghost db: Db, ghost logged: seq<Manifest.Logged>)
    returns (status: Status, r: Recovery, v: Version, ghost db': Db)
    requires Inv(db) && Recoverable(db) && Holds(crc, dir, contents, logged, db)
    ensures status == if OtherComparator(crc, dir, name, logged) then RecoverFailed(M.ComparatorDiffers) else Opened
    ensures status.Opened? ==> Opens(db, db', r, v) && Inv(db') && Recoverable(db')
    ensures status.Opened? ==> forall k ::
            Read(All(v), k, r.lastSequence) == ValueAt(MapOf(db.history + InflightOps(db)), k)
  {
    hide Inv, Recoverable, Holds, IsRecovered, Opens;
    v, db' := EMPTY, db;
    status, r := Recover(crc, dir, contents, name, full, sizeOf, db, logged);
    if status.Opened? {
      v, db' := Finish(r, db);
      forall k ensures Read(All(v), k, r.lastSequence) == ValueAt(MapOf(db.history + InflightOps(db)), k) {
        OpenedIsWhole(db, db', r, v, k);
      }
    }
  }

  /** The new log, and the first edit of the new manifest. */
  method Finish(r: Recovery, ghost db: Db) returns (v: Version, ghost db': Db)
    requires Inv(db) && Recoverable(db) && IsRecovered(db, r)
    ensures Opens(db, db', r, v) && Inv(db') && Recoverable(db')
  {
    MayAddTables(db, r);
    v := ApplyFirst(r.version, FirstEdit(r));
    db' := Reopened(db, r, v);
    IsReopening(db, db', r, v);
    OpenedKeepsInv(db, db', r, v);
    OpenedIsRecoverable(db, db', r, v);
  }
}
