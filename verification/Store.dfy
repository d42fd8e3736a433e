/** The store as a state machine (db/db_impl.cc): the log, the memtables, the manifest and the table
    files, with every step that changes them, including a crash and the recovery after it. */
module Store {
  import opened InternalKeys
  import opened Visibility
  import opened Versions
  import opened VersionEdits
  import opened CompactionRules
  import opened CompactionWork
  import opened CompactionPicking
  import opened CompactionSafety
  import opened Flush
  import opened History

  /** `history`, `flushed`, `switched` and `flushFloor` record what happened and are not part of the
      store: the operations applied so far, how many of them are in tables, how many precede the current
      memtable, and the next file number at the time the immutable memtable was set aside. */
  datatype Db = Db(
    // on disk
    logs: map<nat, seq<Record>>,
    manifest: seq<Edit>,
    tables: map<nat, seq<Entry>>,
    // in memory
    version: Version,
    pinned: set<Version>,
    mem: set<Entry>,
    imm: Option<set<Entry>>,
    logNumber: nat,
    logfileNumber: nat,
    nextFile: nat,
    lastSequence: nat,
    snapshots: seq<nat>,
    pending: set<nat>,
    unprotected: set<nat>,
    inflight: Option<Record>,
    // what happened
    history: seq<Op>,
    flushed: nat,
    switched: nat,
    flushFloor: nat)

  // ---------- Writing ----------

  function LogAt(logs: map<nat, seq<Record>>, n: nat): seq<Record> {
    if n in logs then logs[n] else []
  }

  function Logged(db: Db, r: Record): Db {
    db.(logs := db.logs[db.logfileNumber := LogAt(db.logs, db.logfileNumber) + [r]], inflight := Some(r))
  }

  /** The leader of a write group appends the group's batch to the log; nobody is answered yet. */
  ghost predicate AppendLog(db: Db, db': Db, r: Record) {
    && db.inflight.None? && db.logfileNumber in db.logs
    && r.first == db.lastSequence + 1 && db.lastSequence + |r.ops| < MAX_SEQUENCE
    && db' == Logged(db, r)
  }

  ghost function Inserted(db: Db, r: Record): Db {
    db.(mem := db.mem + RecordEntries(r), lastSequence := db.lastSequence + |r.ops|, inflight := None,
        history := db.history + r.ops)
  }

  /** The group is inserted into the memtable, the last sequence number is raised, the writers are answered. */
  ghost predicate ApplyGroup(db: Db, db': Db) {
    db.inflight.Some? && db' == Inserted(db, db.inflight.value)
  }

  function Switched(db: Db): Db {
    db.(logs := db.logs[db.nextFile := []], logfileNumber := db.nextFile, nextFile := db.nextFile + 1,
        imm := Some(db.mem), mem := {}, switched := |db.history|, flushFloor := db.nextFile + 1)
  }

  /** MakeRoomForWrite: the full memtable becomes the immutable one, and a new log is started. */
  ghost predicate SwitchMemtable(db: Db, db': Db) {
    db.inflight.None? && db.imm.None? && db' == Switched(db)
  }

  // ---------- Background work ----------

  /** A table file is written under a fresh number; it belongs to no version yet. */
  ghost predicate WriteTable(db: Db, db': Db, entries: seq<Entry>) {
    db' == db.(tables := db.tables[db.nextFile := entries], pending := db.pending + {db.nextFile},
               nextFile := db.nextFile + 1)
  }

  function AtLevel(files: seq<File>, level: nat): seq<NewFile> {
    seq(|files|, i requires 0 <= i < |files| => NewFile(level, files[i]))
  }

  /** The edit as VersionSet::LogAndApply completes it. */
  function CompletedEdit(db: Db, logNumber: nat, deleted: set<(nat, nat)>, added: seq<NewFile>): Edit {
    Edit(Some(logNumber), Some(0), Some(db.nextFile), Some(db.lastSequence), deleted, added)
  }

  /** LogAndApply: the edit goes to the manifest, and the new version becomes current. */
  function Applied(db: Db, e: Edit, logNumber: nat, v: Version): Db {
    db.(manifest := db.manifest + [e], version := v, logNumber := logNumber,
        pending := db.pending - AddedNumbers(e), unprotected := db.unprotected - AddedNumbers(e))
  }

  function AddedNumbers(e: Edit): set<nat> {
    set n | n in e.added :: n.file.number
  }

  /** The table was written under its number and is still protected as pending. */
  ghost predicate Written(db: Db, f: File) {
    f.number in db.pending && f.number in db.tables && db.tables[f.number] == f.entries
  }

  /** WriteLevel0Table takes its table off the pending ones again, before there is an edit that names it. */
  ghost predicate Unprotect(db: Db, db': Db, n: nat) {
    n in db.pending && db' == db.(pending := db.pending - {n}, unprotected := db.unprotected + {n})
  }

  /** The edit of a flush could not be written; its table is left behind. */
  ghost predicate FlushFailed(db: Db, db': Db) {
    db' == db.(unprotected := {})
  }

  ghost predicate WrittenToFlush(db: Db, f: File) {
    f.number in db.unprotected && f.number in db.tables && db.tables[f.number] == f.entries
  }

  /** The immutable memtable as a list of tables: one, or none if it is empty. */
  ghost predicate FlushesTo(db: Db, files: seq<File>, level: nat) {
    && db.imm.Some?
    && if db.imm.value == {} then files == []
       else |files| == 1 && var f := files[0];
            && WellFormed(f) && EntrySet(f.entries) == db.imm.value && WrittenToFlush(db, f)
            && f.number >= db.flushFloor && MayPlace(db.version, f, level)
  }

  /** CompactMemTable: earlier logs are no longer needed. */
  ghost predicate InstallFlush(db: Db, db': Db, files: seq<File>, level: nat, v: Version) {
    && FlushesTo(db, files, level)
    && var e := CompletedEdit(db, db.logfileNumber, {}, AtLevel(files, level));
       && Installs(db.version, e, v)
       && db' == Applied(db, e, db.logfileNumber, v).(imm := None, flushed := db.switched)
  }

  /** The oldest sequence number that some reader may still use. */
  function SmallestSnapshot(db: Db): nat {
    if db.snapshots == [] then db.lastSequence else db.snapshots[0]
  }

  function Numbered(files: seq<File>, level: nat): set<(nat, nat)> {
    set f | f in files :: (level, f.number)
  }

  function InputDeletions(p: Plan): set<(nat, nat)> {
    Numbered(p.inputs0, p.level) + Numbered(p.inputs1, p.level + 1)
  }

  /** InstallCompactionResults: the inputs go, the output of the drop loop comes one level down. */
  ghost predicate InstallCompaction(db: Db, db': Db, p: Plan, outputs: seq<File>, v: Version) {
    && ValidPlan(db.version, p)
    && AllWellFormed(outputs) && LevelSorted(outputs)
    && (forall i, j :: 0 <= i < j < |outputs| ==> outputs[i].number != outputs[j].number)
    && (forall f :: f in outputs ==> Written(db, f))
    && Contents(outputs) == Kept(InputEntries(p), SmallestSnapshot(db), DropBase(db.version, p))
    && var e := CompletedEdit(db, db.logNumber, InputDeletions(p), AtLevel(outputs, p.level + 1));
       && Installs(db.version, e, v)
       && db' == Applied(db, e, db.logNumber, v)
  }

  /** A single input file that touches nothing one level down just changes its level. */
  ghost predicate TrivialMove(db: Db, db': Db, p: Plan, v: Version) {
    && ValidPlan(db.version, p) && |p.inputs0| == 1 && p.inputs1 == []
    && var e := CompletedEdit(db, db.logNumber, InputDeletions(p), AtLevel(p.inputs0, p.level + 1));
       && Installs(db.version, e, v)
       && db' == Applied(db, e, db.logNumber, v)
  }

  function LiveNumbers(v: Version): set<nat> {
    set l, f | 0 <= l < NUM_LEVELS && f in v[l] :: f.number
  }

  /** DeleteObsoleteFiles: tables of no live version that are not pending, and logs older than the
      version set's log number (the previous log number is always 0). Only the background thread does this, so
      it is not in the middle of a flush, whose table nothing else would protect. */
  ghost predicate DeleteObsolete(db: Db, db': Db) {
    db.unprotected == {} &&
    var live := db.pending + LiveNumbers(db.version) + (set v, n | v in db.pinned && n in LiveNumbers(v) :: n);
    db' == db.(logs := map n | n in db.logs && (n >= db.logNumber || n == 0) :: db.logs[n],
               tables := map n | n in db.tables && n in live :: db.tables[n])
  }

  // ---------- Readers ----------

  ghost predicate TakeSnapshot(db: Db, db': Db) {
    db' == db.(snapshots := db.snapshots + [db.lastSequence])
  }

  ghost predicate ReleaseSnapshot(db: Db, db': Db, i: nat) {
    i < |db.snapshots| && db' == db.(snapshots := db.snapshots[..i] + db.snapshots[i + 1..])
  }

  ghost predicate PinVersion(db: Db, db': Db) {
    db' == db.(pinned := db.pinned + {db.version})
  }

  ghost predicate UnpinVersion(db: Db, db': Db, v: Version) {
    db' == db.(pinned := db.pinned - {v})
  }

  // ---------- Crash and recovery ----------

  function LastLogNumber(m: seq<Edit>): nat {
    if m == [] then 0
    else if m[|m| - 1].logNumber.Some? then m[|m| - 1].logNumber.value else LastLogNumber(m[..|m| - 1])
  }

  function LastNextFile(m: seq<Edit>): nat {
    if m == [] then 0
    else if m[|m| - 1].nextFileNumber.Some? then m[|m| - 1].nextFileNumber.value else LastNextFile(m[..|m| - 1])
  }

  function LastLastSequence(m: seq<Edit>): nat {
    if m == [] then 0
    else if m[|m| - 1].lastSequence.Some? then m[|m| - 1].lastSequence.value else LastLastSequence(m[..|m| - 1])
  }

  /** The version that VersionSet::Recover builds from the manifest, starting with no files. */
  ghost predicate Replayed(m: seq<Edit>, v: Version) {
    forall l :: 0 <= l < NUM_LEVELS ==> Ascending(v[l]) && Members(v[l]) == AfterAll({}, m, l)
  }

  /** The records of the logs numbered lo up to, but not including, hi, in number order. */
  function LogRecords(logs: map<nat, seq<Record>>, lo: nat, hi: nat): seq<Record>
    decreases hi - lo
  {
    if hi <= lo then [] else LogRecords(logs, lo, hi - 1) + LogAt(logs, hi - 1)
  }

  /** RecoverLogFile replays the records into memtables and writes each one that is not empty to a
      level-0 table, in order, under increasing numbers. */
  ghost predicate Dumps(records: seq<Record>, files: seq<File>, firstNumber: nat) {
    && AllWellFormed(files)
    && IncreasingNumbers(files)
    && (forall f :: f in files ==> f.number >= firstNumber)
    && Contents(files) == Entries(records)
    && (forall i, j, e, x :: 0 <= i < j < |files| && e in files[i].entries && x in files[j].entries
                             ==> e.key.sequence < x.key.sequence)
  }

  ghost predicate IncreasingNumbers(files: seq<File>) {
    forall i, j :: 0 <= i < j < |files| ==> files[i].number < files[j].number
  }

  lemma NumbersTellApart(files: seq<File>)
    requires IncreasingNumbers(files)
    ensures forall f, g :: f in files && g in files && f.number == g.number ==> f == g
  {
    forall f, g | f in files && g in files && f.number == g.number ensures f == g {
      var i :| 0 <= i < |files| && files[i] == f;
      var j :| 0 <= j < |files| && files[j] == g;
      assert !(i < j) && !(j < i);
    }
  }

  /** The table files that were written. */
  ghost function TablesOf(files: seq<File>): (m: map<nat, seq<Entry>>)
    requires IncreasingNumbers(files)
    ensures forall f :: f in files ==> f.number in m && m[f.number] == f.entries
    ensures forall n :: n in m ==> exists f :: f in files && f.number == n
  {
    NumbersTellApart(files);
    map f | f in files :: f.number := f.entries
  }

  function Max(a: nat, b: nat): nat {
    if a < b then b else a
  }

  function Snapshot(v: Version): Edit {
    Edit(None, None, None, None, {},
         AtLevel(v[0], 0) + AtLevel(v[1], 1) + AtLevel(v[2], 2) + AtLevel(v[3], 3)
         + AtLevel(v[4], 4) + AtLevel(v[5], 5) + AtLevel(v[6], 6))
  }

  function InflightOps(db: Db): seq<Op> {
    if db.inflight.Some? then db.inflight.value.ops else []
  }

  /** A crash, and the reopening after it: everything in memory is lost; the manifest is replayed, the
      logs it does not cover are written to level-0 tables, and a new manifest and log are started. */
  ghost predicate CrashAndReopen(db: Db, db': Db, recovered: Version, limit: nat, files: seq<File>, newLog: nat,
                                 nextFile: nat, v: Version)
  {
    var minLog := LastLogNumber(db.manifest);
    var records := LogRecords(db.logs, minLog, limit);
    var lastSequence := Max(LastLastSequence(db.manifest), MaxSequence(records, 0));
    var e := Edit(Some(newLog), Some(0), Some(nextFile), Some(lastSequence), {}, AtLevel(files, 0));
    && (forall n :: n in db.logs ==> n < limit)
    && Replayed(db.manifest, recovered)
    && LiveNumbers(recovered) <= db.tables.Keys
    && Dumps(records, files, LastNextFile(db.manifest) + 1)
    && newLog < nextFile && newLog > LastNextFile(db.manifest) && (forall n :: n in db.logs ==> n < newLog)
    && (forall f :: f in files ==> f.number < nextFile)
    && Installs(recovered, e, v)
    && db' == Db(
         db.logs[newLog := []],
         [Snapshot(recovered), e],
         db.tables + TablesOf(files),
         v, {}, {}, None, newLog, newLog, nextFile, lastSequence, [], {}, {}, None,
         db.history + InflightOps(db), |db.history + InflightOps(db)|, |db.history + InflightOps(db)|, 0)
  }

  /** A crash and a recovery that is itself cut short before the new manifest is in place: it leaves
      behind empty logs and tables that no version has. (What was in memory stays in the state only
      until the recovery that succeeds replaces it; the file counter stays above all numbers in use.) */
  ghost predicate AbandonedRecovery(db: Db, db': Db, newLogs: set<nat>, junk: map<nat, seq<Entry>>, nextFile: nat) {
    && (forall n, m :: n in newLogs && m in db.logs ==> m < n)
    && (forall n :: n in newLogs ==> n < nextFile)
    && (forall n :: n in junk ==> LastNextFile(db.manifest) < n < nextFile)
    && db.nextFile <= nextFile
    && db' == db.(logs := db.logs + (map n | n in newLogs :: []), tables := db.tables + junk,
                  nextFile := nextFile, pending := {}, unprotected := {}, pinned := {}, snapshots := [])
  }
}
