/** What holds of the store after every step. */
module StoreInvariant {
  import opened InternalKeys
  import opened Visibility
  import opened Versions
  import opened VersionEdits
  import opened History
  import opened Store

  /** The current version is searchable, and file numbers tell its files apart. */
  ghost predicate VersionInv(v: Version) {
    && Ok(v)
    && (forall l {:trigger Ascending(v[l])} :: 0 <= l < NUM_LEVELS ==> Ascending(v[l]))
    && (forall l, f, g :: 0 <= l < NUM_LEVELS && f in v[l] && g in v[l] && f.number == g.number ==> f == g)
  }

  ghost function EverNumbers(m: seq<Edit>, level: nat): set<nat> {
    Numbers(Ever({}, m, level))
  }

  /** No file number returns to a level, and a file was never at a deeper level than the one it is at. */
  ghost predicate NumbersDescend(m: seq<Edit>, v: Version) {
    && (forall l {:trigger NeverReadded({}, m, l)} :: 0 <= l < NUM_LEVELS ==> NeverReadded({}, m, l))
    && (forall l, k, f {:trigger f in v[l], EverNumbers(m, k)} ::
          0 <= l < k < NUM_LEVELS && f in v[l] ==> f.number !in EverNumbers(m, k))
    && (forall l, n {:trigger n in EverNumbers(m, l)} ::
          0 <= l < NUM_LEVELS && n in EverNumbers(m, l) ==> n < LastNextFile(m))
  }

  /** Replaying the manifest gives the current version and counters that cover what it holds. */
  ghost predicate ManifestInv(m: seq<Edit>, v: Version, logNumber: nat, nextFile: nat, lastSequence: nat,
                              flushed: nat) {
    && Replayed(m, v)
    && LastLogNumber(m) == logNumber
    && LastNextFile(m) <= nextFile
    && flushed <= LastLastSequence(m) <= lastSequence
    && (forall e :: e in All(v) ==> e.key.sequence <= LastLastSequence(m))
  }

  ghost predicate PendingInv(pending: set<nat>, m: seq<Edit>, nextFile: nat) {
    && (forall n :: n in pending ==> n < nextFile)
    && forall n, l :: n in pending && 0 <= l < NUM_LEVELS ==> n !in EverNumbers(m, l)
  }

  /** The logs from the version set's log number on hold exactly what is not yet in tables: first the
      immutable memtable's operations, then in the current log the memtable's and the group in flight. */
  ghost predicate LogInv(logs: map<nat, seq<Record>>, logNumber: nat, logfileNumber: nat, nextFile: nat,
                         history: seq<Op>, flushed: nat, switched: nat, inflight: seq<Op>)
  {
    && logfileNumber in logs && logNumber <= logfileNumber
    && (forall n :: n in logs ==> n < nextFile)
    && (forall n :: n in logs && n > logfileNumber ==> logs[n] == [])
    && flushed <= switched <= |history|
    && var older, newer := LogRecords(logs, logNumber, logfileNumber), logs[logfileNumber];
       && Consecutive(older, flushed + 1) && Ops(older) == history[flushed..switched]
       && Consecutive(newer, switched + 1) && Ops(newer) == history[switched..] + inflight
  }

  ghost predicate MemInv(mem: set<Entry>, imm: Option<set<Entry>>, history: seq<Op>, flushed: nat, switched: nat) {
    && flushed <= switched <= |history|
    && mem == EntriesFrom(history[switched..], switched + 1)
    && (imm.None? ==> flushed == switched)
    && (imm.Some? ==> imm.value == EntriesFrom(history[flushed..switched], flushed + 1))
  }

  /** The tables answer every read at or after `floor` as the flushed operations do. */
  ghost predicate ReadInv(v: Version, history: seq<Op>, flushed: nat, floor: nat) {
    && flushed <= |history| < MAX_SEQUENCE
    && All(v) <= EntriesFrom(history[..flushed], 1)
    && forall k, s: nat :: floor <= s ==> Read(All(v), k, s) == Read(EntriesFrom(history[..flushed], 1), k, s)
  }

  ghost predicate SnapshotInv(snapshots: seq<nat>, lastSequence: nat) {
    && (forall i, j :: 0 <= i < j < |snapshots| ==> snapshots[i] <= snapshots[j])
    && forall i :: 0 <= i < |snapshots| ==> snapshots[i] <= lastSequence
  }

  /** Every table of the version is on disk, with its contents, under a number that was given out. */
  ghost predicate OnDisk(tables: map<nat, seq<Entry>>, nextFile: nat, v: Version) {
    forall l, f :: 0 <= l < NUM_LEVELS && f in v[l]
                   ==> f.number in tables && tables[f.number] == f.entries && f.number < nextFile
  }

  ghost predicate TableInv(tables: map<nat, seq<Entry>>, nextFile: nat, v: Version, pinned: set<Version>) {
    && OnDisk(tables, nextFile, v)
    && forall w {:trigger w in pinned} :: w in pinned ==> OnDisk(tables, nextFile, w)
  }

  ghost predicate FloorInv(v: Version, imm: Option<set<Entry>>, flushFloor: nat) {
    imm.Some? ==> forall g :: g in v[0] ==> g.number < flushFloor
  }

  ghost predicate Inv(db: Db) {
    && VersionInv(db.version)
    && ManifestInv(db.manifest, db.version, db.logNumber, db.nextFile, db.lastSequence, db.flushed)
    && NumbersDescend(db.manifest, db.version)
    && PendingInv(db.pending + db.unprotected, db.manifest, db.nextFile)
    && LogInv(db.logs, db.logNumber, db.logfileNumber, db.nextFile, db.history, db.flushed, db.switched,
              InflightOps(db))
    && (db.inflight.Some? ==> db.inflight.value.first == |db.history| + 1
                              && |db.history| + |db.inflight.value.ops| < MAX_SEQUENCE)
    && MemInv(db.mem, db.imm, db.history, db.flushed, db.switched)
    && ReadInv(db.version, db.history, db.flushed, SmallestSnapshot(db))
    && SnapshotInv(db.snapshots, db.lastSequence)
    && TableInv(db.tables, db.nextFile, db.version, db.pinned)
    && FloorInv(db.version, db.imm, db.flushFloor)
    && db.lastSequence == |db.history|
  }

  // ---------- What the invariant means to a reader ----------

  ghost function Visible(db: Db): set<Entry> {
    All(db.version) + (if db.imm.Some? then db.imm.value else {}) + db.mem
  }

  lemma HistorySplits(history: seq<Op>, i: nat, j: nat, first: nat)
    requires i <= j <= |history|
    ensures EntriesFrom(history[i..], first)
            == EntriesFrom(history[i..j], first) + EntriesFrom(history[j..], first + (j - i))
  {
    assert history[i..] == history[i..j] + history[j..];
    EntriesOfConcat(history[i..j], history[j..], first);
  }

  lemma VisibleIsTablesAndRest(db: Db)
    requires MemInv(db.mem, db.imm, db.history, db.flushed, db.switched)
    ensures Visible(db) == EntriesFrom(db.history[db.flushed..], db.flushed + 1) + All(db.version)
  {
    HistorySplits(db.history, db.flushed, db.switched, db.flushed + 1);
  }

  /** Newer entries on top of two stores that read alike give stores that read alike. */
  lemma SameBelowSameAbove(New: set<Entry>, A: set<Entry>, B: set<Entry>, k: Key, s: nat)
    requires UniqueSequences(New + B) && A <= B
    requires forall e, x :: e in New && x in B ==> e.key.sequence > x.key.sequence
    requires Read(A, k, s) == Read(B, k, s)
    ensures Read(New + A, k, s) == Read(New + B, k, s)
  {
    assert New + A <= New + B;
    FindNewerFirst(New, A, k, s);
    FindNewerFirst(New, B, k, s);
  }

  lemma WholeHistory(history: seq<Op>, flushed: nat)
    requires flushed <= |history|
    ensures EntriesFrom(history, 1) == EntriesFrom(history[flushed..], flushed + 1) + EntriesFrom(history[..flushed], 1)
    ensures UniqueSequences(EntriesFrom(history, 1))
    ensures forall e, x :: e in EntriesFrom(history[flushed..], flushed + 1) && x in EntriesFrom(history[..flushed], 1)
                           ==> e.key.sequence > x.key.sequence
  {
    assert history == history[..flushed] + history[flushed..];
    EntriesOfConcat(history[..flushed], history[flushed..], 1);
    EntriesAreNumbered(history, 1);
    EntriesAreNumbered(history[..flushed], 1);
    EntriesAreNumbered(history[flushed..], flushed + 1);
  }

  /** Any snapshot a reader can hold sees exactly the map after as many operations as its number says. */
  lemma ReadsAreMaps(db: Db, k: Key, s: nat)
    requires Inv(db) && SmallestSnapshot(db) <= s <= db.lastSequence
    ensures Read(Visible(db), k, s) == ValueAt(MapOf(db.history[..s]), k)
  {
    VisibleIsTablesAndRest(db);
    WholeHistory(db.history, db.flushed);
    SameBelowSameAbove(EntriesFrom(db.history[db.flushed..], db.flushed + 1), All(db.version),
                       EntriesFrom(db.history[..db.flushed], 1), k, s);
    ReadIsMap(db.history, k, s);
  }
}
