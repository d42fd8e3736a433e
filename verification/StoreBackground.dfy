/** Flushes, compactions and trivial moves keep the invariant of the store. */
module StoreBackground {
  import opened Visibility
  import opened Versions
  import opened VersionEdits
  import opened CompactionRules
  import opened CompactionWork
  import opened CompactionPicking
  import opened CompactionSafety
  import opened Flush
  import opened History
  import opened Store
  import opened StoreInvariant

  // ---------- One more edit in the manifest ----------

  lemma LastEdit(m: seq<Edit>, e: Edit)
    ensures (m + [e])[..|m + [e]| - 1] == m && (m + [e])[|m + [e]| - 1] == e
  {
  }

  lemma EverAfter(m: seq<Edit>, e: Edit, l: nat)
    ensures EverNumbers(m + [e], l) == EverNumbers(m, l) + Numbers(AddedAt(e, l))
  {
    LastEdit(m, e);
    NumbersOfUnion(Ever({}, m, l), AddedAt(e, l));
  }

  lemma NeverReaddedAfter(m: seq<Edit>, e: Edit, l: nat)
    requires NeverReadded({}, m, l) && EverNumbers(m, l) !! Numbers(AddedAt(e, l))
    ensures NeverReadded({}, m + [e], l)
  {
    var m' := m + [e];
    forall i | 0 <= i < |m'| ensures Numbers(Ever({}, m'[..i], l)) !! Numbers(AddedAt(m'[i], l)) {
      assert m'[..i] == m[..i];
      if i == |m| {
        assert m[..i] == m;
      }
    }
  }

  lemma ReplayedAfter(m: seq<Edit>, v: Version, e: Edit, v': Version)
    requires Replayed(m, v) && Installs(v, e, v')
    ensures Replayed(m + [e], v')
  {
    LastEdit(m, e);
  }

  lemma {:induction false} AtLevelAddsThere(files: seq<File>, level: nat, l: nat)
    ensures AddedIn(AtLevel(files, level), l) == if l == level then Members(files) else {}
  {
    var added := AtLevel(files, level);
    assert forall i :: 0 <= i < |files| ==> added[i] == NewFile(level, files[i]);
    forall f | f in files ensures NewFile(level, f) in added {
      var i :| 0 <= i < |files| && files[i] == f;
      assert added[i] == NewFile(level, f);
    }
  }

  lemma CurrentWasEver(m: seq<Edit>, l: nat)
    ensures AfterAll({}, m, l) <= Ever({}, m, l)
  {
    if m != [] {
      CurrentWasEver(m[..|m| - 1], l);
    }
  }

  /** The new files of an edit go to one level, under numbers that were never at that level or below it,
      and that no file above it has. */
  ghost predicate Descends(m: seq<Edit>, files: seq<File>, level: nat, v': Version) {
    && (forall i, j :: 0 <= i < j < |files| ==> files[i].number != files[j].number)
    && (forall f, k :: f in files && level <= k < NUM_LEVELS ==> f.number !in EverNumbers(m, k))
    && (forall l, f, g :: 0 <= l < level && l < NUM_LEVELS && g in v'[l] && f in files ==> g.number != f.number)
  }

  lemma NumbersDescendAfter(m: seq<Edit>, v: Version, e: Edit, v': Version, files: seq<File>, level: nat)
    requires NumbersDescend(m, v) && Installs(v, e, v') && Replayed(m, v)
    requires e.added == AtLevel(files, level) && level < NUM_LEVELS && Descends(m, files, level, v')
    requires e.nextFileNumber.Some? && LastNextFile(m) <= e.nextFileNumber.value
    requires forall f :: f in files ==> f.number < e.nextFileNumber.value
    ensures NumbersDescend(m + [e], v')
  {
    LastEdit(m, e);
    forall l | 0 <= l < NUM_LEVELS
      ensures NeverReadded({}, m + [e], l)
      ensures EverNumbers(m + [e], l) == EverNumbers(m, l) + if l == level then Numbers(Members(files)) else {}
    {
      AtLevelAddsThere(files, level, l);
      assert NeverReadded({}, m, l);
      EverAfter(m, e, l);
      NeverReaddedAfter(m, e, l);
    }
    forall l, k, g | 0 <= l < k < NUM_LEVELS && g in v'[l] ensures g.number !in EverNumbers(m + [e], k) {
      AtLevelAddsThere(files, level, l);
      assert g in Members(v'[l]);
      assert g in v[l] || (l == level && g in files);
      assert g in v[l] ==> g.number !in EverNumbers(m, k);
    }
  }

  lemma VersionAfter(m: seq<Edit>, v: Version, e: Edit, v': Version, files: seq<File>, level: nat)
    requires VersionInv(v) && Ok(v') && Replayed(m, v) && Installs(v, e, v')
    requires e.added == AtLevel(files, level) && level < NUM_LEVELS && Descends(m, files, level, v')
    ensures VersionInv(v')
  {
    forall l, f, g | 0 <= l < NUM_LEVELS && f in v'[l] && g in v'[l] && f.number == g.number ensures f == g {
      AtLevelAddsThere(files, level, l);
      CurrentWasEver(m, l);
      assert f in Members(v'[l]) && g in Members(v'[l]);
      assert f in Members(v[l]) ==> f.number in EverNumbers(m, l);
      assert g in Members(v[l]) ==> g.number in EverNumbers(m, l);
    }
  }

  /** Everything that follows from an edit completed by LogAndApply, whatever it does to reads. */
  lemma ManifestAfter(db: Db, e: Edit, logNumber: nat, v': Version, files: seq<File>, level: nat)
    requires Inv(db) && Installs(db.version, e, v') && Ok(v') && All(v') <= EntriesFrom(db.history, 1)
    requires level < NUM_LEVELS && Descends(db.manifest, files, level, v')
    requires e == CompletedEdit(db, logNumber, e.deleted, AtLevel(files, level))
    requires forall f :: f in files ==> f.number < db.nextFile
    ensures VersionInv(v')
    ensures ManifestInv(db.manifest + [e], v', logNumber, db.nextFile, db.lastSequence, db.lastSequence)
    ensures NumbersDescend(db.manifest + [e], v')
  {
    LastEdit(db.manifest, e);
    VersionAfter(db.manifest, db.version, e, v', files, level);
    ReplayedAfter(db.manifest, db.version, e, v');
    NumbersDescendAfter(db.manifest, db.version, e, v', files, level);
    EntriesAreNumbered(db.history, 1);
  }

  lemma PendingAfter(pending: set<nat>, m: seq<Edit>, nextFile: nat, e: Edit, files: seq<File>, level: nat)
    requires PendingInv(pending, m, nextFile) && e.added == AtLevel(files, level)
    ensures PendingInv(pending - AddedNumbers(e), m + [e], nextFile)
  {
    var gone := AddedNumbers(e);
    forall n, l | n in pending - gone && 0 <= l < NUM_LEVELS ensures n !in EverNumbers(m + [e], l) {
      EverAfter(m, e, l);
      forall x | x in e.added && x.level == l ensures x.file.number in gone {}
    }
  }

  lemma OnDiskAfter(db: Db, e: Edit, v': Version, files: seq<File>, level: nat)
    requires TableInv(db.tables, db.nextFile, db.version, db.pinned) && Installs(db.version, e, v')
    requires e.added == AtLevel(files, level)
    requires forall f ::
             f in files ==> f.number in db.tables && db.tables[f.number] == f.entries && f.number < db.nextFile
    ensures TableInv(db.tables, db.nextFile, v', db.pinned)
  {
    forall l, f | 0 <= l < NUM_LEVELS && f in v'[l]
      ensures f.number in db.tables && db.tables[f.number] == f.entries && f.number < db.nextFile
    {
      AtLevelAddsThere(files, level, l);
      assert f in Members(v'[l]);
      assert f in Members(db.version[l]) || f in Members(files);
    }
  }

  /** Files written under pending numbers were never part of any level. */
  lemma PendingDescends(db: Db, e: Edit, v': Version, files: seq<File>, level: nat)
    requires PendingInv(db.pending + db.unprotected, db.manifest, db.nextFile) && Replayed(db.manifest, db.version)
    requires Installs(db.version, e, v') && e.added == AtLevel(files, level) && level < NUM_LEVELS
    requires forall i, j :: 0 <= i < j < |files| ==> files[i].number != files[j].number
    requires forall f :: f in files ==> f.number in db.pending + db.unprotected
    ensures Descends(db.manifest, files, level, v')
  {
    forall l, f, g | 0 <= l < level && l < NUM_LEVELS && g in v'[l] && f in files ensures g.number != f.number {
      AtLevelAddsThere(files, level, l);
      CurrentWasEver(db.manifest, l);
      assert g in Members(v'[l]) && g in Members(db.version[l]);
      assert g.number in EverNumbers(db.manifest, l);
      assert f.number !in EverNumbers(db.manifest, l);
    }
  }

  // ---------- Flush ----------

  lemma NothingInstalled(v: Version, e: Edit, v': Version)
    requires Installs(v, e, v') && e.deleted == {} && e.added == []
    requires forall l {:trigger Ascending(v[l])} :: 0 <= l < NUM_LEVELS ==> Ascending(v[l])
    ensures v' == v
  {
    forall l | 0 <= l < NUM_LEVELS ensures v'[l] == v[l] {
      assert Ascending(v[l]) && Members(v'[l]) == Members(v[l]);
      assert forall f :: f in v'[l] <==> f in Members(v'[l]);
      assert forall f :: f in v[l] <==> f in Members(v[l]);
      AscendingIsUnique(v'[l], v[l]);
    }
  }

  lemma InstallPlaces(v: Version, e: Edit, v': Version, f: File, level: nat)
    requires Installs(v, e, v') && e.deleted == {} && e.added == AtLevel([f], level) && level < NUM_LEVELS
    ensures Places(v, f, level, v')
  {
    forall l | 0 <= l < NUM_LEVELS
      ensures Members(v'[l]) == Members(v[l]) + if l == level then {f} else {}
    {
      AtLevelAddsThere([f], level, l);
      assert DeletedAt(e, l) == {};
      assert Members([f]) == {f};
    }
  }

  lemma FlushedEntries(db: Db)
    requires db.imm.Some? && MemInv(db.mem, db.imm, db.history, db.flushed, db.switched)
    requires All(db.version) <= EntriesFrom(db.history[..db.flushed], 1)
    ensures NewerThan(db.imm.value, All(db.version)) && UniqueSequences(db.imm.value)
    ensures EntriesFrom(db.history[..db.switched], 1) == EntriesFrom(db.history[..db.flushed], 1) + db.imm.value
    ensures forall e, x ::
            e in db.imm.value && x in EntriesFrom(db.history[..db.flushed], 1) ==> e.key.sequence > x.key.sequence
  {
    SplitHistory(db.history, db.flushed, db.switched);
  }

  /** The operations up to the current memtable: those in tables, and the newer ones to be flushed. */
  lemma SplitHistory(h: seq<Op>, flushed: nat, switched: nat)
    requires flushed <= switched <= |h|
    ensures var older, newer := EntriesFrom(h[..flushed], 1), EntriesFrom(h[flushed..switched], flushed + 1);
            && EntriesFrom(h[..switched], 1) == older + newer
            && UniqueSequences(newer)
            && forall e, x :: e in newer && x in older ==> e.key.sequence > x.key.sequence
  {
    assert h[..switched] == h[..flushed] + h[flushed..switched];
    EntriesOfConcat(h[..flushed], h[flushed..switched], 1);
    EntriesAreNumbered(h[..flushed], 1);
    EntriesAreNumbered(h[flushed..switched], flushed + 1);
  }

  /** The version after a flush answers for the operations that were flushed, old and new. */
  lemma FlushedVersion(db: Db, e: Edit, files: seq<File>, level: nat, v: Version)
    requires Inv(db) && FlushesTo(db, files, level)
    requires Installs(db.version, e, v) && e.deleted == {} && e.added == AtLevel(files, level)
    ensures Ok(v) && All(v) == All(db.version) + db.imm.value
    ensures level < NUM_LEVELS || files == []
  {
    FlushedEntries(db);
    if files == [] {
      NothingInstalled(db.version, e, v);
    } else {
      var f := files[0];
      assert files == [f] && Contents([f]) == db.imm.value;
      InstallPlaces(db.version, e, v, f, level);
      FlushKeepsOk(db.version, f, level, v);
    }
  }

  lemma FlushedReads(db: Db, v: Version)
    requires Inv(db) && db.imm.Some? && All(v) == All(db.version) + db.imm.value
    ensures ReadInv(v, db.history, db.switched, SmallestSnapshot(db))
  {
    FlushedEntries(db);
    var B := EntriesFrom(db.history[..db.flushed], 1);
    EntriesAreNumbered(db.history[..db.switched], 1);
    assert db.imm.value + B == EntriesFrom(db.history[..db.switched], 1);
    assert db.imm.value + All(db.version) == All(v);
    forall k, s: nat | SmallestSnapshot(db) <= s
      ensures Read(All(v), k, s) == Read(EntriesFrom(db.history[..db.switched], 1), k, s)
    {
      SameBelowSameAbove(db.imm.value, All(db.version), B, k, s);
    }
  }

  lemma HistoryHas(history: seq<Op>, n: nat)
    requires n <= |history|
    ensures EntriesFrom(history[..n], 1) <= EntriesFrom(history, 1)
  {
    assert history == history[..n] + history[n..];
    EntriesOfConcat(history[..n], history[n..], 1);
  }

  lemma InstallFlushKeepsInv(db: Db, db': Db, files: seq<File>, level: nat, v: Version)
    requires Inv(db) && InstallFlush(db, db', files, level, v)
    ensures Inv(db')
  {
    var e := CompletedEdit(db, db.logfileNumber, {}, AtLevel(files, level));
    FlushedVersion(db, e, files, level, v);
    FlushedReads(db, v);
    HistoryHas(db.history, db.switched);
    FlushManifest(db, e, files, level, v);
    OlderLogsGone(db.logs, db.logNumber, db.logfileNumber, db.nextFile, db.history, db.flushed, db.switched,
                  InflightOps(db));
    assert InflightOps(db') == InflightOps(db) && SmallestSnapshot(db') == SmallestSnapshot(db);
  }

  lemma OlderLogsGone(logs: map<nat, seq<Record>>, logNumber: nat, logfileNumber: nat, nextFile: nat,
                      history: seq<Op>, flushed: nat, switched: nat, inflight: seq<Op>)
    requires LogInv(logs, logNumber, logfileNumber, nextFile, history, flushed, switched, inflight)
    ensures LogInv(logs, logfileNumber, logfileNumber, nextFile, history, switched, switched, inflight)
  {
    assert history[switched..switched] == [];
  }

  lemma FlushManifest(db: Db, e: Edit, files: seq<File>, level: nat, v: Version)
    requires Inv(db) && FlushesTo(db, files, level) && Installs(db.version, e, v)
    requires e == CompletedEdit(db, db.logfileNumber, {}, AtLevel(files, level))
    requires Ok(v) && All(v) <= EntriesFrom(db.history, 1) && (level < NUM_LEVELS || files == [])
    ensures VersionInv(v)
    ensures ManifestInv(db.manifest + [e], v, db.logfileNumber, db.nextFile, db.lastSequence, db.lastSequence)
    ensures NumbersDescend(db.manifest + [e], v)
    ensures PendingInv(db.pending - AddedNumbers(e) + (db.unprotected - AddedNumbers(e)), db.manifest + [e],
                       db.nextFile)
    ensures TableInv(db.tables, db.nextFile, v, db.pinned)
  {
    var l := if level < NUM_LEVELS then level else 0;
    assert AtLevel(files, level) == AtLevel(files, l);
    PendingDescends(db, e, v, files, l);
    ManifestAfter(db, e, db.logfileNumber, v, files, l);
    assert db.pending - AddedNumbers(e) + (db.unprotected - AddedNumbers(e))
           == db.pending + db.unprotected - AddedNumbers(e);
    PendingAfter(db.pending + db.unprotected, db.manifest, db.nextFile, e, files, l);
    OnDiskAfter(db, e, v, files, l);
  }

  // ---------- Compaction ----------

  lemma DeletedInputs(p: Plan, l: nat)
    ensures DeletedIn(InputDeletions(p), l) ==
            if l == p.level then Numbers(Members(p.inputs0))
            else if l == p.level + 1 then Numbers(Members(p.inputs1)) else {}
  {
    forall f | f in p.inputs0 ensures (p.level, f.number) in InputDeletions(p) {}
    forall f | f in p.inputs1 ensures (p.level + 1, f.number) in InputDeletions(p) {}
  }

  /** Deleting by number removes exactly the inputs, because numbers tell the files of a level apart. */
  lemma DeletingRemoves(files: seq<File>, inputs: seq<File>)
    requires forall f :: f in inputs ==> f in files
    requires forall f, g :: f in files && g in files && f.number == g.number ==> f == g
    ensures (set f | f in Members(files) && f.number !in Numbers(Members(inputs))) == Members(files) - Members(inputs)
  {
    assert forall f :: f in inputs ==> f.number in Numbers(Members(inputs));
  }

  lemma InstallReplaces(v: Version, p: Plan, outputs: seq<File>, e: Edit, v': Version)
    requires VersionInv(v) && ValidPlan(v, p) && Installs(v, e, v')
    requires e.deleted == InputDeletions(p) && e.added == AtLevel(outputs, p.level + 1)
    ensures Replaces(v, p, outputs, v')
  {
    LowerInputs(v, p);
    forall l | 0 <= l < NUM_LEVELS
      ensures l == p.level ==> Members(v'[l]) == Members(v[l]) - Members(p.inputs0)
      ensures l == p.level + 1 ==> Members(v'[l]) == Members(v[l]) - Members(p.inputs1) + Members(outputs)
      ensures l != p.level && l != p.level + 1 ==> Members(v'[l]) == Members(v[l])
    {
      DeletedInputs(p, l);
      AtLevelAddsThere(outputs, p.level + 1, l);
      if l == p.level {
        DeletingRemoves(v[l], p.inputs0);
      } else if l == p.level + 1 {
        DeletingRemoves(v[l], p.inputs1);
      }
    }
  }

  lemma SameReadInv(db: Db, v: Version)
    requires Inv(db) && All(v) <= All(db.version)
    ensures All(v) <= EntriesFrom(db.history, 1)
    ensures ReadInv(v, db.history, db.flushed, SmallestSnapshot(db)) <==>
            forall k, s: nat :: SmallestSnapshot(db) <= s ==> Read(All(v), k, s) == Read(All(db.version), k, s)
  {
    HistoryHas(db.history, db.flushed);
  }

  lemma FloorAfter(db: Db, p: Plan, outputs: seq<File>, v: Version)
    requires FloorInv(db.version, db.imm, db.flushFloor)
    requires p.level + 1 < NUM_LEVELS && Replaces(db.version, p, outputs, v)
    ensures FloorInv(v, db.imm, db.flushFloor)
  {
    forall g | g in v[0] ensures g in db.version[0] {
      assert g in Members(v[0]) && g in Members(db.version[0]);
    }
  }

  lemma CompactionManifest(db: Db, e: Edit, outputs: seq<File>, level: nat, v: Version)
    requires Inv(db) && Installs(db.version, e, v) && Ok(v) && All(v) <= EntriesFrom(db.history, 1)
    requires e == CompletedEdit(db, db.logNumber, e.deleted, AtLevel(outputs, level))
    requires level < NUM_LEVELS && Descends(db.manifest, outputs, level, v)
    requires forall f ::
             f in outputs ==> f.number in db.tables && db.tables[f.number] == f.entries && f.number < db.nextFile
    ensures VersionInv(v)
    ensures ManifestInv(db.manifest + [e], v, db.logNumber, db.nextFile, db.lastSequence, db.lastSequence)
    ensures NumbersDescend(db.manifest + [e], v)
    ensures PendingInv(db.pending - AddedNumbers(e) + (db.unprotected - AddedNumbers(e)), db.manifest + [e],
                       db.nextFile)
    ensures TableInv(db.tables, db.nextFile, v, db.pinned)
  {
    ManifestAfter(db, e, db.logNumber, v, outputs, level);
    assert db.pending - AddedNumbers(e) + (db.unprotected - AddedNumbers(e))
           == db.pending + db.unprotected - AddedNumbers(e);
    PendingAfter(db.pending + db.unprotected, db.manifest, db.nextFile, e, outputs, level);
    OnDiskAfter(db, e, v, outputs, level);
  }

  /** Installing a rewritten version that reads as before keeps the invariant. */
  lemma RewriteKeepsInv(db: Db, e: Edit, outputs: seq<File>, level: nat, v: Version)
    requires Inv(db) && Installs(db.version, e, v) && Ok(v) && All(v) <= EntriesFrom(db.history, 1)
    requires ReadInv(v, db.history, db.flushed, SmallestSnapshot(db)) && FloorInv(v, db.imm, db.flushFloor)
    requires e == CompletedEdit(db, db.logNumber, e.deleted, AtLevel(outputs, level))
    requires level < NUM_LEVELS && Descends(db.manifest, outputs, level, v)
    requires forall f ::
             f in outputs ==> f.number in db.tables && db.tables[f.number] == f.entries && f.number < db.nextFile
    ensures Inv(Applied(db, e, db.logNumber, v))
  {
    CompactionManifest(db, e, outputs, level, v);
    assert SmallestSnapshot(Applied(db, e, db.logNumber, v)) == SmallestSnapshot(db);
    assert InflightOps(Applied(db, e, db.logNumber, v)) == InflightOps(db);
  }

  lemma CompactionResult(db: Db, p: Plan, outputs: seq<File>, e: Edit, v: Version)
    requires Inv(db) && ValidPlan(db.version, p) && Installs(db.version, e, v)
    requires e.deleted == InputDeletions(p) && e.added == AtLevel(outputs, p.level + 1)
    requires AllWellFormed(outputs) && LevelSorted(outputs)
    requires Contents(outputs) == Kept(InputEntries(p), SmallestSnapshot(db), DropBase(db.version, p))
    ensures All(v) <= EntriesFrom(db.history, 1) && FloorInv(v, db.imm, db.flushFloor)
    ensures SafeAt(db.version, p, SmallestSnapshot(db)) <==>
            Ok(v) && ReadInv(v, db.history, db.flushed, SmallestSnapshot(db))
  {
    InstallReplaces(db.version, p, outputs, e, v);
    CompactionKeepsReads(db.version, p, SmallestSnapshot(db), outputs, v);
    SameReadInv(db, v);
    FloorAfter(db, p, outputs, v);
  }

  /** Exactly the compactions whose inputs are safe for the oldest snapshot keep the invariant. */
  lemma InstallCompactionKeepsInv(db: Db, db': Db, p: Plan, outputs: seq<File>, v: Version)
    requires Inv(db) && InstallCompaction(db, db', p, outputs, v)
    ensures Inv(db') <==> SafeAt(db.version, p, SmallestSnapshot(db))
  {
    hide SafeAt;
    var e := CompletedEdit(db, db.logNumber, InputDeletions(p), AtLevel(outputs, p.level + 1));
    CompactionResult(db, p, outputs, e, v);
    if SafeAt(db.version, p, SmallestSnapshot(db)) {
      PendingDescends(db, e, v, outputs, p.level + 1);
      RewriteKeepsInv(db, e, outputs, p.level + 1, v);
    }
  }

  lemma OtherNumberAbove(m: seq<Edit>, v: Version, level: nat, f: File, l: nat, g: File)
    requires Replayed(m, v) && NumbersDescend(m, v) && l <= level < NUM_LEVELS
    requires f in v[level] && g in v[l] && (l == level ==> g != f)
    requires forall h :: h in v[level] && h.number == f.number ==> h == f
    ensures g.number != f.number
  {
    CurrentWasEver(m, level);
    assert f in Members(v[level]) && f.number in EverNumbers(m, level);
  }

  /** A file that moves down was never at the deeper level, and no file above it has its number. */
  lemma MovedFileDescends(m: seq<Edit>, v: Version, p: Plan, v': Version)
    requires Replayed(m, v) && NumbersDescend(m, v)
    requires ValidPlan(v, p) && |p.inputs0| == 1 && Replaces(v, p, p.inputs0, v')
    requires forall h :: h in v[p.level] && h.number == p.inputs0[0].number ==> h == p.inputs0[0]
    ensures Descends(m, p.inputs0, p.level + 1, v')
  {
    var f := p.inputs0[0];
    assert f in p.inputs0 && f in v[p.level];
    forall l, g | 0 <= l < p.level + 1 && g in v'[l] ensures g.number != f.number {
      assert g in Members(v'[l]) && g in Members(v[l]);
      assert l == p.level ==> g !in Members(p.inputs0);
      OtherNumberAbove(m, v, p.level, f, l, g);
    }
  }

  lemma MoveResult(db: Db, p: Plan, e: Edit, v: Version)
    requires Inv(db) && ValidPlan(db.version, p) && Installs(db.version, e, v)
    requires |p.inputs0| == 1 && p.inputs1 == []
    requires e.deleted == InputDeletions(p) && e.added == AtLevel(p.inputs0, p.level + 1)
    ensures Ok(v) <==> p.level == 0 || !SplitsAKey(db.version[p.level], p.inputs0)
    ensures All(v) <= EntriesFrom(db.history, 1)
    ensures ReadInv(v, db.history, db.flushed, SmallestSnapshot(db)) && FloorInv(v, db.imm, db.flushFloor)
    ensures Descends(db.manifest, p.inputs0, p.level + 1, v)
  {
    InstallReplaces(db.version, p, p.inputs0, e, v);
    MoveKeepsReads(db.version, p, v);
    SameReadInv(db, v);
    assert p.inputs0[0] in p.inputs0 && p.inputs0[0] in db.version[p.level];
    MovedFileDescends(db.manifest, db.version, p, v);
    FloorAfter(db, p, p.inputs0, v);
  }

  /** Exactly the moves of files whose last user key no other file of the level continues keep the invariant. */
  lemma TrivialMoveKeepsInv(db: Db, db': Db, p: Plan, v: Version)
    requires Inv(db) && TrivialMove(db, db', p, v)
    ensures Inv(db') <==> p.level == 0 || !SplitsAKey(db.version[p.level], p.inputs0)
  {
    var e := CompletedEdit(db, db.logNumber, InputDeletions(p), AtLevel(p.inputs0, p.level + 1));
    MoveResult(db, p, e, v);
    if Ok(v) {
      RewriteKeepsInv(db, e, p.inputs0, p.level + 1, v);
    }
  }
}
