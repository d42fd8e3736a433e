/** What a reachable store leaves in its directory (db/version_set.cc, LogAndApply and WriteSnapshot; db/db_impl.cc,
    Write): the edits of its manifest and the groups of its logs, as bytes that read back as what the store holds. */
module DatabaseFiles {
  import opened Coding
  import opened Visibility
  import opened InternalKeys
  import opened Versions
  import opened VersionEdits
  import opened CompactionPicking
  import opened History
  import opened LogFormat
  import opened Store
  import opened StoreInvariant
  import opened StoreBackground
  import opened StoreRecovery
  import opened DatabaseRecovery
  import opened DatabaseOpening
  import Bytewise
  import E = EditCodec
  import Manifest
  import M = ManifestRecovery
  import L = LogRecovery
  import LogReplay
  import R = StoreRuns
  import RT = LogRoundTrip
  import W = WriteBatches

  // ---------- One file for each number ----------

  /** Every file that an edit adds. */
  ghost function FilesOf(m: seq<Edit>): set<File> {
    set i, n | 0 <= i < |m| && n in m[i].added :: n.file
  }

  /** A number always means the same file. */
  ghost predicate OneFileEach(files: set<File>) {
    forall f, g :: f in files && g in files && f.number == g.number ==> f == g
  }

  ghost function NewFilesOf(e: Edit): set<File> {
    set n | n in e.added :: n.file
  }

  lemma FilesOfMore(m: seq<Edit>, e: Edit)
    ensures FilesOf(m + [e]) == FilesOf(m) + NewFilesOf(e)
  {
    var all := m + [e];
    forall f ensures f in FilesOf(all) <==> f in FilesOf(m) || f in NewFilesOf(e) {
      if i, n :| 0 <= i < |all| && n in all[i].added && n.file == f {
        assert if i < |m| then all[i] == m[i] else all[i] == e;
      }
      if i, n :| 0 <= i < |m| && n in m[i].added && n.file == f {
        assert all[i] == m[i];
      }
      if n :| n in e.added && n.file == f {
        assert all[|m|] == e;
      }
    }
  }

  lemma {:induction false} EverIsAdded(m: seq<Edit>, l: nat, f: File)
    requires f in Ever({}, m, l)
    ensures f in FilesOf(m)
  {
    var before, e := m[..|m| - 1], m[|m| - 1];
    assert m == before + [e];
    FilesOfMore(before, e);
    if f in Ever({}, before, l) {
      EverIsAdded(before, l, f);
    }
  }

  lemma {:induction false} AddedWasEver(m: seq<Edit>, f: File) returns (l: nat)
    requires f in FilesOf(m) && forall e :: e in m ==> EditOk(e)
    ensures l < NUM_LEVELS && f in Ever({}, m, l)
  {
    var before, e := m[..|m| - 1], m[|m| - 1];
    assert m == before + [e] && e in m && forall x :: x in before ==> x in m;
    FilesOfMore(before, e);
    if n :| n in e.added && n.file == f {
      l := n.level;
      assert f in AddedAt(e, l);
    } else {
      l := AddedWasEver(before, f);
    }
  }

  /** New numbers, or files that are there already. */
  lemma OneMoreEach(m: seq<Edit>, e: Edit)
    requires OneFileEach(FilesOf(m)) && OneFileEach(NewFilesOf(e))
    requires forall f, g :: f in NewFilesOf(e) && g in FilesOf(m) && f.number == g.number ==> f == g
    ensures OneFileEach(FilesOf(m + [e]))
  {
    FilesOfMore(m, e);
  }

  lemma FreshNumber(m: seq<Edit>, n: nat)
    requires (forall e :: e in m ==> EditOk(e)) && forall l :: 0 <= l < NUM_LEVELS ==> n !in EverNumbers(m, l)
    ensures forall f :: f in FilesOf(m) ==> f.number != n
  {
    forall f | f in FilesOf(m) ensures f.number != n {
      var l := AddedWasEver(m, f);
      assert f.number in EverNumbers(m, l);
    }
  }

  lemma CurrentWasAdded(db: Db, l: nat, f: File)
    requires Inv(db) && Recoverable(db) && l < NUM_LEVELS && f in db.version[l]
    ensures f in FilesOf(db.manifest)
  {
    CurrentWasEver(db.manifest, l);
    assert f in Members(db.version[l]);
    EverIsAdded(db.manifest, l, f);
  }

  lemma NewFilesAtLevel(files: seq<File>, level: nat, e: Edit)
    requires e.added == AtLevel(files, level)
    ensures NewFilesOf(e) == Members(files)
  {
    forall f | f in files ensures f in NewFilesOf(e) {
      var i :| 0 <= i < |files| && files[i] == f;
      assert e.added[i] == NewFile(level, f);
    }
  }

  lemma FreshFiles(db: Db, files: seq<File>, level: nat, e: Edit)
    requires Inv(db) && Recoverable(db) && OneFileEach(FilesOf(db.manifest)) && e.added == AtLevel(files, level)
    requires forall f :: f in files ==> f.number in db.pending + db.unprotected
    requires forall i, j :: 0 <= i < j < |files| ==> files[i].number != files[j].number
    ensures OneFileEach(FilesOf(db.manifest + [e]))
  {
    NewFilesAtLevel(files, level, e);
    forall f | f in files ensures forall g :: g in FilesOf(db.manifest) ==> g.number != f.number {
      FreshNumber(db.manifest, f.number);
    }
    assert OneFileEach(Members(files));
    OneMoreEach(db.manifest, e);
  }

  lemma MovedFiles(db: Db, p: Plan, e: Edit)
    requires Inv(db) && Recoverable(db) && OneFileEach(FilesOf(db.manifest))
    requires ValidPlan(db.version, p) && e.added == AtLevel(p.inputs0, p.level + 1)
    ensures OneFileEach(FilesOf(db.manifest + [e]))
  {
    NewFilesAtLevel(p.inputs0, p.level + 1, e);
    forall f | f in p.inputs0 ensures f in FilesOf(db.manifest) {
      CurrentWasAdded(db, p.level, f);
    }
    OneMoreEach(db.manifest, e);
  }

  lemma SnapshotFiles(v: Version)
    ensures forall f :: f in NewFilesOf(Store.Snapshot(v)) ==> exists l: nat :: l < NUM_LEVELS && f in v[l]
  {
    forall n | n in Store.Snapshot(v).added ensures exists l: nat :: l < NUM_LEVELS && n.file in v[l] {
      var l: nat :| l < NUM_LEVELS && n in AtLevel(v[l], l);
    }
  }

  lemma NumbersGoUp(db: Db, f: File)
    requires Inv(db) && Recoverable(db) && f in FilesOf(db.manifest)
    ensures f.number < LastNextFile(db.manifest)
  {
    var l := AddedWasEver(db.manifest, f);
    assert f.number in EverNumbers(db.manifest, l);
  }

  lemma ReopenedFiles(db: Db, s: Edit, e: Edit, files: seq<File>)
    requires Inv(db) && Recoverable(db) && OneFileEach(FilesOf(db.manifest))
    requires s == Store.Snapshot(db.version) && e.added == AtLevel(files, 0)
    requires IncreasingNumbers(files) && forall f :: f in files ==> f.number > LastNextFile(db.manifest)
    ensures OneFileEach(FilesOf([s] + [e]))
  {
    hide Inv, Recoverable, Store.Snapshot, FilesOf;
    SnapshotFiles(db.version);
    forall f | f in NewFilesOf(s) ensures f in FilesOf(db.manifest) {
      var l: nat :| l < NUM_LEVELS && f in db.version[l];
      CurrentWasAdded(db, l, f);
    }
    forall f | f in FilesOf(db.manifest) ensures f.number < LastNextFile(db.manifest) {
      NumbersGoUp(db, f);
    }
    OnlyEdit(s);
    NumbersTellApart(files);
    NewFilesAtLevel(files, 0, e);
    OneMoreEach([s], e);
  }

  lemma OnlyEdit(e: Edit)
    ensures FilesOf([e]) == NewFilesOf(e)
  {
    FilesOfMore([], e);
    assert [] + [e] == [e];
  }

  lemma FlushedFiles(db: Db, db': Db, files: seq<File>, level: nat, v: Version)
    requires Inv(db) && Recoverable(db) && OneFileEach(FilesOf(db.manifest)) && InstallFlush(db, db', files, level, v)
    ensures OneFileEach(FilesOf(db'.manifest))
  {
    hide Inv, Recoverable, FilesOf, OneFileEach;
    FreshFiles(db, files, level, CompletedEdit(db, db.logfileNumber, {}, AtLevel(files, level)));
  }

  lemma CompactedFiles(db: Db, db': Db, p: Plan, outputs: seq<File>, v: Version)
    requires Inv(db) && Recoverable(db) && OneFileEach(FilesOf(db.manifest))
             && InstallCompaction(db, db', p, outputs, v)
    ensures OneFileEach(FilesOf(db'.manifest))
  {
    hide Inv, Recoverable, FilesOf, OneFileEach, ValidPlan, Installs;
    FreshFiles(db, outputs, p.level + 1,
               CompletedEdit(db, db.logNumber, InputDeletions(p), AtLevel(outputs, p.level + 1)));
  }

  lemma ReopeningFiles(db: Db, db': Db, recovered: Version, limit: nat, files: seq<File>, newLog: nat, nextFile: nat,
                       v: Version)
    requires Inv(db) && Recoverable(db) && OneFileEach(FilesOf(db.manifest))
    requires CrashAndReopen(db, db', recovered, limit, files, newLog, nextFile, v)
    ensures OneFileEach(FilesOf(db'.manifest))
  {
    hide Inv, Recoverable, FilesOf, OneFileEach, Installs;
    CurrentIsRecovered(db, recovered);
    var s, e := db'.manifest[0], db'.manifest[1];
    ReopenedFiles(db, s, e, files);
    assert [s] + [e] == db'.manifest;
  }

  lemma CurrentIsRecovered(db: Db, recovered: Version)
    requires Inv(db) && Replayed(db.manifest, recovered)
    ensures recovered == db.version
  {
    ReplayGivesCurrent(db.manifest, db.version, recovered);
  }

  /** Every step of the store keeps it so: tables get new numbers, and a move adds a file that is known. */
  lemma StepKeepsNumbers(db: Db, step: R.Step, db': Db)
    requires Inv(db) && Recoverable(db) && OneFileEach(FilesOf(db.manifest)) && R.Next(db, step, db')
    ensures OneFileEach(FilesOf(db'.manifest))
  {
    hide Inv, Recoverable, FilesOf, OneFileEach, InstallFlush, InstallCompaction, CrashAndReopen, ValidPlan, Installs;
    match step
    case Flushed(files, level, v) => FlushedFiles(db, db', files, level, v);
    case Compacted(p, outputs, v) => CompactedFiles(db, db', p, outputs, v);
    case Moved(p, v) =>
      MovedFiles(db, p, CompletedEdit(db, db.logNumber, InputDeletions(p), AtLevel(p.inputs0, p.level + 1)));
    case Reopen(recovered, limit, files, newLog, nextFile, v) =>
      ReopeningFiles(db, db', recovered, limit, files, newLog, nextFile, v);
    case _ =>
  }

  lemma CreatedHasNoFiles()
    ensures FilesOf(R.CREATED.manifest) == {}
  {
    var s, e := R.CREATED.manifest[0], R.CREATED.manifest[1];
    SnapshotFiles(EMPTY);
    M.EmptyLevels();
    OnlyEdit(s);
    FilesOfMore([s], e);
    assert [s] + [e] == R.CREATED.manifest;
  }

  lemma {:induction false} RunHasOneFileEach(dbs: seq<Db>, steps: seq<R.Step>, i: nat)
    requires R.IsSafeRun(dbs, steps) && i < |dbs|
    ensures Inv(dbs[i]) && Recoverable(dbs[i]) && OneFileEach(FilesOf(dbs[i].manifest))
  {
    hide Inv, Recoverable, FilesOf, R.Next;
    RunIsRecoverable(dbs, steps, i);
    if i == 0 {
      CreatedHasNoFiles();
    } else {
      RunHasOneFileEach(dbs, steps, i - 1);
      StepKeepsNumbers(dbs[i - 1], steps[i - 1], dbs[i]);
    }
  }

  // ---------- An edit as it is written ----------

  /** A user key of this rank, with room for the sequence number behind it. */
  ghost predicate KeyHasBytes(k: IKey) {
    k.sequence <= MAX_SEQUENCE && exists u: Bytes :: |u| + 8 < TWO32 && Bytewise.Rank(u) == k.user
  }

  ghost function KeyBytes(k: IKey): (b: Bytes)
    requires KeyHasBytes(k)
    ensures |b| < TWO32 && Bytewise.KeyOf(b) == k
  {
    var u: Bytes :| |u| + 8 < TWO32 && Bytewise.Rank(u) == k.user;
    Bytewise.KeyOfEncoding(u, k.sequence, k.kind);
    Bytewise.InternalKey(u, Bytewise.Pack(k.sequence, k.kind))
  }

  ghost predicate FileHasBytes(f: File) {
    f.number < TWO64 && f.size < TWO64 && KeyHasBytes(f.smallest) && KeyHasBytes(f.largest)
  }

  predicate Below64(o: Option<nat>) {
    o.Some? ==> o.value < TWO64
  }

  /** Numbers of 64 bits, and keys that are encoded somehow. */
  ghost predicate EditHasBytes(e: Edit) {
    && Below64(e.logNumber) && Below64(e.prevLogNumber) && Below64(e.nextFileNumber) && Below64(e.lastSequence)
    && (forall d :: d in e.deleted ==> d.0 < NUM_LEVELS && d.1 < TWO64)
    && forall n :: n in e.added ==> n.level < NUM_LEVELS && FileHasBytes(n.file)
  }

  ghost function WrittenFile(f: File): (d: E.FileData)
    requires FileHasBytes(f)
    ensures E.FileFits(d)
  {
    E.FileData(f.number, f.size, KeyBytes(f.smallest), KeyBytes(f.largest))
  }

  ghost function WrittenFiles(added: seq<NewFile>): (ds: seq<(nat, E.FileData)>)
    requires forall n :: n in added ==> FileHasBytes(n.file)
    ensures |ds| == |added| && forall i :: 0 <= i < |ds| ==> ds[i] == (added[i].level, WrittenFile(added[i].file))
  {
    seq(|added|, i requires 0 <= i < |added| => assert added[i] in added; (added[i].level, WrittenFile(added[i].file)))
  }

  /** The edit with its keys encoded. A comparator and compaction pointers may come with it. */
  ghost function Written(e: Edit, comparator: Option<Bytes>, pointers: seq<(nat, Bytes)>): E.FileEdit
    requires EditHasBytes(e)
  {
    E.FileEdit(comparator, e.logNumber, e.prevLogNumber, e.nextFileNumber, e.lastSequence, pointers, e.deleted,
               WrittenFiles(e.added))
  }

  ghost predicate PointersFit(pointers: seq<(nat, Bytes)>) {
    forall p :: p in pointers ==> p.0 < NUM_LEVELS && |p.1| < TWO32
  }

  ghost function Listed(s: set<(nat, nat)>): (order: seq<(nat, nat)>)
    ensures E.Lists(order, s)
  {
    if s == {} then []
    else
      var d :| d in s;
      assert s == (s - {d}) + {d};
      Listed(s - {d}) + [d]
  }

  lemma HeaderFits(e: Edit, x: E.FileEdit)
    requires EditHasBytes(e) && (x.comparator.Some? ==> |x.comparator.value| < TWO32)
    requires x.logNumber == e.logNumber && x.prevLogNumber == e.prevLogNumber
    requires x.nextFileNumber == e.nextFileNumber && x.lastSequence == e.lastSequence
    ensures forall i :: i in E.Header(x) ==> E.Fits(i)
  {
  }

  lemma ItemsFit(e: Edit, comparator: Option<Bytes>, pointers: seq<(nat, Bytes)>, order: seq<(nat, nat)>)
    requires EditHasBytes(e) && (comparator.Some? ==> |comparator.value| < TWO32) && PointersFit(pointers)
    requires E.Lists(order, e.deleted)
    ensures forall i :: i in E.Items(Written(e, comparator, pointers), order) ==> E.Fits(i)
  {
    var x := Written(e, comparator, pointers);
    HeaderFits(e, x);
    forall i | 0 <= i < |pointers| ensures E.Fits(E.Pointers(pointers)[i]) {
      assert pointers[i] in pointers;
    }
    forall i | 0 <= i < |order| ensures E.Fits(E.Deletions(order)[i]) {
      assert order[i] in order;
    }
    forall i | 0 <= i < |x.added| ensures E.Fits(E.Additions(x.added)[i]) {
      assert e.added[i] in e.added;
    }
    InFour(E.Header(x), E.Pointers(pointers), E.Deletions(order), E.Additions(x.added));
  }

  lemma InFour(a: seq<E.Item>, b: seq<E.Item>, c: seq<E.Item>, d: seq<E.Item>)
    ensures forall i :: i in a + b + c + d ==> i in a || i in b || i in c || i in d
  {
  }

  ghost predicate Tells(contents: M.Contents, files: set<File>) {
    forall f :: f in files ==> contents(f.number) == f.entries
  }

  /** LogAndApply writes the edit; Recover reads these bytes, and what it takes them to stand for is the edit. */
  lemma WrittenReadsBack(e: Edit, comparator: Option<Bytes>, pointers: seq<(nat, Bytes)>, contents: M.Contents)
    requires EditHasBytes(e) && (comparator.Some? ==> |comparator.value| < TWO32) && PointersFit(pointers)
    requires Tells(contents, NewFilesOf(e))
    ensures var x := Written(e, comparator, pointers);
            var bytes := E.EncodeAll(E.Encode, E.Items(x, Listed(e.deleted)));
            && E.DecodeAll(E.Decode, bytes).Some?
            && E.ApplyAll(Manifest.NewEdit(), E.DecodeAll(E.Decode, bytes).value) == x
            && M.EditOf(contents, x) == e
  {
    var x, order := Written(e, comparator, pointers), Listed(e.deleted);
    ItemsFit(e, comparator, pointers, order);
    E.EditRoundTrip(x, order, Manifest.NewEdit());
    StandsFor(e, x, contents);
  }

  lemma StandsFor(e: Edit, x: E.FileEdit, contents: M.Contents)
    requires EditHasBytes(e) && Tells(contents, NewFilesOf(e))
    requires exists comparator, pointers :: x == Written(e, comparator, pointers)
    ensures M.EditOf(contents, x) == e
  {
    var y := M.AddedOf(contents, x.added);
    forall i | 0 <= i < |e.added| ensures y[i] == e.added[i] {
      assert e.added[i] in e.added && e.added[i].file in NewFilesOf(e);
    }
    assert y == e.added;
  }

  // ---------- The manifest ----------

  /** What the table of each number holds. */
  ghost function ContentsOf(files: set<File>): (contents: M.Contents)
    ensures OneFileEach(files) ==> Tells(contents, files)
  {
    (n: nat) => if exists f :: f in files && f.number == n then var f :| f in files && f.number == n; f.entries else []
  }

  /** The first edit of a manifest names the comparator. */
  ghost function LoggedEdits(m: seq<Edit>, name: Bytes, pointers: nat -> seq<(nat, Bytes)>): (ls: seq<Manifest.Logged>)
    requires forall e :: e in m ==> EditHasBytes(e)
    ensures |ls| == |m|
    ensures forall i :: 0 <= i < |m| ==>
              ls[i] == Manifest.Logged(Written(m[i], if i == 0 then Some(name) else None, pointers(i)),
                                       Listed(m[i].deleted))
  {
    seq(|m|, i requires 0 <= i < |m| =>
      assert m[i] in m;
      Manifest.Logged(Written(m[i], if i == 0 then Some(name) else None, pointers(i)), Listed(m[i].deleted)))
  }

  lemma LoggedAreOk(m: seq<Edit>, name: Bytes, pointers: nat -> seq<(nat, Bytes)>)
    requires (forall e :: e in m ==> EditHasBytes(e)) && |name| < TWO32 && forall i :: PointersFit(pointers(i))
    ensures forall l :: l in LoggedEdits(m, name, pointers) ==> Manifest.Ok(l)
  {
    var ls := LoggedEdits(m, name, pointers);
    forall i | 0 <= i < |ls| ensures Manifest.Ok(ls[i]) {
      assert m[i] in m;
      ItemsFit(m[i], if i == 0 then Some(name) else None, pointers(i), Listed(m[i].deleted));
    }
  }

  lemma LoggedStandFor(m: seq<Edit>, name: Bytes, pointers: nat -> seq<(nat, Bytes)>)
    requires (forall e :: e in m ==> EditHasBytes(e)) && OneFileEach(FilesOf(m))
    ensures M.EditsOf(ContentsOf(FilesOf(m)), Manifest.Edits(LoggedEdits(m, name, pointers))) == m
  {
    var ls, contents := LoggedEdits(m, name, pointers), ContentsOf(FilesOf(m));
    forall i | 0 <= i < |m| ensures M.EditOf(contents, ls[i].edit) == m[i] {
      assert m[i] in m;
      assert forall f :: f in NewFilesOf(m[i]) ==> f in FilesOf(m);
      StandsFor(m[i], ls[i].edit, contents);
    }
  }

  lemma AllComplete(layout: Layout, records: seq<Bytes>)
    ensures Complete(layout, records, 0, |EncodeAll(layout, records, 0)|) == |records|
  {
    if records != [] {
      RT.CompleteCounts(layout, records, 0, |EncodeAll(layout, records, 0)|, |records| - 1);
      assert records[..|records|] == records;
    }
  }

  // ---------- The logs ----------

  /** An operation that a batch can hold: a removal has no value. */
  ghost predicate OpHasBytes(op: Op) {
    && (exists u: Bytes :: |u| < TWO32 && Bytewise.Rank(u) == op.key)
    && if op.kind.Put? then |op.value| < TWO32 else op.value == []
  }

  ghost function UpdateOf(op: Op): (u: W.Update)
    requires OpHasBytes(op)
    ensures W.ToOp(u) == op && |u.key| < TWO32 && (u.Write? ==> |u.value| < TWO32)
  {
    var key: Bytes :| |key| < TWO32 && Bytewise.Rank(key) == op.key;
    if op.kind.Put? then W.Write(key, op.value) else W.Remove(key)
  }

  ghost predicate RecordHasBytes(r: Record) {
    r.first < TWO64 && |r.ops| < TWO32 && forall op :: op in r.ops ==> OpHasBytes(op)
  }

  ghost function GroupOf(r: Record): (g: LogReplay.Group)
    requires RecordHasBytes(r)
    ensures LogReplay.Loggable(g) && LogReplay.ToRecord(g) == r
  {
    var us := seq(|r.ops|, i requires 0 <= i < |r.ops| => assert r.ops[i] in r.ops; UpdateOf(r.ops[i]));
    assert W.ToOps(us) == r.ops;
    LogReplay.Group(r.first, us)
  }

  ghost function GroupsOf(rs: seq<Record>): (gs: seq<LogReplay.Group>)
    requires forall r :: r in rs ==> RecordHasBytes(r)
    ensures (forall g :: g in gs ==> LogReplay.Loggable(g)) && LogReplay.ToRecords(gs) == rs
  {
    var gs := seq(|rs|, i requires 0 <= i < |rs| => assert rs[i] in rs; GroupOf(rs[i]));
    assert LogReplay.ToRecords(gs) == rs;
    gs
  }

  ghost function LogBytes(crc: Checksum, rs: seq<Record>): Bytes
    requires forall r :: r in rs ==> RecordHasBytes(r)
  {
    EncodeAll(Records(crc), LogReplay.Reps(GroupsOf(rs)), 0)
  }

  lemma LogYields(crc: Checksum, n: nat, rs: seq<Record>)
    requires forall r :: r in rs ==> RecordHasBytes(r)
    ensures L.Yields(crc, L.LogFile(n, LogBytes(crc, rs)), rs)
  {
    var gs, file := GroupsOf(rs), LogBytes(crc, rs);
    AllComplete(Records(crc), LogReplay.Reps(gs));
    assert file[..|file|] == file && gs[..|gs|] == gs;
    assert L.LogHolds(crc, file, gs) && rs == L.Recovered(crc, file, gs);
  }

  // ---------- The directory ----------

  ghost predicate StoreHasBytes(db: Db) {
    && (forall e :: e in db.manifest ==> EditHasBytes(e))
    && forall n, r :: n in db.logs && r in db.logs[n] ==> RecordHasBytes(r)
  }

  ghost function DirectoryOf(crc: Checksum, db: Db, logged: seq<Manifest.Logged>): Directory
    requires StoreHasBytes(db)
  {
    Directory(EncodeAll(Records(crc), Manifest.Reps(logged), 0), map n | n in db.logs :: LogBytes(crc, db.logs[n]),
              db.tables.Keys)
  }

  lemma ManifestIsHeld(crc: Checksum, m: seq<Edit>, name: Bytes, pointers: nat -> seq<(nat, Bytes)>, file: Bytes,
                       logged: seq<Manifest.Logged>)
    requires (forall e :: e in m ==> EditHasBytes(e)) && |name| < TWO32 && forall i :: PointersFit(pointers(i))
    requires OneFileEach(FilesOf(m)) && logged == LoggedEdits(m, name, pointers)
    requires file == EncodeAll(Records(crc), Manifest.Reps(logged), 0)
    ensures M.ManifestHolds(crc, file, logged) && M.CompleteEdits(crc, file, logged) == Manifest.Edits(logged)
    ensures M.EditsOf(ContentsOf(FilesOf(m)), Manifest.Edits(logged)) == m
    ensures forall e :: e in Manifest.Edits(logged) ==> M.SameComparator(name, e)
  {
    hide FilesOf, EditHasBytes, Manifest.Ok, Manifest.Rep, E.EncodeAll;
    LoggedAreOk(m, name, pointers);
    LoggedStandFor(m, name, pointers);
    AllComplete(Records(crc), Manifest.Reps(logged));
    assert file[..|file|] == file && Manifest.Edits(logged)[..|logged|] == Manifest.Edits(logged);
  }

  lemma LogsAreHeld(crc: Checksum, logs: map<nat, seq<Record>>)
    requires forall n, r :: n in logs && r in logs[n] ==> RecordHasBytes(r)
    ensures forall n :: n in logs ==> L.Yields(crc, L.LogFile(n, LogBytes(crc, logs[n])), logs[n])
  {
    forall n | n in logs ensures L.Yields(crc, L.LogFile(n, LogBytes(crc, logs[n])), logs[n]) {
      LogYields(crc, n, logs[n]);
    }
  }

  /** Every state that a safe run reaches, and whose keys have bytes, has a directory that holds it and that names no
      other comparator, whatever compaction pointers its edits carry. So opening it succeeds. */
  lemma RunHasDirectory(dbs: seq<Db>, steps: seq<R.Step>, i: nat, crc: Checksum, name: Bytes,
                        pointers: nat -> seq<(nat, Bytes)>)
    returns (dir: Directory, contents: M.Contents, logged: seq<Manifest.Logged>)
    requires R.IsSafeRun(dbs, steps) && i < |dbs| && StoreHasBytes(dbs[i])
    requires |name| < TWO32 && forall n :: PointersFit(pointers(n))
    ensures Inv(dbs[i]) && Recoverable(dbs[i]) && Holds(crc, dir, contents, logged, dbs[i])
    ensures !OtherComparator(crc, dir, name, logged)
  {
    hide Inv, Recoverable, FilesOf, R.IsSafeRun, M.ManifestHolds, M.CompleteEdits, LoggedEdits, LogBytes, L.Yields,
        EditHasBytes, RecordHasBytes;
    var db := dbs[i];
    RunHasOneFileEach(dbs, steps, i);
    logged, contents := LoggedEdits(db.manifest, name, pointers), ContentsOf(FilesOf(db.manifest));
    dir := DirectoryOf(crc, db, logged);
    ManifestIsHeld(crc, db.manifest, name, pointers, dir.manifest, logged);
    LogsAreHeld(crc, db.logs);
  }
}
