/** What a compaction may do to a user key whose versions it left in two files (db/version_set.cc, SetupOtherInputs):
    a run of steps that the code takes, after which a lookup returns an older value. */
module StaleReads {
  import opened Coding
  import opened InternalKeys
  import opened Visibility
  import opened Versions
  import opened VersionEdits
  import opened Overlap
  import opened CompactionRules
  import opened CompactionWork
  import opened CompactionPicking
  import opened CompactionSafety
  import opened CompactionEdges
  import opened Flush
  import opened History
  import opened Store
  import opened StoreInvariant
  import opened StoreBackground
  import opened StoreRuns
  import opened Scheduling

  // ---------- What is written ----------

  const J: Key := 1.0
  const K: Key := 2.0

  const LARGE := 62914560
  const ONE_MB := 1048576

  /** The sizes the process runs with, and the two large values that k is given. */
  datatype Setting = Setting(sizes: Sizes, older: Value, newer: Value)

  /** A large value fills its block, which is then written out; two one-byte values are far from filling a file. */
  ghost predicate Plausible(sizeOf: SizeOf) {
    && (forall es: seq<Entry> ::
          es != [] && |es[|es| - 1].value| >= 4 * ONE_MB ==> sizeOf(es) >= |es[|es| - 1].value|)
    && (forall es: seq<Entry> ::
          |es| <= 2 && (forall e :: e in es ==> e.key.user == J && |e.value| == 1) ==> sizeOf(es) < ONE_MB)
  }

  /** Any file size the options allow, up to that of the values. */
  ghost predicate Suits(c: Setting) {
    && Plausible(c.sizes.sizeOf)
    && ONE_MB <= c.sizes.maxFileSize <= LARGE
    && c.older != c.newer && LARGE <= |c.older| <= 4 * LARGE && LARGE <= |c.newer| <= 4 * LARGE
  }

  const FIRST_J := Entry(IKey(J, 1, Put), [7])
  const SECOND_J := Entry(IKey(J, 4, Put), [8])

  function Older(c: Setting): Entry {
    Entry(IKey(K, 2, Put), c.older)
  }

  function Newer(c: Setting): Entry {
    Entry(IKey(K, 3, Put), c.newer)
  }

  const WRITE_J := Record(1, [Op(Put, J, [7])])

  function WriteOlder(c: Setting): Record {
    Record(2, [Op(Put, K, c.older)])
  }

  function WriteNewer(c: Setting): Record {
    Record(3, [Op(Put, K, c.newer), Op(Put, J, [8])])
  }

  lemma WrittenEntries(c: Setting)
    ensures RecordEntries(WRITE_J) == {FIRST_J} && RecordEntries(WriteOlder(c)) == {Older(c)}
    ensures RecordEntries(WriteNewer(c)) == {Newer(c), SECOND_J}
  {
    assert WRITE_J.ops[0] == Op(Put, J, [7]) && WriteOlder(c).ops[0] == Op(Put, K, c.older);
    var ops := WriteNewer(c).ops;
    assert OpEntry(ops[0], 3) == Newer(c) && OpEntry(ops[1], 4) == SECOND_J;
    assert RecordEntries(WriteNewer(c)) == {OpEntry(ops[0], 3 + 0), OpEntry(ops[1], 3 + 1)};
  }

  // ---------- The tables ----------

  function Table(number: nat, entries: seq<Entry>, c: Setting): File
    requires entries != []
  {
    File(number, c.sizes.sizeOf(entries), entries[0].key, entries[|entries| - 1].key, entries)
  }

  function Small(c: Setting): File {
    Table(5, [FIRST_J], c)
  }

  function Whole(c: Setting): File {
    Table(7, [SECOND_J, Newer(c), Older(c)], c)
  }

  /** The first output of the compaction of Whole and Small: it is full after the newer version of k. */
  function Front(c: Setting): File {
    Table(8, [SECOND_J, FIRST_J, Newer(c)], c)
  }

  function Back(c: Setting): File {
    Table(9, [Older(c)], c)
  }

  lemma TableContents(c: Setting)
    ensures WellFormed(Small(c)) && WellFormed(Whole(c)) && WellFormed(Front(c)) && WellFormed(Back(c))
    ensures EntrySet(Small(c).entries) == {FIRST_J} && EntrySet(Whole(c).entries) == {SECOND_J, Newer(c), Older(c)}
    ensures EntrySet(Front(c).entries) == {SECOND_J, FIRST_J, Newer(c)} && EntrySet(Back(c).entries) == {Older(c)}
  {
  }

  lemma TableSizes(c: Setting)
    requires Suits(c)
    ensures Small(c).size < ONE_MB && Whole(c).size >= LARGE && Front(c).size >= LARGE && Back(c).size >= LARGE
    ensures c.sizes.sizeOf([SECOND_J]) < ONE_MB && c.sizes.sizeOf([SECOND_J, FIRST_J]) < ONE_MB
  {
  }

  lemma SplitFilesInOrder(c: Setting)
    ensures LevelSorted([Front(c), Back(c)]) && Ascending([Front(c), Back(c)])
    ensures Ascending([Small(c)]) && Ascending([Whole(c)]) && Ascending([Front(c)]) && Ascending([Back(c)])
            && Ascending([])
  {
  }

  // ---------- One file ----------

  lemma OverlappingOne(f: File, lo: Key, hi: Key)
    ensures Overlapping([f], Some(lo), Some(hi)) == (if Overlaps(f, Some(lo), Some(hi)) then [f] else [])
    ensures Overlapping([], Some(lo), Some(hi)) == []
  {
  }

  lemma SizeOfOne(f: File)
    ensures TotalSize([f]) == f.size
  {
    assert [f][1..] == [];
  }

  lemma ContentsOfOne(f: File)
    ensures Contents([f]) == EntrySet(f.entries)
  {
    assert f in [f];
  }

  // ---------- The versions ----------

  function Levels(one: seq<File>, two: seq<File>, three: seq<File>): Version {
    [[], one, two, three, [], [], []]
  }

  lemma LevelsAre(one: seq<File>, two: seq<File>, three: seq<File>)
    ensures var v := Levels(one, two, three);
            && v[1] == one && v[2] == two && v[3] == three
            && forall l :: 0 <= l < NUM_LEVELS && l != 1 && l != 2 && l != 3 ==> v[l] == []
  {
    forall l | 0 <= l < NUM_LEVELS && l != 1 && l != 2 && l != 3 ensures Levels(one, two, three)[l] == [] {}
  }

  function Version1(c: Setting): Version {
    Levels([], [Small(c)], [])
  }

  function Version2(c: Setting): Version {
    Levels([Whole(c)], [Small(c)], [])
  }

  /** The two versions of k are in two files. */
  function SplitVersion(c: Setting): Version {
    Levels([], [Front(c), Back(c)], [])
  }

  function MovedVersion(c: Setting): Version {
    Levels([], [Back(c)], [Front(c)])
  }

  function CompactWhole(c: Setting): Plan {
    Plan(1, [Whole(c)], [Small(c)], [])
  }

  function MoveFront(c: Setting): Plan {
    Plan(2, [Front(c)], [], [])
  }

  /** An edit that takes some files out of a level and puts others into another. */
  lemma Rearranged(v: Version, e: Edit, v': Version, added: seq<File>, level: nat)
    requires e.added == AtLevel(added, level)
    requires forall l :: 0 <= l < NUM_LEVELS ==> Ascending(v'[l])
    requires forall l :: 0 <= l < NUM_LEVELS ==>
               Members(v'[l]) == (set f | f in Members(v[l]) && f.number !in DeletedAt(e, l))
                                 + if l == level then Members(added) else {}
    ensures Installs(v, e, v')
  {
    forall l | 0 <= l < NUM_LEVELS ensures Ascending(v'[l]) && Members(v'[l]) == After(Members(v[l]), e, l) {
      AtLevelAddsThere(added, level, l);
    }
  }

  lemma SmallIsInstalled(c: Setting, e: Edit)
    requires e.deleted == {} && e.added == AtLevel([Small(c)], 2)
    ensures Installs(EMPTY, e, Version1(c))
  {
    EmptyVersion();
    LevelsAre([], [Small(c)], []);
    SplitFilesInOrder(c);
    Rearranged(EMPTY, e, Version1(c), [Small(c)], 2);
  }

  lemma WholeIsInstalled(c: Setting, e: Edit)
    requires e.deleted == {} && e.added == AtLevel([Whole(c)], 1)
    ensures Installs(Version1(c), e, Version2(c))
  {
    LevelsAre([], [Small(c)], []);
    LevelsAre([Whole(c)], [Small(c)], []);
    SplitFilesInOrder(c);
    Rearranged(Version1(c), e, Version2(c), [Whole(c)], 1);
  }

  lemma SplitIsInstalled(c: Setting, e: Edit)
    requires e.deleted == InputDeletions(CompactWhole(c)) && e.added == AtLevel([Front(c), Back(c)], 2)
    ensures Installs(Version2(c), e, SplitVersion(c))
  {
    LevelsAre([Whole(c)], [Small(c)], []);
    LevelsAre([], [Front(c), Back(c)], []);
    SplitFilesInOrder(c);
    forall l | 0 <= l < NUM_LEVELS
      ensures Members(SplitVersion(c)[l]) == (set f | f in Members(Version2(c)[l]) && f.number !in DeletedAt(e, l))
                                             + if l == 2 then Members([Front(c), Back(c)]) else {}
    {
      DeletedInputs(CompactWhole(c), l);
    }
    Rearranged(Version2(c), e, SplitVersion(c), [Front(c), Back(c)], 2);
  }

  lemma MoveIsInstalled(c: Setting, e: Edit)
    requires e.deleted == InputDeletions(MoveFront(c)) && e.added == AtLevel([Front(c)], 3)
    ensures Installs(SplitVersion(c), e, MovedVersion(c))
  {
    LevelsAre([], [Front(c), Back(c)], []);
    LevelsAre([], [Back(c)], [Front(c)]);
    SplitFilesInOrder(c);
    forall l | 0 <= l < NUM_LEVELS
      ensures Members(MovedVersion(c)[l]) == (set f | f in Members(SplitVersion(c)[l]) && f.number !in DeletedAt(e, l))
                                             + if l == 3 then Members([Front(c)]) else {}
    {
      DeletedInputs(MoveFront(c), l);
    }
    Rearranged(SplitVersion(c), e, MovedVersion(c), [Front(c)], 3);
  }

  // ---------- Steps of the run ----------

  /** What the run has come to: the code can bring the store there, and it is in order. */
  ghost predicate Reached(sizes: Sizes, db: Db, pointers: Pointers) {
    CodeReaches(sizes, db, pointers) && Inv(db)
  }

  lemma Then(sizes: Sizes, db: Db, pointers: Pointers, step: Step, db': Db, pointers': Pointers)
    requires Reached(sizes, db, pointers) && Next(db, step, db') && CodeTakes(db, pointers, step, pointers', sizes)
    requires Safe(db, step)
    ensures Reached(sizes, db', pointers')
  {
    hide Inv, Next, CodeTakes, Safe;
    CodeReachesNext(sizes, db, pointers, step, db', pointers');
    StepKeepsInv(db, step, db');
  }

  ghost function Wrote(db: Db, r: Record): Db {
    Inserted(Logged(db, r), r)
  }

  /** Between two writes. */
  ghost predicate Idle(db: Db) {
    db.inflight.None? && db.imm.None? && db.unprotected == {} && db.logfileNumber in db.logs
  }

  lemma WriteIsReached(sizes: Sizes, db: Db, pointers: Pointers, r: Record)
    requires Reached(sizes, db, pointers) && Idle(db)
    requires r.first == db.lastSequence + 1 && db.lastSequence + |r.ops| < MAX_SEQUENCE
    ensures Reached(sizes, Wrote(db, r), pointers) && Idle(Wrote(db, r))
  {
    hide Inv;
    Then(sizes, db, pointers, Append(r), Logged(db, r), pointers);
    Then(sizes, Logged(db, r), pointers, Acknowledge, Wrote(db, r), pointers);
  }

  ghost function TableOf(db: Db, f: File): Db {
    db.(tables := db.tables[db.nextFile := f.entries], pending := db.pending + {db.nextFile},
        nextFile := db.nextFile + 1)
  }

  ghost function Unprotected(db: Db, f: File): Db {
    db.(pending := db.pending - {f.number}, unprotected := db.unprotected + {f.number})
  }

  ghost function FlushEdit(db: Db, f: File, level: nat): Edit {
    CompletedEdit(db, db.logfileNumber, {}, AtLevel([f], level))
  }

  /** The table is about to be installed. */
  ghost function Flushing(db: Db, f: File): Db {
    Unprotected(TableOf(Switched(db), f), f)
  }

  ghost function FlushedDb(db: Db, f: File, level: nat, v: Version): Db {
    var d := Flushing(db, f);
    Store.Applied(d, FlushEdit(d, f, level), d.logfileNumber, v).(imm := None, flushed := d.switched)
  }

  lemma FlushIsReached(sizes: Sizes, db: Db, pointers: Pointers, f: File, level: nat, v: Version)
    requires Reached(sizes, db, pointers) && Idle(db)
    requires WellFormed(f) && f.number == db.nextFile + 1 && f.size == sizes.sizeOf(f.entries)
             && EntrySet(f.entries) == db.mem
    requires MayPlace(db.version, f, level)
    requires IsPickedLevel(db.version, f.smallest.user, f.largest.user, sizes.maxFileSize, level)
    requires Installs(db.version, FlushEdit(Flushing(db, f), f, level), v)
    ensures Reached(sizes, FlushedDb(db, f, level, v), pointers)
  {
    hide Inv, MayPlace, IsPickedLevel, WellFormed, Installs;
    var switched := Switched(db);
    Then(sizes, db, pointers, Switch, switched, pointers);
    Then(sizes, switched, pointers, NewTable(f.entries), TableOf(switched, f), pointers);
    Then(sizes, TableOf(switched, f), pointers, TakeOffPending(f.number), Flushing(db, f), pointers);
    assert f.entries != [] && f.entries[0] in EntrySet(f.entries) by {
      HasEntries(f);
    }
    FlushIsNext(db, f, level, v);
    Then(sizes, Flushing(db, f), pointers, Flushed([f], level, v), FlushedDb(db, f, level, v), pointers);
  }

  lemma HasEntries(f: File)
    requires WellFormed(f)
    ensures f.entries != []
  {
  }

  lemma FlushIsNext(db: Db, f: File, level: nat, v: Version)
    requires Idle(db) && WellFormed(f) && f.number == db.nextFile + 1 && EntrySet(f.entries) == db.mem && db.mem != {}
    requires MayPlace(db.version, f, level) && Installs(db.version, FlushEdit(Flushing(db, f), f, level), v)
    ensures InstallFlush(Flushing(db, f), FlushedDb(db, f, level, v), [f], level, v)
  {
    hide MayPlace, Installs;
    assert WrittenToFlush(Flushing(db, f), f);
  }

  lemma AfterFlush(db: Db, f: File, level: nat, v: Version)
    requires Idle(db) && f.number == db.nextFile + 1
    ensures var d := FlushedDb(db, f, level, v);
            && Idle(d) && d.mem == {} && d.version == v && d.nextFile == db.nextFile + 2
            && d.lastSequence == db.lastSequence && d.snapshots == db.snapshots && d.history == db.history
  {
    var e := FlushEdit(Flushing(db, f), f, level);
    assert e.added == [NewFile(level, f)] && AddedNumbers(e) == {f.number};
  }

  // ---------- The run up to the compaction ----------

  ghost function SmallWritten(): Db {
    Wrote(CREATED, WRITE_J)
  }

  ghost function SmallFlushed(c: Setting): Db {
    FlushedDb(SmallWritten(), Small(c), 2, Version1(c))
  }

  ghost function SnapshotHeld(c: Setting): Db {
    Wrote(SmallFlushed(c), WriteOlder(c)).(snapshots := [2])
  }

  ghost function WholeWritten(c: Setting): Db {
    Wrote(SnapshotHeld(c), WriteNewer(c))
  }

  ghost function WholeFlushed(c: Setting): Db {
    FlushedDb(WholeWritten(c), Whole(c), 1, Version2(c))
  }

  lemma SmallGoesToLevel2(c: Setting)
    requires Suits(c)
    ensures MayPlace(EMPTY, Small(c), 2) && IsPickedLevel(EMPTY, J, J, c.sizes.maxFileSize, 2)
  {
    EmptyVersion();
  }

  /** Small is in the way at level 2, and not large enough to keep Whole above level 1. */
  lemma StopsAboveLevel2(v: Version, small: File, f: File, maxFileSize: nat)
    requires v[0] == [] && v[1] == [] && v[2] == [small] && small.size <= 10 * maxFileSize
    requires Overlaps(small, Some(f.smallest.user), Some(f.largest.user))
    ensures MayPlace(v, f, 1) && IsPickedLevel(v, f.smallest.user, f.largest.user, maxFileSize, 1)
  {
    OverlappingOne(small, f.smallest.user, f.largest.user);
    SizeOfOne(small);
    assert small in v[2] && Touched(v[2], f.smallest.user, f.largest.user);
    assert MayMoveOn(v, 0, f.smallest.user, f.largest.user, maxFileSize);
  }

  lemma WholeGoesToLevel1(c: Setting)
    requires Suits(c)
    ensures MayPlace(Version1(c), Whole(c), 1) && IsPickedLevel(Version1(c), J, K, c.sizes.maxFileSize, 1)
  {
    hide MayPlace, IsPickedLevel;
    LevelsAre([], [Small(c)], []);
    TableSizes(c);
    StopsAboveLevel2(Version1(c), Small(c), Whole(c), c.sizes.maxFileSize);
  }

  lemma SmallIsFlushed(c: Setting)
    requires Suits(c)
    ensures Reached(c.sizes, SmallFlushed(c), NO_POINTERS)
  {
    hide Inv, CodeReaches, MayPlace, IsPickedLevel, Installs, Suits, WellFormed;
    CodeReachesCreated(c.sizes);
    CreatedSatisfiesInv();
    WriteIsReached(c.sizes, CREATED, NO_POINTERS, WRITE_J);
    WrittenEntries(c);
    TableContents(c);
    SmallGoesToLevel2(c);
    SmallIsInstalled(c, FlushEdit(Flushing(SmallWritten(), Small(c)), Small(c), 2));
    FlushIsReached(c.sizes, SmallWritten(), NO_POINTERS, Small(c), 2, Version1(c));
  }

  lemma AfterSmall(c: Setting)
    ensures var d := SmallFlushed(c);
            && Idle(d) && d.mem == {} && d.version == Version1(c) && d.nextFile == 6 && d.lastSequence == 1
            && d.snapshots == [] && d.history == WRITE_J.ops
  {
    AfterFlush(SmallWritten(), Small(c), 2, Version1(c));
    var none: seq<Op> := [];
    assert none + WRITE_J.ops == WRITE_J.ops;
  }

  lemma SnapshotIsHeld(c: Setting)
    requires Suits(c)
    ensures Reached(c.sizes, SnapshotHeld(c), NO_POINTERS)
  {
    hide Inv, CodeReaches, SmallFlushed, Suits;
    SmallIsFlushed(c);
    AfterSmall(c);
    WriteIsReached(c.sizes, SmallFlushed(c), NO_POINTERS, WriteOlder(c));
    var none: seq<nat> := [];
    assert none + [2] == [2];
    Then(c.sizes, Wrote(SmallFlushed(c), WriteOlder(c)), NO_POINTERS, StoreRuns.Snapshot, SnapshotHeld(c), NO_POINTERS);
  }

  lemma AfterWholeWritten(c: Setting)
    ensures var d := WholeWritten(c);
            && Idle(SnapshotHeld(c)) && SnapshotHeld(c).lastSequence == 2
            && Idle(d) && d.mem == {Older(c), Newer(c), SECOND_J} && d.version == Version1(c) && d.nextFile == 6
            && d.lastSequence == 4 && d.snapshots == [2]
            && d.history == WRITE_J.ops + WriteOlder(c).ops + WriteNewer(c).ops
  {
    hide SmallFlushed;
    AfterSmall(c);
    WrittenEntries(c);
  }

  lemma WholeIsFlushed(c: Setting)
    requires Suits(c)
    ensures Reached(c.sizes, WholeFlushed(c), NO_POINTERS)
  {
    hide Inv, CodeReaches, SnapshotHeld, WholeWritten, MayPlace, IsPickedLevel, Installs, WellFormed;
    SnapshotIsHeld(c);
    AfterWholeWritten(c);
    WholeIsWritten(c);
    TableContents(c);
    WholeGoesToLevel1(c);
    WholeIsInstalled(c, FlushEdit(Flushing(WholeWritten(c), Whole(c)), Whole(c), 1));
    FlushIsReached(c.sizes, WholeWritten(c), NO_POINTERS, Whole(c), 1, Version2(c));
  }

  lemma WholeIsWritten(c: Setting)
    requires Suits(c)
    ensures Reached(c.sizes, WholeWritten(c), NO_POINTERS)
  {
    hide Inv, SnapshotHeld;
    SnapshotIsHeld(c);
    AfterWholeWritten(c);
    WriteIsReached(c.sizes, SnapshotHeld(c), NO_POINTERS, WriteNewer(c));
  }

  // ---------- The compaction ----------

  /** Below level 0 what is selected for some files is what overlaps the user keys they span. */
  lemma Selected(span: seq<File>, files: seq<File>, level: nat, lo: Key, hi: Key)
    requires level > 0 && IsUserRange(span, lo, hi)
    ensures SelectsFor(span, files, level, Overlapping(files, Some(lo), Some(hi)))
  {
    assert Selects(files, level, Some(lo), Some(hi), Overlapping(files, Some(lo), Some(hi)));
  }

  /** A file that is alone in its level, or has nothing below it, is compacted alone with what it overlaps below. */
  lemma SetUpAlone(v: Version, level: nat, f: File, lower: seq<File>, limit: nat)
    requires 0 < level && level + 2 < NUM_LEVELS && (v[level] == [f] || lower == []) && v[level + 2] == []
    requires WellFormed(f) && f.smallest.user == J && f.largest.user == K
    requires lower == Overlapping(v[level + 1], Some(J), Some(K))
    requires forall g :: g in lower ==> J <= g.smallest.user && g.largest.user <= K
    ensures IsSetUp(v, level, [f], Plan(level, [f], lower, []), limit)
  {
    assert IsUserRange([f], J, K);
    assert IsUserRange([f] + lower, J, K) by {
      assert f in [f] + lower;
    }
    Selected([f], v[level + 1], level + 1, J, K);
    Selected([f] + lower, v[level + 2], level + 2, J, K);
    if lower != [] {
      Selected([f] + lower, v[level], level, J, K);
      OverlappingOne(f, J, K);
      assert !Grows(v, level, [f], lower, [f], limit);
    }
  }

  /** The only level that is not below its limit is the fullest one. */
  lemma OnlyFull(v: Version, level: nat)
    requires level + 1 < NUM_LEVELS && Score(v, level) >= 1.0
    requires forall l :: 0 <= l < NUM_LEVELS - 1 && l != level ==> Score(v, l) < 1.0
    ensures IsFullest(v, level)
  {
  }

  lemma LevelLimits()
    ensures MaxBytesForLevel(1) == 10485760.0 && MaxBytesForLevel(2) == 104857600.0
  {
  }

  // ---------- Where its output is cut ----------

  function Merged(c: Setting): seq<Entry> {
    [SECOND_J, FIRST_J, Newer(c), Older(c)]
  }

  lemma MergedInputs(c: Setting)
    ensures Sorted(Merged(c)) && EntrySet(Merged(c)) == InputEntries(CompactWhole(c))
    ensures EntrySet(Merged(c)) == {SECOND_J, FIRST_J, Newer(c), Older(c)}
  {
    ContentsOfOne(Whole(c));
    ContentsOfOne(Small(c));
    TableContents(c);
  }

  /** The snapshot still reads the older versions, so all of them stay. */
  lemma NothingIsDropped(c: Setting, base: iset<Key>)
    ensures forall e :: e in Merged(c) ==> !Dropped(EntrySet(Merged(c)), 2, base, e)
  {
    MergedInputs(c);
  }

  lemma CutNextOf(rule: CutRule, input: seq<Entry>, n: nat, snapshot: nat, base: iset<Key>, done: seq<seq<Entry>>,
                  current: seq<Entry>)
    requires rule.grandparents == [] && n < |input| && !Dropped(EntrySet(input), snapshot, base, input[n])
    requires var k := CutTo(rule, input, n, snapshot, base);
             k.done == done && k.current == current && k.overlap.bytes == 0
    ensures var k, with := CutTo(rule, input, n + 1, snapshot, base), current + [input[n]];
            && k.overlap.bytes == 0
            && if rule.sizeOf(with) >= rule.maxSize then k.done == done + [with] && k.current == []
               else k.done == done && k.current == with
  {
  }

  lemma CutAfterNewer(c: Setting, rule: CutRule, base: iset<Key>)
    requires Suits(c) && rule == CutsOf(CompactWhole(c), c.sizes)
    ensures CutInto(rule, Merged(c), 2, base) == [Front(c).entries, Back(c).entries]
  {
    hide Dropped, CutTo, Suits, EntrySet;
    NothingIsDropped(c, base);
    TableSizes(c);
    RuleSizes(c, rule);
    CutAfterThird(rule, Merged(c), SECOND_J, FIRST_J, Newer(c), Older(c), base);
  }

  lemma RuleSizes(c: Setting, rule: CutRule)
    requires Suits(c) && rule == CutsOf(CompactWhole(c), c.sizes)
    ensures rule.grandparents == []
    ensures rule.sizeOf([SECOND_J]) < rule.maxSize && rule.sizeOf([SECOND_J, FIRST_J]) < rule.maxSize
    ensures rule.sizeOf([SECOND_J, FIRST_J, Newer(c)]) >= rule.maxSize && rule.sizeOf([Older(c)]) >= rule.maxSize
  {
    TableSizes(c);
  }

  lemma CutAfterThird(rule: CutRule, input: seq<Entry>, w: Entry, x: Entry, y: Entry, z: Entry, base: iset<Key>)
    requires input == [w, x, y, z] && rule.grandparents == []
    requires forall e :: e in input ==> !Dropped(EntrySet(input), 2, base, e)
    requires rule.sizeOf([w]) < rule.maxSize && rule.sizeOf([w, x]) < rule.maxSize
    requires rule.sizeOf([w, x, y]) >= rule.maxSize && rule.sizeOf([z]) >= rule.maxSize
    ensures CutInto(rule, input, 2, base) == [[w, x, y], [z]]
  {
    hide Dropped, CutTo, EntrySet;
    NothingCut(rule, input, base);
    assert [] + [w] == [w] && [w] + [x] == [w, x] && [w, x] + [y] == [w, x, y] && [] + [z] == [z];
    CutNextOf(rule, input, 0, 2, base, [], []);
    CutNextOf(rule, input, 1, 2, base, [], [w]);
    CutNextOf(rule, input, 2, 2, base, [], [w, x]);
    CutNextOf(rule, input, 3, 2, base, [[w, x, y]], []);
  }

  lemma NothingCut(rule: CutRule, input: seq<Entry>, base: iset<Key>)
    ensures CutTo(rule, input, 0, 2, base) == Cutting([], [], Overlapped(0, false, 0))
  {
  }

  // ---------- It is installed ----------

  lemma WholeIsPicked(c: Setting)
    requires Suits(c)
    ensures Picks(Version2(c), NO_POINTERS, None, c.sizes.maxFileSize, CompactWhole(c))
  {
    hide IsSetUp, Overlapping, Suits;
    var v := Version2(c);
    LevelsAre([Whole(c)], [Small(c)], []);
    TableSizes(c);
    WholeIsFullest(v, Whole(c), Small(c));
    TableContents(c);
    OverlappingOne(Small(c), J, K);
    SetUpAlone(v, 1, Whole(c), [Small(c)], 25 * c.sizes.maxFileSize);
    assert IsNext(v[1], NO_POINTERS[1], Whole(c));
    assert StartsAt(v, NO_POINTERS, None, 1, Whole(c));
    assert StartsFrom(v, 1, Whole(c), [Whole(c)]);
  }

  lemma WholeIsFullest(v: Version, whole: File, small: File)
    requires v[1] == [whole] && v[2] == [small] && forall l :: 0 <= l < NUM_LEVELS && l != 1 && l != 2 ==> v[l] == []
    requires whole.size >= LARGE && small.size < ONE_MB
    ensures IsFullest(v, 1) && Score(v, 1) >= 1.0
  {
    LevelLimits();
    SizeOfOne(whole);
    SizeOfOne(small);
    forall l | 0 <= l < NUM_LEVELS - 1 && l != 1 ensures Score(v, l) < 1.0 {
      if l != 2 {
        EmptyScore(v, l);
      }
    }
    OnlyFull(v, 1);
  }

  lemma EmptyScore(v: Version, level: nat)
    requires level < NUM_LEVELS && v[level] == []
    ensures Score(v, level) == 0.0
  {
    assert 0.0 / MaxBytesForLevel(level) == 0.0;
  }

  lemma CompactionIsValid(c: Setting)
    ensures ValidPlan(Version2(c), CompactWhole(c)) && SafeEdges(Version2(c), CompactWhole(c))
  {
    LevelsAre([Whole(c)], [Small(c)], []);
    OverlappingOne(Small(c), J, K);
    assert Whole(c) in [Whole(c)];
    assert IsUserRange([Whole(c)], J, K);
  }

  ghost function Compacting(c: Setting): Db {
    TableOf(TableOf(WholeFlushed(c), Front(c)), Back(c))
  }

  ghost function SplitEdit(c: Setting, db: Db): Edit {
    CompletedEdit(db, db.logNumber, InputDeletions(CompactWhole(c)), AtLevel([Front(c), Back(c)], 2))
  }

  ghost function Compacted(c: Setting, db: Db): Db {
    Store.Applied(db, SplitEdit(c, db), db.logNumber, SplitVersion(c))
  }

  ghost function SplitDb(c: Setting): Db {
    Compacted(c, Compacting(c))
  }

  lemma BeforeCompaction(c: Setting)
    ensures var d := WholeFlushed(c);
            && d.version == Version2(c) && d.mem == {} && d.imm.None? && d.nextFile == 8 && d.lastSequence == 4
            && d.snapshots == [2] && d.history == WRITE_J.ops + WriteOlder(c).ops + WriteNewer(c).ops
  {
    hide WholeWritten, SnapshotHeld;
    AfterWholeWritten(c);
    AfterFlush(WholeWritten(c), Whole(c), 1, Version2(c));
  }

  lemma OutputsHoldTheInputs(c: Setting)
    ensures AllWellFormed([Front(c), Back(c)])
    ensures Contents([Front(c), Back(c)]) == InputEntries(CompactWhole(c))
    ensures Kept(InputEntries(CompactWhole(c)), 2, DropBase(Version2(c), CompactWhole(c)))
            == InputEntries(CompactWhole(c))
  {
    TableContents(c);
    MergedInputs(c);
    NothingIsDropped(c, DropBase(Version2(c), CompactWhole(c)));
    assert [Front(c), Back(c)][0] == Front(c) && [Front(c), Back(c)][1] == Back(c);
    forall e ensures e in Contents([Front(c), Back(c)])
        <==> e in EntrySet(Front(c).entries) || e in EntrySet(Back(c).entries) {}
  }

  lemma CompactionIsNext(c: Setting, db: Db)
    requires db.version == Version2(c) && db.snapshots == [2] && Written(db, Front(c)) && Written(db, Back(c))
    requires Installs(Version2(c), SplitEdit(c, db), SplitVersion(c))
    ensures InstallCompaction(db, Compacted(c, db), CompactWhole(c), [Front(c), Back(c)], SplitVersion(c))
  {
    hide Installs, ValidPlan, Contents, InputEntries, Kept, DropBase, Written, AllWellFormed;
    CompactionIsValid(c);
    OutputsHoldTheInputs(c);
    SplitFilesInOrder(c);
  }

  function PointersAfterWhole(c: Setting): Pointers {
    NO_POINTERS[1 := Some(Whole(c).largest)]
  }

  function PointersAfterMove(c: Setting): Pointers {
    PointersAfterWhole(c)[2 := Some(Front(c).largest)]
  }

  /** The code compacts Whole, because level 1 is over its limit, and cuts its output between the versions of k. */
  lemma CodeCompactsWhole(c: Setting, db: Db)
    requires Suits(c) && db.version == Version2(c) && db.snapshots == [2]
    ensures CodeTakes(db, NO_POINTERS, StoreRuns.Compacted(CompactWhole(c), [Front(c), Back(c)], SplitVersion(c)),
                      PointersAfterWhole(c), c.sizes)
  {
    hide Suits, Picks, CutInto, EntrySet, InputEntries, Sorted;
    WholeIsPicked(c);
    MergedInputs(c);
    CutAfterNewer(c, CutsOf(CompactWhole(c), c.sizes), DropBase(db.version, CompactWhole(c)));
    assert AreTables([Front(c), Back(c)], [Front(c).entries, Back(c).entries], c.sizes.sizeOf);
    assert CompactsInto(db, CompactWhole(c), [Front(c), Back(c)], c.sizes);
    TableContents(c);
    PointerOfOne(NO_POINTERS, CompactWhole(c), Whole(c));
  }

  lemma PointerOfOne(pointers: Pointers, p: Plan, f: File)
    requires p.inputs0 == [f] && WellFormed(f) && p.level < NUM_LEVELS
    ensures PointsPast(pointers, p, pointers[p.level := Some(f.largest)])
  {
    assert f in p.inputs0;
    assert IsRange(p.inputs0, f.smallest, f.largest);
  }

  /** The code leaves the two versions of k in two files, in a store in good order. */
  lemma SplitIsReached(c: Setting)
    requires Suits(c)
    ensures CodeReaches(c.sizes, SplitDb(c), PointersAfterWhole(c)) && Inv(SplitDb(c))
  {
    hide Inv, CodeReaches, Suits, WholeFlushed, Installs, InstallCompaction, ValidPlan, SafeEdges;
    WholeIsFlushed(c);
    BeforeCompaction(c);
    var flushed, one := WholeFlushed(c), TableOf(WholeFlushed(c), Front(c));
    Then(c.sizes, flushed, NO_POINTERS, NewTable(Front(c).entries), one, NO_POINTERS);
    Then(c.sizes, one, NO_POINTERS, NewTable(Back(c).entries), Compacting(c), NO_POINTERS);
    SplitIsInstalled(c, SplitEdit(c, Compacting(c)));
    CompactionIsNext(c, Compacting(c));
    CompactionIsValid(c);
    CodeCompactsWhole(c, Compacting(c));
    var step := StoreRuns.Compacted(CompactWhole(c), [Front(c), Back(c)], SplitVersion(c));
    CarefulIsSafe(Compacting(c), step);
    Then(c.sizes, Compacting(c), NO_POINTERS, step, SplitDb(c), PointersAfterWhole(c));
  }

  // ---------- The move ----------

  lemma BeforeMove(c: Setting)
    ensures var d := SplitDb(c);
            && d.version == SplitVersion(c) && d.mem == {} && d.imm.None? && d.lastSequence == 4
            && d.history == WRITE_J.ops + WriteOlder(c).ops + WriteNewer(c).ops
  {
    hide WholeFlushed;
    BeforeCompaction(c);
  }

  ghost function MovedDb(c: Setting): Db {
    var db := SplitDb(c);
    Store.Applied(db, CompletedEdit(db, db.logNumber, InputDeletions(MoveFront(c)), AtLevel([Front(c)], 3)),
                  db.logNumber,
                  MovedVersion(c))
  }

  lemma FrontIsPicked(c: Setting)
    requires Suits(c)
    ensures Picks(SplitVersion(c), PointersAfterWhole(c), None, c.sizes.maxFileSize, MoveFront(c))
  {
    hide IsSetUp, Overlapping, Suits;
    var v := SplitVersion(c);
    LevelsAre([], [Front(c), Back(c)], []);
    TableSizes(c);
    SplitLevelIsFullest(v, Front(c), Back(c));
    TableContents(c);
    OverlappingOne(Front(c), J, K);
    SetUpAlone(v, 2, Front(c), [], 25 * c.sizes.maxFileSize);
    assert IsNext(v[2], PointersAfterWhole(c)[2], Front(c));
    assert StartsAt(v, PointersAfterWhole(c), None, 2, Front(c));
    assert StartsFrom(v, 2, Front(c), [Front(c)]);
  }

  lemma SplitLevelIsFullest(v: Version, front: File, back: File)
    requires v[2] == [front, back] && forall l :: 0 <= l < NUM_LEVELS && l != 2 ==> v[l] == []
    requires front.size >= LARGE && back.size >= LARGE
    ensures IsFullest(v, 2) && Score(v, 2) >= 1.0
  {
    LevelLimits();
    SizeOfOne(back);
    assert [front, back][1..] == [back];
    forall l | 0 <= l < NUM_LEVELS - 1 && l != 2 ensures Score(v, l) < 1.0 {
      EmptyScore(v, l);
    }
    OnlyFull(v, 2);
  }

  lemma MoveIsValid(c: Setting)
    ensures ValidPlan(SplitVersion(c), MoveFront(c)) && SplitsAKey(SplitVersion(c)[2], MoveFront(c).inputs0)
  {
    LevelsAre([], [Front(c), Back(c)], []);
    OverlappingOne(Front(c), J, K);
    assert Front(c) in [Front(c)] && [Front(c), Back(c)][0] == Front(c) && [Front(c), Back(c)][1] == Back(c);
    assert IsUserRange([Front(c)], J, K);
  }

  lemma MoveIsNext(c: Setting)
    ensures TrivialMove(SplitDb(c), MovedDb(c), MoveFront(c), MovedVersion(c))
  {
    hide SplitDb, ValidPlan, Installs;
    BeforeMove(c);
    MoveIsValid(c);
    var db := SplitDb(c);
    MoveIsInstalled(c, CompletedEdit(db, db.logNumber, InputDeletions(MoveFront(c)), AtLevel([Front(c)], 3)));
  }

  lemma MoveIsReached(c: Setting)
    requires Suits(c)
    ensures CodeReaches(c.sizes, MovedDb(c), PointersAfterMove(c)) && !Inv(MovedDb(c))
  {
    hide Inv, CodeReaches, Suits, SplitDb, MovedDb, Picks, ValidPlan, TrivialMove;
    SplitIsReached(c);
    BeforeMove(c);
    FrontIsPicked(c);
    MoveIsValid(c);
    MoveIsNext(c);
    TableContents(c);
    PointerOfOne(PointersAfterWhole(c), MoveFront(c), Front(c));
    var step := StoreRuns.Moved(MoveFront(c), MovedVersion(c));
    CodeReachesNext(c.sizes, SplitDb(c), PointersAfterWhole(c), step, MovedDb(c), PointersAfterMove(c));
    TrivialMoveKeepsInv(SplitDb(c), MovedDb(c), MoveFront(c), MovedVersion(c));
  }

  // ---------- What a lookup returns then ----------

  lemma SearchFindsOlder(c: Setting, hit: Option<Entry>)
    requires FirstHit(MovedVersion(c), K, 4, hit)
    ensures hit == Some(Older(c))
  {
    LevelsAre([], [Back(c)], [Front(c)]);
    TableContents(c);
    ContentsOfOne(Back(c));
    var v := MovedVersion(c);
    assert Older(c) in Contents(v[2]) && Contents([]) == {};
    assert !Decides(Contents(v[2]), K, 4, None);
    if hit.Some? {
      var level :| IsFirstHit(v, K, 4, hit.value, level);
      assert level == 2;
    }
  }

  lemma MovedIsSearchable(c: Setting)
    ensures Searchable(MovedVersion(c))
  {
    LevelsAre([], [Back(c)], [Front(c)]);
    TableContents(c);
  }

  lemma NewerWasAcknowledged(c: Setting, ops: seq<Op>)
    requires ops == WRITE_J.ops + WriteOlder(c).ops + WriteNewer(c).ops
    ensures ValueAt(MapOf(ops), K) == Some(c.newer)
  {
    var w, x, y, z := Op(Put, J, [7]), Op(Put, K, c.older), Op(Put, K, c.newer), Op(Put, J, [8]);
    assert ops == [w, x, y, z];
    assert ops[..3] == [w, x, y] && [w, x, y][..2] == [w, x] && [w, x][..1] == [w];
  }

  /** With whatever file size the options allow, the code can run into this: every level is in order, nothing is in
      memory, and the level-by-level search at the last sequence number returns the older value of k, although the
      newer one was acknowledged and is what the map of the operations holds. */
  lemma SplitKeyReadsStale(c: Setting)
    requires Suits(c)
    ensures exists pointers :: CodeReaches(c.sizes, MovedDb(c), pointers)
    ensures var db := MovedDb(c);
            && db.imm.None? && db.mem == {} && db.lastSequence == 4 && Searchable(db.version)
            && (forall hit :: FirstHit(db.version, K, 4, hit) ==> hit == Some(Older(c)))
            && ValueAt(MapOf(db.history), K) == Some(c.newer) && c.newer != c.older
  {
    hide Inv, CodeReaches, SplitDb, FirstHit;
    MoveIsReached(c);
    BeforeMove(c);
    MovedIsSearchable(c);
    NewerWasAcknowledged(c, MovedDb(c).history);
    forall hit | FirstHit(MovedVersion(c), K, 4, hit) ensures hit == Some(Older(c)) {
      SearchFindsOlder(c, hit);
    }
  }

  /** Tables as large as their last value. */
  function LastValueSize(es: seq<Entry>): nat {
    if es == [] then 0 else |es[|es| - 1].value|
  }

  lemma LastValueIsPlausible()
    ensures Plausible(LastValueSize)
  {
    forall es: seq<Entry> | |es| <= 2 && (forall e :: e in es ==> e.key.user == J && |e.value| == 1)
      ensures LastValueSize(es) < ONE_MB
    {
      assert es != [] ==> es[|es| - 1] in es;
    }
  }

  function Filled(n: nat, b: Byte): (v: Value)
    ensures |v| == n && forall i :: 0 <= i < n ==> v[i] == b
  {
    seq(n, _ => b)
  }

  /** Such settings exist. */
  lemma SomeSettingSuits() returns (c: Setting)
    ensures Suits(c) && c.sizes.maxFileSize == 2 * ONE_MB
  {
    hide Plausible, Filled;
    LastValueIsPlausible();
    c := Setting(Sizes(2 * ONE_MB, LastValueSize), Filled(LARGE, 0), Filled(LARGE, 1));
    assert Filled(LARGE, 0)[0] != Filled(LARGE, 1)[0];
  }
}
