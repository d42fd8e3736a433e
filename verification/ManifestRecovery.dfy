/** VersionSet::Recover (db/version_set.cc): the version and the counters, from the bytes of a manifest. */
module ManifestRecovery {
  import opened Coding
  import opened Visibility
  import opened InternalKeys
  import opened Versions
  import opened VersionEdits
  import opened LogFormat
  import Bytewise
  import EditCodec
  import Manifest
  import Store

  // ---------- What the bytes of an edit stand for ----------

  /** `contents` says what is in the table of each number. */
  type Contents = nat -> seq<Entry>

  function FileOf(contents: Contents, f: EditCodec.FileData): File {
    File(f.number, f.size, Bytewise.KeyOf(f.smallest), Bytewise.KeyOf(f.largest), contents(f.number))
  }

  function AddedOf(contents: Contents, added: seq<(nat, EditCodec.FileData)>): (r: seq<NewFile>)
    ensures |r| == |added| && forall i :: 0 <= i < |r| ==> r[i] == NewFile(added[i].0, FileOf(contents, added[i].1))
  {
    seq(|added|, i requires 0 <= i < |added| => NewFile(added[i].0, FileOf(contents, added[i].1)))
  }

  function EditOf(contents: Contents, e: EditCodec.FileEdit): Edit {
    Edit(e.logNumber, e.prevLogNumber, e.nextFileNumber, e.lastSequence, e.deleted, AddedOf(contents, e.added))
  }

  function EditsOf(contents: Contents, es: seq<EditCodec.FileEdit>): (m: seq<Edit>)
    ensures |m| == |es| && forall i :: 0 <= i < |m| ==> m[i] == EditOf(contents, es[i])
  {
    seq(|es|, i requires 0 <= i < |es| => EditOf(contents, es[i]))
  }

  // ---------- What edits say of files and counters ----------

  /** The table file that an edit describes. */
  ghost predicate Describes(contents: Contents, d: EditCodec.FileData, f: File) {
    && f.number == d.number && f.size == d.size && f.entries == contents(d.number)
    && f.smallest == Bytewise.KeyOf(d.smallest) && f.largest == Bytewise.KeyOf(d.largest)
  }

  /** Edit i adds the file to the level, and no later edit takes its number away there. */
  ghost predicate Stays(edits: seq<EditCodec.FileEdit>, level: nat, d: EditCodec.FileData, i: nat) {
    && i < |edits| && (level, d) in edits[i].added
    && forall j :: i < j < |edits| ==> (level, d.number) !in edits[j].deleted
  }

  /** A file is at the level exactly if it was added and is still there. */
  ghost predicate IsLevel(contents: Contents, edits: seq<EditCodec.FileEdit>, level: nat, files: set<File>) {
    forall f :: f in files <==> exists d, i :: Stays(edits, level, d, i) && Describes(contents, d, f)
  }

  lemma StaysOrIsNew(edits: seq<EditCodec.FileEdit>, n: nat, level: nat, d: EditCodec.FileData, i: nat)
    requires n + 1 == |edits|
    ensures Stays(edits, level, d, i) <==>
            if i == n then (level, d) in edits[n].added
            else Stays(edits[..n], level, d, i) && (level, d.number) !in edits[n].deleted
  {
  }

  lemma ChangesOf(contents: Contents, e: EditCodec.FileEdit, level: nat)
    ensures forall n :: n in DeletedAt(EditOf(contents, e), level) <==> (level, n) in e.deleted
    ensures forall f :: f in AddedAt(EditOf(contents, e), level) <==>
                        exists d :: (level, d) in e.added && Describes(contents, d, f)
  {
    var x := EditOf(contents, e);
    forall n | (level, n) in e.deleted ensures n in DeletedAt(x, level) {
      assert (level, n) in x.deleted && (level, n).0 == level;
    }
    forall d, f | (level, d) in e.added && Describes(contents, d, f) ensures f in AddedAt(x, level) {
      var i :| 0 <= i < |e.added| && e.added[i] == (level, d);
      assert x.added[i] == NewFile(level, f);
    }
    forall f | f in AddedAt(x, level) ensures exists d :: (level, d) in e.added && Describes(contents, d, f) {
      var i :| 0 <= i < |x.added| && x.added[i] == NewFile(level, f);
      assert (level, e.added[i].1) in e.added && Describes(contents, e.added[i].1, f);
    }
  }

  /** One edit after the other, what is left of a level is what was added and not taken away afterwards. */
  lemma {:induction false} ReplayIsLevel(contents: Contents, edits: seq<EditCodec.FileEdit>, level: nat)
    ensures IsLevel(contents, edits, level, AfterAll({}, EditsOf(contents, edits), level))
  {
    if edits != [] {
      var n := |edits| - 1;
      assert EditsOf(contents, edits)[..n] == EditsOf(contents, edits[..n]);
      ReplayIsLevel(contents, edits[..n], level);
      ChangesOf(contents, edits[n], level);
      LevelAfter(contents, edits, n, level, AfterAll({}, EditsOf(contents, edits[..n]), level));
    }
  }

  lemma LevelAfter(contents: Contents, edits: seq<EditCodec.FileEdit>, n: nat, level: nat, before: set<File>)
    requires n + 1 == |edits| && IsLevel(contents, edits[..n], level, before)
    ensures IsLevel(contents, edits, level, After(before, EditOf(contents, edits[n]), level))
  {
    var e := edits[n];
    var after := After(before, EditOf(contents, e), level);
    ChangesOf(contents, e, level);
    forall f | f in after ensures exists d, i :: Stays(edits, level, d, i) && Describes(contents, d, f) {
      if f in AddedAt(EditOf(contents, e), level) {
        var d :| (level, d) in e.added && Describes(contents, d, f);
        StaysOrIsNew(edits, n, level, d, n);
      } else {
        var d, i :| Stays(edits[..n], level, d, i) && Describes(contents, d, f);
        StaysOrIsNew(edits, n, level, d, i);
      }
    }
    forall f, d, i | Stays(edits, level, d, i) && Describes(contents, d, f) ensures f in after {
      StaysOrIsNew(edits, n, level, d, i);
    }
  }

  /** A counter of an edit. */
  type Counter = EditCodec.FileEdit -> Option<nat>

  /** v is what the last edit with this counter has, or None if there is no such edit. */
  ghost predicate IsLast(edits: seq<EditCodec.FileEdit>, counter: Counter, v: Option<nat>) {
    if v.None? then forall e :: e in edits ==> counter(e).None?
    else exists i :: 0 <= i < |edits| && counter(edits[i]) == v && forall j ::
        i < j < |edits| ==> counter(edits[j]).None?
  }

  lemma LastOrBefore(edits: seq<EditCodec.FileEdit>, n: nat, counter: Counter, v: Option<nat>)
    requires n + 1 == |edits| && IsLast(edits[..n], counter, v)
    ensures IsLast(edits, counter, Later(v, counter(edits[n])))
  {
    if counter(edits[n]).None? && v.Some? {
      var i :| 0 <= i < n && counter(edits[..n][i]) == v && forall j :: i < j < n ==> counter(edits[..n][j]).None?;
      assert edits[..n][i] == edits[i];
    }
  }

  function LogNumber(e: EditCodec.FileEdit): Option<nat> { e.logNumber }

  function PrevLogNumber(e: EditCodec.FileEdit): Option<nat> { e.prevLogNumber }

  function NextFileNumber(e: EditCodec.FileEdit): Option<nat> { e.nextFileNumber }

  function LastSequence(e: EditCodec.FileEdit): Option<nat> { e.lastSequence }

  lemma {:induction false} CountersAreTheirs(contents: Contents, edits: seq<EditCodec.FileEdit>)
    ensures var c := CountersOf(EditsOf(contents, edits));
            && IsLast(edits, LogNumber, c.logNumber) && IsLast(edits, PrevLogNumber, c.prevLogNumber)
            && IsLast(edits, NextFileNumber, c.nextFile) && IsLast(edits, LastSequence, c.lastSequence)
  {
    if edits != [] {
      var n := |edits| - 1;
      assert EditsOf(contents, edits)[..n] == EditsOf(contents, edits[..n]);
      CountersAreTheirs(contents, edits[..n]);
      var c := CountersOf(EditsOf(contents, edits[..n]));
      LastOrBefore(edits, n, LogNumber, c.logNumber);
      LastOrBefore(edits, n, PrevLogNumber, c.prevLogNumber);
      LastOrBefore(edits, n, NextFileNumber, c.nextFile);
      LastOrBefore(edits, n, LastSequence, c.lastSequence);
    }
  }

  // ---------- The counters ----------

  function Later(a: Option<nat>, b: Option<nat>): Option<nat> {
    if b.Some? then b else a
  }

  /** The have_... flags and the values found so far. */
  datatype Counters = Counters(logNumber: Option<nat>, prevLogNumber: Option<nat>, nextFile: Option<nat>,
                               lastSequence: Option<nat>)

  function CountersOf(m: seq<Edit>): Counters {
    if m == [] then Counters(None, None, None, None)
    else
      var c, e := CountersOf(m[..|m| - 1]), m[|m| - 1];
      Counters(Later(c.logNumber, e.logNumber), Later(c.prevLogNumber, e.prevLogNumber),
               Later(c.nextFile, e.nextFileNumber), Later(c.lastSequence, e.lastSequence))
  }

  lemma {:induction false} CountersAreLast(m: seq<Edit>)
    ensures Store.LastLogNumber(m) == if CountersOf(m).logNumber.Some? then CountersOf(m).logNumber.value else 0
    ensures Store.LastNextFile(m) == if CountersOf(m).nextFile.Some? then CountersOf(m).nextFile.value else 0
    ensures Store.LastLastSequence(m) == if CountersOf(m).lastSequence.Some? then CountersOf(m).lastSequence.value
                                         else 0
  {
    if m != [] {
      CountersAreLast(m[..|m| - 1]);
    }
  }

  // ---------- Recover ----------

  datatype Status = Ok | ComparatorDiffers | NoNextFile | NoLogNumber | NoLastSequence

  datatype Recovered = Recovered(version: Version, nextFileNumber: nat, lastSequence: nat, logNumber: nat,
                                 prevLogNumber: nat)

  ghost predicate SameComparator(name: Bytes, e: EditCodec.FileEdit) {
    e.comparator.None? || e.comparator.value == name
  }

  /** No number comes back at a level, and no edit adds two files with one number to a level. */
  ghost predicate Addable(m: seq<Edit>) {
    && (forall l :: 0 <= l < NUM_LEVELS ==> NeverReadded({}, m, l))
    && forall e :: e in m ==> DistinctNumbers(e.added) && (forall n :: n in e.added ==> n.level < NUM_LEVELS)
                              && forall d :: d in e.deleted ==> d.0 < NUM_LEVELS
  }

  /** The same of edits as they are written: what no two places of the manifest may share. */
  ghost predicate AddableFiles(edits: seq<EditCodec.FileEdit>) {
    && (forall i, j, l, d, x :: 0 <= i < j < |edits| && (l, d) in edits[i].added && (l, x) in edits[j].added
                                ==> d.number != x.number)
    && (forall e, i, j :: e in edits && 0 <= i < j < |e.added| && e.added[i].0 == e.added[j].0
                          ==> e.added[i].1.number != e.added[j].1.number)
    && forall e :: e in edits ==> (forall a :: a in e.added ==> a.0 < NUM_LEVELS)
                                  && forall d :: d in e.deleted ==> d.0 < NUM_LEVELS
  }

  lemma {:induction false} EverAdded(contents: Contents, edits: seq<EditCodec.FileEdit>, level: nat, n: nat)
    ensures n in Numbers(Ever({}, EditsOf(contents, edits), level)) <==>
            exists i, d :: 0 <= i < |edits| && (level, d) in edits[i].added && d.number == n
  {
    if edits != [] {
      var last := |edits| - 1;
      assert EditsOf(contents, edits)[..last] == EditsOf(contents, edits[..last]);
      EverAdded(contents, edits[..last], level, n);
      NumberAdded(contents, edits[last], level, n);
      var before, more := Ever({}, EditsOf(contents, edits[..last]), level),
          AddedAt(EditOf(contents, edits[last]), level);
      assert n in Numbers(before + more) <==> n in Numbers(before) || n in Numbers(more);
      if i, d :| 0 <= i < |edits| && (level, d) in edits[i].added && d.number == n {
        assert i < last ==> edits[..last][i] == edits[i];
      }
      if i, d :| 0 <= i < last && (level, d) in edits[..last][i].added && d.number == n {
        assert edits[..last][i] == edits[i];
      }
    }
  }

  lemma NumberAdded(contents: Contents, e: EditCodec.FileEdit, level: nat, n: nat)
    ensures n in Numbers(AddedAt(EditOf(contents, e), level)) <==> exists d :: (level, d) in e.added && d.number == n
  {
    ChangesOf(contents, e, level);
    forall d | (level, d) in e.added && d.number == n ensures n in Numbers(AddedAt(EditOf(contents, e), level)) {
      assert Describes(contents, d, FileOf(contents, d));
    }
  }

  /** It is what the builder needs of them. */
  lemma AddableAre(contents: Contents, edits: seq<EditCodec.FileEdit>)
    ensures AddableFiles(edits) <==> Addable(EditsOf(contents, edits))
  {
    if AddableFiles(edits) {
      FilesAreAddable(contents, edits);
    }
    if Addable(EditsOf(contents, edits)) {
      AddableAreFiles(contents, edits);
    }
  }

  lemma FilesAreAddable(contents: Contents, edits: seq<EditCodec.FileEdit>)
    requires AddableFiles(edits)
    ensures Addable(EditsOf(contents, edits))
  {
    var m := EditsOf(contents, edits);
    forall l, j | 0 <= l < NUM_LEVELS && 0 <= j < |m|
      ensures Numbers(Ever({}, m[..j], l)) !! Numbers(AddedAt(m[j], l))
    {
      assert m[..j] == EditsOf(contents, edits[..j]);
      forall n ensures !(n in Numbers(Ever({}, m[..j], l)) && n in Numbers(AddedAt(m[j], l))) {
        EverAdded(contents, edits[..j], l, n);
        NumberAdded(contents, edits[j], l, n);
      }
    }
    forall e | e in m ensures DistinctNumbers(e.added) && (forall n :: n in e.added ==> n.level < NUM_LEVELS)
                              && forall d :: d in e.deleted ==> d.0 < NUM_LEVELS {
      var i :| 0 <= i < |m| && m[i] == e;
      assert edits[i] in edits && forall k :: 0 <= k < |e.added| ==> edits[i].added[k] in edits[i].added;
    }
  }

  lemma AddableAreFiles(contents: Contents, edits: seq<EditCodec.FileEdit>)
    requires Addable(EditsOf(contents, edits))
    ensures AddableFiles(edits)
  {
    var m := EditsOf(contents, edits);
    forall e | e in edits
      ensures (forall a :: a in e.added ==> a.0 < NUM_LEVELS) && (forall d :: d in e.deleted ==> d.0 < NUM_LEVELS)
      ensures DistinctNumbers(EditOf(contents, e).added)
    {
      var i :| 0 <= i < |edits| && edits[i] == e;
      assert m[i] in m;
      forall a | a in e.added ensures a.0 < NUM_LEVELS {
        var k :| 0 <= k < |e.added| && e.added[k] == a;
        assert m[i].added[k] in m[i].added;
      }
    }
    forall e, i, j | e in edits && 0 <= i < j < |e.added| && e.added[i].0 == e.added[j].0
      ensures e.added[i].1.number != e.added[j].1.number
    {
      var x := EditOf(contents, e);
      assert x.added[i].level == x.added[j].level;
    }
    forall i, j, l, d, x | 0 <= i < j < |edits| && (l, d) in edits[i].added && (l, x) in edits[j].added
      ensures d.number != x.number
    {
      assert edits[j] in edits && (l, x).0 < NUM_LEVELS;
      assert m[..j] == EditsOf(contents, edits[..j]) && edits[..j][i] == edits[i];
      EverAdded(contents, edits[..j], l, d.number);
      NumberAdded(contents, edits[j], l, x.number);
      assert NeverReadded({}, m, l);
    }
  }

  lemma EmptyLevels()
    ensures forall l :: 0 <= l < NUM_LEVELS ==> EMPTY[l] == [] && Members(EMPTY[l]) == {}
  {
    forall l | 0 <= l < NUM_LEVELS ensures EMPTY[l] == [] {}
  }

  lemma PrefixNeverReadded(m: seq<Edit>, i: nat, level: nat)
    requires NeverReadded({}, m, level) && i <= |m|
    ensures NeverReadded({}, m[..i], level)
  {
    forall j | 0 <= j < i
      ensures Numbers(Ever({}, m[..i][..j], level)) !! Numbers(AddedAt(m[..i][j], level))
    {
      assert m[..i][..j] == m[..j] && m[..i][j] == m[j];
      assert Numbers(Ever({}, m[..j], level)) !! Numbers(AddedAt(m[j], level));
    }
  }

  /** The builder has the first i edits. */
  ghost predicate Built(builder: Builder, m: seq<Edit>, i: nat)
    reads builder
  {
    i <= |m| && builder.Valid() && builder.base == EMPTY && builder.edits == m[..i]
  }

  lemma MayApply(m: seq<Edit>, i: nat, before: seq<Edit>, more: seq<Edit>)
    requires Addable(m) && i < |m| && before == m[..i] && more == before + [m[i]]
    ensures m[i] in m && more == m[..i + 1]
    ensures forall l :: 0 <= l < NUM_LEVELS ==> NeverReadded(Members(EMPTY[l]), more, l)
  {
    EmptyLevels();
    assert more == m[..i + 1];
    forall l | 0 <= l < NUM_LEVELS ensures NeverReadded(Members(EMPTY[l]), more, l) {
      PrefixNeverReadded(m, i + 1, l);
    }
  }

  method ApplyNext(builder: Builder, e: Edit, ghost m: seq<Edit>, ghost i: nat)
    requires Built(builder, m, i) && i < |m| && e == m[i] && Addable(m)
    modifies builder
    ensures Built(builder, m, i + 1)
  {
    MayApply(m, i, builder.edits, builder.edits + [e]);
    builder.Apply(e);
  }

  /** Of a complete builder. */
  method Save(builder: Builder, ghost m: seq<Edit>) returns (v: Version)
    requires Built(builder, m, |m|)
    ensures Store.Replayed(m, v)
  {
    EmptyLevels();
    assert m[..|m|] == m;
    v := builder.SaveTo();
  }

  lemma NextCounters(contents: Contents, edits: seq<EditCodec.FileEdit>, m: seq<Edit>, i: nat)
    requires i < |edits| && m == EditsOf(contents, edits)
    ensures var c, e := CountersOf(m[..i]), edits[i];
            CountersOf(m[..i + 1]) == Counters(Later(c.logNumber, e.logNumber), Later(c.prevLogNumber, e.prevLogNumber),
                                               Later(c.nextFile, e.nextFileNumber),
                                               Later(c.lastSequence, e.lastSequence))
  {
    assert m[..i + 1][..i] == m[..i];
  }

  /** The loop over the edits, and the counters it leaves. */
  method ApplyAll(builder: Builder, edits: seq<EditCodec.FileEdit>, contents: Contents, name: Bytes)
    returns (c: Counters, status: Status)
    requires Built(builder, EditsOf(contents, edits), 0) && Addable(EditsOf(contents, edits))
    modifies builder
    ensures status == (if forall e :: e in edits ==> SameComparator(name, e) then Ok else ComparatorDiffers)
    ensures status.Ok?
            ==> Built(builder, EditsOf(contents, edits), |edits|) && c == CountersOf(EditsOf(contents, edits))
  {
    hide Addable, EditOf;
    ghost var m := EditsOf(contents, edits);
    c := Counters(None, None, None, None);
    for i := 0 to |edits|
      invariant Built(builder, m, i) && c == CountersOf(m[..i])
      invariant forall j :: 0 <= j < i ==> SameComparator(name, edits[j])
    {
      var e := edits[i];
      if e.comparator.Some? && e.comparator.value != name {
        assert e in edits;
        return c, ComparatorDiffers;
      }
      NextCounters(contents, edits, m, i);
      ApplyNext(builder, EditOf(contents, e), m, i);
      c := Counters(Later(c.logNumber, e.logNumber), Later(c.prevLogNumber, e.prevLogNumber),
                    Later(c.nextFile, e.nextFileNumber), Later(c.lastSequence, e.lastSequence));
    }
    assert m[..|edits|] == m;
    status := Ok;
  }

  /** What Recover returns for these edits. */
  ghost predicate RecoversTo(m: seq<Edit>, status: Status, r: Recovered) {
    var c := CountersOf(m);
    if c.nextFile.None? then status == NoNextFile
    else if c.logNumber.None? then status == NoLogNumber
    else if c.lastSequence.None? then status == NoLastSequence
    else
      && status == Ok && Store.Replayed(m, r.version)
      && r.nextFileNumber == Store.LastNextFile(m) + 1 && r.logNumber == Store.LastLogNumber(m)
      && r.lastSequence == Store.LastLastSequence(m)
      && r.prevLogNumber == if c.prevLogNumber.Some? then c.prevLogNumber.value else 0
  }

  /** The same from the edits as they are written: the files that stay at each level, in key order, and the last value
      of each counter. */
  ghost predicate Recovers(contents: Contents, edits: seq<EditCodec.FileEdit>, status: Status, r: Recovered) {
    if forall e :: e in edits ==> e.nextFileNumber.None? then status == NoNextFile
    else if forall e :: e in edits ==> e.logNumber.None? then status == NoLogNumber
    else if forall e :: e in edits ==> e.lastSequence.None? then status == NoLastSequence
    else
      && status == Ok
      && (forall l :: 0 <= l < NUM_LEVELS ==>
                        Ascending(r.version[l]) && IsLevel(contents, edits, l, Members(r.version[l])))
      && 0 < r.nextFileNumber && IsLast(edits, NextFileNumber, Some(r.nextFileNumber - 1))
      && IsLast(edits, LogNumber, Some(r.logNumber)) && IsLast(edits, LastSequence, Some(r.lastSequence))
      && if forall e :: e in edits ==> e.prevLogNumber.None? then r.prevLogNumber == 0
         else IsLast(edits, PrevLogNumber, Some(r.prevLogNumber))
  }

  lemma RecoveredAsWritten(contents: Contents, edits: seq<EditCodec.FileEdit>, status: Status, r: Recovered)
    requires RecoversTo(EditsOf(contents, edits), status, r)
    ensures Recovers(contents, edits, status, r)
  {
    hide CountersOf, IsLevel, AfterAll, Store.LastLogNumber, Store.LastNextFile, Store.LastLastSequence;
    var m := EditsOf(contents, edits);
    CountersAreTheirs(contents, edits);
    CountersAreLast(m);
    if status.Ok? {
      forall l | 0 <= l < NUM_LEVELS
        ensures Ascending(r.version[l]) && IsLevel(contents, edits, l, Members(r.version[l]))
      {
        ReplayIsLevel(contents, edits, l);
      }
    }
  }

  /** The first bytes of a manifest that logs these edits. */
  ghost predicate ManifestHolds(crc: Checksum, file: Bytes, logged: seq<Manifest.Logged>) {
    && (forall l :: l in logged ==> Manifest.Ok(l))
    && var all := EncodeAll(Records(crc), Manifest.Reps(logged), 0);
       |file| <= |all| && file == all[..|file|]
  }

  /** The edits whose record is complete. */
  ghost function CompleteEdits(crc: Checksum, file: Bytes, logged: seq<Manifest.Logged>): seq<EditCodec.FileEdit> {
    var n := Complete(Records(crc), Manifest.Reps(logged), 0, |file|);
    if n <= |logged| then Manifest.Edits(logged)[..n] else []
  }

  /** From the first bytes of a manifest: the files that its complete edits add, and none of which a later one takes
      away, are in the version, and each counter is the last one that an edit has. It is also what one builder makes of
      all edits as the store's edits. */
  method Recover(crc: Checksum, file: Bytes, contents: Contents, name: Bytes, ghost logged: seq<Manifest.Logged>)
    returns (status: Status, r: Recovered)
    requires ManifestHolds(crc, file, logged)
    requires AddableFiles(CompleteEdits(crc, file, logged))
    ensures var edits := CompleteEdits(crc, file, logged);
            if exists e :: e in edits && !SameComparator(name, e) then status == ComparatorDiffers
            else Recovers(contents, edits, status, r) && RecoversTo(EditsOf(contents, edits), status, r)
  {
    var edits, ok, reports := Manifest.ReadManifest(crc, file, logged);
    assert edits == CompleteEdits(crc, file, logged);
    status, r := RecoverEdits(edits, contents, name);
  }

  method RecoverEdits(edits: seq<EditCodec.FileEdit>, contents: Contents, name: Bytes)
    returns (status: Status, r: Recovered)
    requires AddableFiles(edits)
    ensures if exists e :: e in edits && !SameComparator(name, e) then status == ComparatorDiffers
            else Recovers(contents, edits, status, r) && RecoversTo(EditsOf(contents, edits), status, r)
  {
    hide AddableFiles, Recovers;
    AddableAre(contents, edits);
    EmptyLevels();
    var builder := new Builder(EMPTY);
    assert builder.edits == EditsOf(contents, edits)[..0];
    var c;
    c, status := ApplyAll(builder, edits, contents, name);
    r := Recovered(EMPTY, 0, 0, 0, 0);
    if !status.Ok? {
      return;
    }
    CountersAreLast(EditsOf(contents, edits));
    if c.nextFile.None? {
      status := NoNextFile;
    } else if c.logNumber.None? {
      status := NoLogNumber;
    } else if c.lastSequence.None? {
      status := NoLastSequence;
    } else {
      var v := Save(builder, EditsOf(contents, edits));
      r := Recovered(v, c.nextFile.value + 1, c.lastSequence.value, c.logNumber.value,
                     if c.prevLogNumber.Some? then c.prevLogNumber.value else 0);
    }
    RecoveredAsWritten(contents, edits, status, r);
  }
}
