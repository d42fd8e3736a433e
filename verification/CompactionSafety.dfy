/** What installing the result of a compaction does to a version: it stays searchable and keeps
    every read, exactly when no user key is split at the edge of the inputs. */
module CompactionSafety {
  import opened InternalKeys
  import opened Visibility
  import opened Versions
  import opened VersionEdits
  import opened Overlap
  import opened CompactionRules
  import opened CompactionWork
  import opened CompactionPicking

  // ---------- Before and after ----------

  /** The entries of the files that stay when `inputs` leave the level. */
  ghost function LeftOver(files: seq<File>, inputs: seq<File>): set<Entry> {
    set f, e | f in files && f !in inputs && e in f.entries :: e
  }

  ghost function InputEntries(p: Plan): set<Entry> {
    Contents(p.inputs0) + Contents(p.inputs1)
  }

  ghost function StaysAt(v: Version, p: Plan, l: nat): set<Entry>
    requires l < NUM_LEVELS
  {
    if l == p.level then LeftOver(v[l], p.inputs0)
    else if l == p.level + 1 then LeftOver(v[l], p.inputs1)
    else Contents(v[l])
  }

  ghost function Rest(v: Version, p: Plan): set<Entry> {
    set l, e | 0 <= l < NUM_LEVELS && e in StaysAt(v, p, l) :: e
  }

  ghost function DropBase(v: Version, p: Plan): iset<Key> {
    iset k | BaseLevel(v, p.level, k)
  }

  /** v' is v with the inputs gone and the outputs one level down, every level in key order. */
  ghost predicate Replaces(v: Version, p: Plan, outputs: seq<File>, v': Version)
    requires p.level + 1 < NUM_LEVELS
  {
    && Members(v'[p.level]) == Members(v[p.level]) - Members(p.inputs0)
    && Members(v'[p.level + 1]) == Members(v[p.level + 1]) - Members(p.inputs1) + Members(outputs)
    && (forall l :: 0 <= l < NUM_LEVELS && l != p.level && l != p.level + 1 ==> Members(v'[l]) == Members(v[l]))
    && forall l :: 0 <= l < NUM_LEVELS ==> Ascending(v'[l])
  }

  lemma ContentsAfter(v: Version, p: Plan, outputs: seq<File>, v': Version, l: nat)
    requires ValidPlan(v, p) && Replaces(v, p, outputs, v') && l < NUM_LEVELS
    ensures Contents(v'[l]) == StaysAt(v, p, l) + if l == p.level + 1 then Contents(outputs) else {}
  {
    assert forall f :: f in v'[l] <==> f in Members(v'[l]);
    assert forall f :: f in v[l] <==> f in Members(v[l]);
    assert forall f :: f in outputs <==> f in Members(outputs);
    assert forall f :: f in p.inputs0 <==> f in Members(p.inputs0);
    assert forall f :: f in p.inputs1 <==> f in Members(p.inputs1);
  }

  lemma LowerInputs(v: Version, p: Plan)
    requires ValidPlan(v, p)
    ensures forall f :: f in p.inputs1 ==> f in v[p.level + 1]
  {
    var lo, hi :| IsUserRange(p.inputs0, lo, hi) && p.inputs1 == Overlapping(v[p.level + 1], Some(lo), Some(hi));
    OverlappingMembers(v[p.level + 1], Some(lo), Some(hi));
  }

  lemma AllAfter(v: Version, p: Plan, outputs: seq<File>, v': Version)
    requires ValidPlan(v, p) && Replaces(v, p, outputs, v')
    ensures All(v') == Contents(outputs) + Rest(v, p)
  {
    forall e | e in All(v') ensures e in Contents(outputs) + Rest(v, p) {
      var l :| 0 <= l < NUM_LEVELS && e in Contents(v'[l]);
      ContentsAfter(v, p, outputs, v', l);
    }
    forall e | e in Rest(v, p) ensures e in All(v') {
      var l :| 0 <= l < NUM_LEVELS && e in StaysAt(v, p, l);
      ContentsAfter(v, p, outputs, v', l);
    }
    ContentsAfter(v, p, outputs, v', p.level + 1);
  }

  lemma AllBefore(v: Version, p: Plan)
    requires ValidPlan(v, p)
    ensures All(v) == InputEntries(p) + Rest(v, p)
  {
    LowerInputs(v, p);
    forall e | e in All(v) ensures e in InputEntries(p) + Rest(v, p) {
      var l :| 0 <= l < NUM_LEVELS && e in Contents(v[l]);
      assert e in StaysAt(v, p, l) || e in InputEntries(p);
    }
    forall e | e in Rest(v, p) ensures e in All(v) {
      var l :| 0 <= l < NUM_LEVELS && e in StaysAt(v, p, l);
      assert e in Contents(v[l]);
    }
    assert Contents(p.inputs0) <= Contents(v[p.level]);
    assert Contents(p.inputs1) <= Contents(v[p.level + 1]);
  }

  // ---------- Newer data stays above older data ----------

  /** The inputs leave no older entry of one of their user keys behind in the upper level. */
  ghost predicate NothingOlderStays(v: Version, p: Plan)
    requires p.level + 1 < NUM_LEVELS
  {
    NewerThan(LeftOver(v[p.level], p.inputs0), Contents(p.inputs0))
  }

  /** The entry at level l of the new version comes from level l, or was moved down from level l - 1. */
  lemma NewerAboveAfter(v: Version, p: Plan, outputs: seq<File>, v': Version)
    requires NewerAbove(v) && ValidPlan(v, p) && Replaces(v, p, outputs, v')
    requires Contents(outputs) <= InputEntries(p)
    requires NewerThan(LeftOver(v[p.level], p.inputs0), Contents(outputs) * Contents(p.inputs0))
    ensures NewerAbove(v')
  {
    forall l, m, e, x | 0 <= l < m < NUM_LEVELS && e in Contents(v'[l]) && x in Contents(v'[m])
        && e.key.user == x.key.user
      ensures e.key.sequence > x.key.sequence
    {
      var a := Origin(v, p, outputs, v', l, e);
      var b := Origin(v, p, outputs, v', m, x);
      if a < b {
        assert NewerThan(Contents(v[a]), Contents(v[b]));
      }
    }
  }

  lemma Origin(v: Version, p: Plan, outputs: seq<File>, v': Version, l: nat, e: Entry) returns (a: nat)
    requires ValidPlan(v, p) && Replaces(v, p, outputs, v') && Contents(outputs) <= InputEntries(p)
    requires l < NUM_LEVELS && e in Contents(v'[l])
    ensures a == l || (l == p.level + 1 && a == p.level && e in Contents(outputs) * Contents(p.inputs0))
    ensures e in Contents(v[a])
    ensures l == p.level ==> e in LeftOver(v[l], p.inputs0)
  {
    ContentsAfter(v, p, outputs, v', l);
    LowerInputs(v, p);
    a := l;
    if l == p.level + 1 && e !in StaysAt(v, p, l) {
      if e in Contents(p.inputs0) {
        a := p.level;
      }
    }
  }

  // ---------- Levels stay sorted ----------

  predicate Apart(f: File, g: File) {
    Less(f.largest, g.smallest) || Less(g.largest, f.smallest)
  }

  ghost predicate PairwiseApart(files: set<File>) {
    forall f, g :: f in files && g in files && f != g ==> Apart(f, g)
  }

  lemma SortedIsApart(files: seq<File>)
    requires LevelSorted(files)
    ensures PairwiseApart(Members(files))
  {
    forall f, g | f in files && g in files && f != g ensures Apart(f, g) {
      var i :| 0 <= i < |files| && files[i] == f;
      var j :| 0 <= j < |files| && files[j] == g;
      assert i < j || j < i;
    }
  }

  lemma ApartIsSorted(files: seq<File>)
    requires Ascending(files) && AllWellFormed(files) && PairwiseApart(Members(files))
    ensures LevelSorted(files)
  {
    forall i, j | 0 <= i < j < |files| ensures Less(files[i].largest, files[j].smallest) {
      var f, g := files[i], files[j];
      assert f in files && g in files && BySmallest(f, g) && !BySmallest(f, f);
      assert f in Members(files) && g in Members(files) && Apart(f, g);
      BoundsInOrder(g);
    }
  }

  /** A file that stays in the lower level lies to one side of all input entries. */
  lemma OneSide(v: Version, p: Plan, g: File)
    requires p.level + 1 < NUM_LEVELS
    requires AllWellFormed(v[p.level]) && AllWellFormed(v[p.level + 1]) && LevelSorted(v[p.level + 1])
    requires ValidPlan(v, p)
    requires g in v[p.level + 1] && g !in p.inputs1
    ensures (forall e :: e in InputEntries(p) ==> Less(g.largest, e.key))
            || (forall e :: e in InputEntries(p) ==> Less(e.key, g.smallest))
  {
    var files := v[p.level + 1];
    var lo, hi :| IsUserRange(p.inputs0, lo, hi) && p.inputs1 == Overlapping(files, Some(lo), Some(hi));
    OverlappingMembers(files, Some(lo), Some(hi));
    assert !Overlaps(g, Some(lo), Some(hi));
    forall e | e in InputEntries(p)
      ensures if g.largest.user < lo then Less(g.largest, e.key) else Less(e.key, g.smallest)
    {
      if e in Contents(p.inputs0) {
        var f :| f in p.inputs0 && e in f.entries;
        UpperInputOnOneSide(p.inputs0, f, g, e, lo, hi);
      } else {
        var f :| f in p.inputs1 && e in f.entries;
        LowerInputOnOneSide(files, f, g, e, lo, hi);
      }
    }
  }

  lemma UpperInputOnOneSide(inputs0: seq<File>, f: File, g: File, e: Entry, lo: Key, hi: Key)
    requires f in inputs0 && WellFormed(f) && e in f.entries && IsUserRange(inputs0, lo, hi)
    requires !Overlaps(g, Some(lo), Some(hi))
    ensures if g.largest.user < lo then Less(g.largest, e.key) else Less(e.key, g.smallest)
  {
    WithinBounds(f, e);
  }

  lemma LowerInputOnOneSide(files: seq<File>, f: File, g: File, e: Entry, lo: Key, hi: Key)
    requires AllWellFormed(files) && LevelSorted(files) && f in files && g in files && e in f.entries
    requires Overlaps(f, Some(lo), Some(hi)) && !Overlaps(g, Some(lo), Some(hi))
    ensures if g.largest.user < lo then Less(g.largest, e.key) else Less(e.key, g.smallest)
  {
    SortedIsApart(files);
    assert f in Members(files) && g in Members(files) && f != g;
    WithinBounds(f, e);
    BoundsInOrder(g);
  }

  lemma BoundsAreEntries(f: File)
    requires WellFormed(f)
    ensures exists e :: e in f.entries && e.key == f.smallest
    ensures exists e :: e in f.entries && e.key == f.largest
  {
    assert f.entries[0] in f.entries && f.entries[|f.entries| - 1] in f.entries;
  }

  lemma OutputsApart(v: Version, p: Plan, outputs: seq<File>, o: File, g: File)
    requires Ok(v) && ValidPlan(v, p) && Contents(outputs) <= InputEntries(p)
    requires o in outputs && WellFormed(o)
    requires g in v[p.level + 1] && g !in p.inputs1
    ensures Apart(o, g)
  {
    OneSide(v, p, g);
    BoundsAreEntries(o);
    var first :| first in o.entries && first.key == o.smallest;
    var last :| last in o.entries && last.key == o.largest;
    assert first in Contents(outputs) && last in Contents(outputs);
  }

  lemma FilesStayWellFormed(v: Version, p: Plan, outputs: seq<File>, v': Version, l: nat)
    requires ValidPlan(v, p) && Replaces(v, p, outputs, v') && l < NUM_LEVELS
    requires AllWellFormed(v[l]) && AllWellFormed(outputs)
    ensures AllWellFormed(v'[l])
  {
    forall f | f in v'[l] ensures WellFormed(f) {
      assert f in Members(v'[l]);
      assert f in Members(v[l]) || f in Members(outputs);
    }
  }

  lemma LevelStaysSorted(v: Version, p: Plan, outputs: seq<File>, v': Version, l: nat)
    requires Ok(v) && ValidPlan(v, p) && Replaces(v, p, outputs, v') && 1 <= l < NUM_LEVELS
    requires Contents(outputs) <= InputEntries(p) && AllWellFormed(outputs) && LevelSorted(outputs)
    ensures LevelSorted(v'[l])
  {
    FilesStayWellFormed(v, p, outputs, v', l);
    SortedIsApart(v[l]);
    SortedIsApart(outputs);
    forall f, g | f in Members(v'[l]) && g in Members(v'[l]) && f != g ensures Apart(f, g) {
      if l == p.level + 1 && f in outputs && g !in outputs {
        OutputsApart(v, p, outputs, f, g);
      } else if l == p.level + 1 && g in outputs && f !in outputs {
        OutputsApart(v, p, outputs, g, f);
      }
    }
    ApartIsSorted(v'[l]);
  }

  // ---------- Installing any subset of the input entries ----------

  lemma LevelZeroAfter(v: Version, p: Plan, outputs: seq<File>, v': Version)
    requires NewerByNumber(v[0]) && ValidPlan(v, p) && Replaces(v, p, outputs, v')
    ensures NewerByNumber(v'[0])
  {
    forall f | f in v'[0] ensures f in v[0] {
      assert f in Members(v'[0]);
    }
    forall i, j | 0 <= i < j < |v'[0]| ensures v'[0][i].number != v'[0][j].number {
      var f, g := v'[0][i], v'[0][j];
      assert f in v'[0] && g in v'[0];
      assert BySmallest(f, g) && !BySmallest(f, f);
      var a :| 0 <= a < |v[0]| && v[0][a] == f;
      var b :| 0 <= b < |v[0]| && v[0][b] == g;
      assert a < b || b < a;
    }
  }

  lemma LevelsStaySorted(v: Version, p: Plan, outputs: seq<File>, v': Version)
    requires Ok(v) && ValidPlan(v, p) && Replaces(v, p, outputs, v')
    requires AllWellFormed(outputs) && LevelSorted(outputs) && Contents(outputs) <= InputEntries(p)
    ensures forall l :: 0 <= l < NUM_LEVELS ==> AllWellFormed(v'[l])
    ensures forall l :: 1 <= l < NUM_LEVELS ==> LevelSorted(v'[l])
  {
    forall l | 0 <= l < NUM_LEVELS ensures AllWellFormed(v'[l]) {
      FilesStayWellFormed(v, p, outputs, v', l);
    }
    forall l | 1 <= l < NUM_LEVELS ensures LevelSorted(v'[l]) {
      LevelStaysSorted(v, p, outputs, v', l);
    }
  }

  /** The new version is searchable again: every invariant of a version holds. */
  lemma InstallKeepsOk(v: Version, p: Plan, outputs: seq<File>, v': Version)
    requires Ok(v) && ValidPlan(v, p) && Replaces(v, p, outputs, v')
    requires AllWellFormed(outputs) && LevelSorted(outputs) && Contents(outputs) <= InputEntries(p)
    requires NewerThan(LeftOver(v[p.level], p.inputs0), Contents(outputs) * Contents(p.inputs0))
    ensures Ok(v')
  {
    LevelsStaySorted(v, p, outputs, v');
    LevelZeroAfter(v, p, outputs, v');
    NewerAboveAfter(v, p, outputs, v');
    NoNewEntries(v, p, outputs, v');
  }

  lemma NoNewEntries(v: Version, p: Plan, outputs: seq<File>, v': Version)
    requires ValidPlan(v, p) && Replaces(v, p, outputs, v') && Contents(outputs) <= InputEntries(p)
    ensures All(v') <= All(v)
  {
    AllAfter(v, p, outputs, v');
    AllBefore(v, p);
  }

  // ---------- The condition ----------

  /** Some file that stays continues the last user key of an input file of the same level. */
  ghost predicate SplitsAKey(files: seq<File>, inputs: seq<File>) {
    exists f, g :: f in files && f !in inputs && g in inputs
                   && Less(g.largest, f.smallest) && g.largest.user == f.smallest.user
  }

  /** In a sorted level, an unsplit choice of files leaves only newer entries of their user keys. */
  lemma UnsplitLeavesNewer(files: seq<File>, inputs: seq<File>)
    requires AllWellFormed(files) && LevelSorted(files) && !SplitsAKey(files, inputs)
    requires forall g :: g in inputs ==> g in files
    requires UniqueSequences(Contents(files))
    ensures NewerThan(LeftOver(files, inputs), Contents(inputs))
  {
    SortedIsApart(files);
    forall f, g, x, e | f in files && f !in inputs && x in f.entries && g in inputs && e in g.entries
                        && x.key.user == e.key.user
      ensures x.key.sequence > e.key.sequence
    {
      assert f in Members(files) && g in Members(files) && Apart(f, g);
      assert x in Contents(files) && e in Contents(files);
      EarlierFileIsNewer(f, g, x, e);
    }
  }

  lemma EarlierFileIsNewer(f: File, g: File, x: Entry, e: Entry)
    requires WellFormed(f) && WellFormed(g) && Apart(f, g)
    requires Less(g.largest, f.smallest) ==> g.largest.user != f.smallest.user
    requires x in f.entries && e in g.entries && x.key.user == e.key.user
    requires x.key.sequence == e.key.sequence ==> x == e
    ensures x.key.sequence > e.key.sequence
  {
    WithinBounds(f, x);
    WithinBounds(g, e);
    assert Less(x.key, e.key);
  }

  /** Conversely a split key leaves an older entry behind. */
  lemma SplitLeavesOlder(files: seq<File>, inputs: seq<File>)
    requires AllWellFormed(files) && SplitsAKey(files, inputs)
    requires forall g :: g in inputs ==> g in files
    ensures !NewerThan(LeftOver(files, inputs), Contents(inputs))
  {
    var f, g :| f in files && f !in inputs && g in inputs
                && Less(g.largest, f.smallest) && g.largest.user == f.smallest.user;
    BoundsAreEntries(f);
    BoundsAreEntries(g);
    var x :| x in f.entries && x.key == f.smallest;
    var e :| e in g.entries && e.key == g.largest;
    assert x in LeftOver(files, inputs) && e in Contents(inputs) && e.key.sequence >= x.key.sequence;
  }

  lemma LevelZeroLeavesNothingOlder(v: Version, p: Plan)
    requires AllWellFormed(v[0]) && ValidPlan(v, p) && p.level == 0
    ensures NothingOlderStays(v, p)
  {
    forall f, g, x, e | f in v[0] && f !in p.inputs0 && x in f.entries && g in p.inputs0 && e in g.entries
      ensures x.key.user != e.key.user
    {
      WithinBounds(f, x);
      WithinBounds(g, e);
    }
  }

  lemma LevelIsUnique(v: Version, l: nat)
    requires UniqueSequences(All(v)) && l < NUM_LEVELS
    ensures UniqueSequences(Contents(v[l]))
  {
    assert Contents(v[l]) <= All(v);
  }

  lemma NothingOlderStaysExactly(v: Version, p: Plan)
    requires Ok(v) && ValidPlan(v, p)
    ensures NothingOlderStays(v, p) <==> p.level == 0 || !SplitsAKey(v[p.level], p.inputs0)
  {
    LevelIsUnique(v, p.level);
    if p.level == 0 {
      LevelZeroLeavesNothingOlder(v, p);
    } else if SplitsAKey(v[p.level], p.inputs0) {
      SplitLeavesOlder(v[p.level], p.inputs0);
    } else {
      UnsplitLeavesNewer(v[p.level], p.inputs0);
    }
  }

  // ---------- Safe compactions, exactly ----------

  /** The result of the drop loop can be installed: newer data stays above older data, which
      Version::Get relies on, and no read at or after the snapshot changes. */
  ghost predicate SafeAt(v: Version, p: Plan, snapshot: nat)
    requires p.level + 1 < NUM_LEVELS
  {
    var I, R, base := InputEntries(p), Rest(v, p), DropBase(v, p);
    && NewerThan(LeftOver(v[p.level], p.inputs0), Kept(I, snapshot, base))
    && KeepsReads(I, R, snapshot, base)
  }

  lemma OneLevelPerEntry(v: Version, a: nat, l: nat, e: Entry)
    requires NewerAbove(v) && a < NUM_LEVELS && l < NUM_LEVELS && a != l && e in Contents(v[a])
    ensures e !in Contents(v[l])
  {
    if a < l {
      assert NewerThan(Contents(v[a]), Contents(v[l]));
    } else {
      assert NewerThan(Contents(v[l]), Contents(v[a]));
    }
  }

  lemma OneFilePerEntry(files: seq<File>, l: nat, f: File, g: File, x: Entry, y: Entry)
    requires AllWellFormed(files) && if l == 0 then NewerByNumber(files) else LevelSorted(files)
    requires f in files && g in files && f != g && x in f.entries && y in g.entries
    ensures x != y
  {
    var i :| 0 <= i < |files| && files[i] == f;
    var j :| 0 <= j < |files| && files[j] == g;
    assert i < j || j < i;
    WithinBounds(f, x);
    WithinBounds(g, y);
    assert x in Contents([f]) && y in Contents([g]);
  }

  lemma StaysApart(files: seq<File>, l: nat, inputs: seq<File>)
    requires AllWellFormed(files) && if l == 0 then NewerByNumber(files) else LevelSorted(files)
    requires forall g :: g in inputs ==> g in files
    ensures LeftOver(files, inputs) !! Contents(inputs)
  {
    forall f, g, x, y | f in files && f !in inputs && x in f.entries && g in inputs && y in g.entries
      ensures x != y
    {
      OneFilePerEntry(files, l, f, g, x, y);
    }
  }

  lemma InputStaysNowhere(v: Version, p: Plan, a: nat, inputs: seq<File>, e: Entry, l: nat)
    requires Ok(v) && p.level + 1 < NUM_LEVELS && l < NUM_LEVELS
    requires (a == p.level && inputs == p.inputs0) || (a == p.level + 1 && inputs == p.inputs1)
    requires (forall g :: g in inputs ==> g in v[a]) && e in Contents(inputs)
    ensures e !in StaysAt(v, p, l)
  {
    assert e in Contents(v[a]);
    if a == l {
      StaysApart(v[a], a, inputs);
    } else {
      OneLevelPerEntry(v, a, l, e);
    }
  }

  lemma RestIsOutsideInputs(v: Version, p: Plan)
    requires Ok(v) && ValidPlan(v, p)
    ensures InputEntries(p) !! Rest(v, p)
    ensures UniqueSequences(InputEntries(p) + Rest(v, p))
  {
    AllBefore(v, p);
    LowerInputs(v, p);
    forall e, l | e in InputEntries(p) && 0 <= l < NUM_LEVELS ensures e !in StaysAt(v, p, l) {
      if e in Contents(p.inputs0) {
        InputStaysNowhere(v, p, p.level, p.inputs0, e, l);
      } else {
        InputStaysNowhere(v, p, p.level + 1, p.inputs1, e, l);
      }
    }
  }

  /** With a snapshot at sequence number 0 nothing that hides another entry is dropped. */
  lemma AllKeptAtZero(v: Version, p: Plan, x: Entry, e: Entry)
    requires e in Contents(p.inputs0) && x.key.sequence < e.key.sequence
    ensures e in Kept(InputEntries(p), 0, DropBase(v, p))
  {
  }

  /** The choice of inputs is safe for every oldest snapshot exactly if no file that stays continues
      the last user key of an upper input, and no droppable tombstone covers a value that stays. */
  lemma CompactionIsSafeExactly(v: Version, p: Plan)
    requires Ok(v) && ValidPlan(v, p)
    ensures (forall snapshot: nat :: SafeAt(v, p, snapshot)) <==>
            (p.level == 0 || !SplitsAKey(v[p.level], p.inputs0))
            && NothingExposed(InputEntries(p), Rest(v, p), DropBase(v, p))
  {
    var I, R, base := InputEntries(p), Rest(v, p), DropBase(v, p);
    RestIsOutsideInputs(v, p);
    NothingOlderStaysExactly(v, p);
    KeepsReadsExactly(I, R, base);
    if NothingOlderStays(v, p) {
      forall snapshot: nat ensures NewerThan(LeftOver(v[p.level], p.inputs0), Kept(I, snapshot, base)) {
        NewerThanLowerInputs(v, p);
      }
      assert forall snapshot: nat :: SafeAt(v, p, snapshot) <==> KeepsReads(I, R, snapshot, base);
    } else {
      var x, e :| x in LeftOver(v[p.level], p.inputs0) && e in Contents(p.inputs0)
                  && x.key.user == e.key.user && x.key.sequence <= e.key.sequence;
      LeftOverIsDifferent(v, p, x, e);
      AllKeptAtZero(v, p, x, e);
      assert !SafeAt(v, p, 0);
    }
  }

  lemma LeftOverIsDifferent(v: Version, p: Plan, x: Entry, e: Entry)
    requires Ok(v) && ValidPlan(v, p)
    requires x in LeftOver(v[p.level], p.inputs0) && e in Contents(p.inputs0)
    requires x.key.user == e.key.user && x.key.sequence <= e.key.sequence
    ensures x.key.sequence < e.key.sequence
  {
    StaysApart(v[p.level], p.level, p.inputs0);
    LevelIsUnique(v, p.level);
    assert x in Contents(v[p.level]) && e in Contents(v[p.level]);
  }

  lemma NewerThanLowerInputs(v: Version, p: Plan)
    requires NewerAbove(v) && ValidPlan(v, p) && NothingOlderStays(v, p)
    ensures NewerThan(LeftOver(v[p.level], p.inputs0), InputEntries(p))
  {
    LowerInputs(v, p);
    assert NewerThan(Contents(v[p.level]), Contents(v[p.level + 1]));
    assert LeftOver(v[p.level], p.inputs0) <= Contents(v[p.level]);
    assert Contents(p.inputs1) <= Contents(v[p.level + 1]);
  }

  // ---------- What a compaction and a move keep ----------

  lemma NotDeeper(v: Version, level: nat, l: nat, x: Entry)
    requires l < NUM_LEVELS && AllWellFormed(v[l]) && x in Contents(v[l]) && BaseLevel(v, level, x.key.user)
    ensures l < level + 2
  {
    var f :| f in v[l] && x in f.entries;
    WithinBounds(f, x);
  }

  /** Every lower file that holds a key of an upper input is an input itself. */
  lemma UpperInputLeavesNothingBelow(v: Version, p: Plan, t: Entry, x: Entry)
    requires p.level + 1 < NUM_LEVELS && AllWellFormed(v[p.level]) && AllWellFormed(v[p.level + 1]) && ValidPlan(v, p)
    requires t in Contents(p.inputs0) && x in LeftOver(v[p.level + 1], p.inputs1)
    ensures x.key.user != t.key.user
  {
    var files := v[p.level + 1];
    var lo, hi :| IsUserRange(p.inputs0, lo, hi) && p.inputs1 == Overlapping(files, Some(lo), Some(hi));
    OverlappingMembers(files, Some(lo), Some(hi));
    var f :| f in p.inputs0 && t in f.entries;
    var g :| g in files && g !in p.inputs1 && x in g.entries;
    UpperInputOnOneSide(p.inputs0, f, g, t, lo, hi);
    WithinBounds(g, x);
  }

  /** The new version can be searched, and every read at or after the snapshot is what it was, exactly if the
      choice of inputs is safe. */
  lemma CompactionKeepsReads(v: Version, p: Plan, snapshot: nat, outputs: seq<File>, v': Version)
    requires Ok(v) && ValidPlan(v, p) && Replaces(v, p, outputs, v')
    requires AllWellFormed(outputs) && LevelSorted(outputs)
    requires Contents(outputs) == Kept(InputEntries(p), snapshot, DropBase(v, p))
    ensures All(v') <= All(v)
    ensures SafeAt(v, p, snapshot) <==>
            Ok(v') && forall k, s: nat :: snapshot <= s ==> Read(All(v'), k, s) == Read(All(v), k, s)
  {
    NoNewEntries(v, p, outputs, v');
    AllAfter(v, p, outputs, v');
    AllBefore(v, p);
    if NewerThan(LeftOver(v[p.level], p.inputs0), Contents(outputs)) {
      InstallKeepsOk(v, p, outputs, v');
    } else {
      OlderAboveOutputs(v, p, outputs, v');
    }
  }

  lemma OlderAboveOutputs(v: Version, p: Plan, outputs: seq<File>, v': Version)
    requires ValidPlan(v, p) && Replaces(v, p, outputs, v')
    requires !NewerThan(LeftOver(v[p.level], p.inputs0), Contents(outputs))
    ensures !Ok(v')
  {
    ContentsAfter(v, p, outputs, v', p.level);
    ContentsAfter(v, p, outputs, v', p.level + 1);
    assert !NewerThan(Contents(v'[p.level]), Contents(v'[p.level + 1]));
  }

  lemma InputsWellFormed(v: Version, p: Plan)
    requires p.level + 1 < NUM_LEVELS && AllWellFormed(v[p.level]) && ValidPlan(v, p)
    ensures AllWellFormed(p.inputs0)
  {
  }

  /** A trivial move: one file goes down a level with all its entries, because nothing below touches it. The new
      version can be searched exactly if no file of the upper level continues the last user key of the one that goes. */
  lemma MoveKeepsReads(v: Version, p: Plan, v': Version)
    requires Ok(v) && ValidPlan(v, p) && |p.inputs0| == 1 && p.inputs1 == [] && Replaces(v, p, p.inputs0, v')
    ensures All(v') == All(v)
    ensures Ok(v') <==> p.level == 0 || !SplitsAKey(v[p.level], p.inputs0)
  {
    NothingOlderStaysExactly(v, p);
    InputsWellFormed(v, p);
    AllAfter(v, p, p.inputs0, v');
    AllBefore(v, p);
    if NothingOlderStays(v, p) {
      InstallKeepsOk(v, p, p.inputs0, v');
    } else {
      OlderAboveOutputs(v, p, p.inputs0, v');
    }
  }

  // ---------- Disjoint user-key ranges ----------

  /** Files of the level share no user key. */
  ghost predicate UserDisjoint(files: seq<File>) {
    forall f, g :: f in files && g in files && f != g
                   ==> f.largest.user < g.smallest.user || g.largest.user < f.smallest.user
  }

  ghost predicate LevelsDisjoint(v: Version) {
    forall l {:trigger UserDisjoint(v[l])} :: 1 <= l < NUM_LEVELS ==> UserDisjoint(v[l])
  }

  lemma DisjointHasNoSplit(files: seq<File>, inputs: seq<File>)
    requires AllWellFormed(files) && UserDisjoint(files) && forall g :: g in inputs ==> g in files
    ensures !SplitsAKey(files, inputs)
  {
    forall f, g | f in files && f !in inputs && g in inputs
      ensures g.largest.user != f.smallest.user || !Less(g.largest, f.smallest)
    {
      BoundsInOrder(f);
      BoundsInOrder(g);
    }
  }

  /** Outputs with one entry per user key share no user key among themselves. */
  lemma OutputsDisjoint(outputs: seq<File>)
    requires AllWellFormed(outputs) && LevelSorted(outputs)
    requires forall e, x :: e in Contents(outputs) && x in Contents(outputs) && e.key.user == x.key.user ==> e == x
    ensures UserDisjoint(outputs)
  {
    SortedIsApart(outputs);
    forall f, g | f in outputs && g in outputs && Less(f.largest, g.smallest)
      ensures f.largest.user < g.smallest.user
    {
      BoundsAreEntries(f);
      BoundsAreEntries(g);
      var e :| e in f.entries && e.key == f.largest;
      var x :| x in g.entries && x.key == g.smallest;
      assert e in Contents(outputs) && x in Contents(outputs);
    }
    forall f, g | f in outputs && g in outputs && f != g
      ensures f.largest.user < g.smallest.user || g.largest.user < f.smallest.user
    {
      assert f in Members(outputs) && g in Members(outputs) && Apart(f, g);
    }
  }

  lemma StaysDisjoint(v: Version, p: Plan, outputs: seq<File>, v': Version)
    requires Ok(v) && ValidPlan(v, p) && LevelsDisjoint(v) && Replaces(v, p, outputs, v')
    requires AllWellFormed(outputs) && UserDisjoint(outputs) && Contents(outputs) <= InputEntries(p)
    ensures LevelsDisjoint(v')
  {
    forall l | 1 <= l < NUM_LEVELS ensures UserDisjoint(v'[l]) {
      if l == p.level + 1 {
        TargetStaysDisjoint(v, p, outputs, v'[l]);
      } else {
        SubsetIsDisjoint(v[l], v'[l]);
      }
    }
  }

  lemma SubsetIsDisjoint(files: seq<File>, part: seq<File>)
    requires UserDisjoint(files) && Members(part) <= Members(files)
    ensures UserDisjoint(part)
  {
    forall f | f in part ensures f in files {
      assert f in Members(part);
    }
  }

  lemma TargetStaysDisjoint(v: Version, p: Plan, outputs: seq<File>, target: seq<File>)
    requires Ok(v) && ValidPlan(v, p) && UserDisjoint(v[p.level + 1])
    requires AllWellFormed(outputs) && UserDisjoint(outputs) && Contents(outputs) <= InputEntries(p)
    requires Members(target) == Members(v[p.level + 1]) - Members(p.inputs1) + Members(outputs)
    ensures UserDisjoint(target)
  {
    forall f, g | f in target && g in target && f != g
      ensures f.largest.user < g.smallest.user || g.largest.user < f.smallest.user
    {
      assert f in Members(target) && g in Members(target);
      if f in outputs && g !in outputs {
        OutputsUserApart(v, p, outputs, f, g);
      } else if g in outputs && f !in outputs {
        OutputsUserApart(v, p, outputs, g, f);
      }
    }
  }

  lemma OutputsUserApart(v: Version, p: Plan, outputs: seq<File>, o: File, g: File)
    requires Ok(v) && ValidPlan(v, p) && UserDisjoint(v[p.level + 1])
    requires o in outputs && WellFormed(o) && Contents(outputs) <= InputEntries(p)
    requires g in v[p.level + 1] && g !in p.inputs1
    ensures o.largest.user < g.smallest.user || g.largest.user < o.smallest.user
  {
    BoundsAreEntries(o);
    var first :| first in o.entries && first.key == o.smallest;
    var last :| last in o.entries && last.key == o.largest;
    assert first in Contents(outputs) && last in Contents(outputs);
    var lo, hi :| IsUserRange(p.inputs0, lo, hi) && p.inputs1 == Overlapping(v[p.level + 1], Some(lo), Some(hi));
    InputOnOneUserSide(v, p, first, g, lo, hi);
    InputOnOneUserSide(v, p, last, g, lo, hi);
  }

  lemma InputOnOneUserSide(v: Version, p: Plan, e: Entry, g: File, lo: Key, hi: Key)
    requires p.level + 1 < NUM_LEVELS && AllWellFormed(v[p.level]) && AllWellFormed(v[p.level + 1])
    requires ValidPlan(v, p) && UserDisjoint(v[p.level + 1])
    requires IsUserRange(p.inputs0, lo, hi) && p.inputs1 == Overlapping(v[p.level + 1], Some(lo), Some(hi))
    requires g in v[p.level + 1] && g !in p.inputs1 && e in InputEntries(p)
    ensures if g.largest.user < lo then g.largest.user < e.key.user else e.key.user < g.smallest.user
  {
    OverlappingMembers(v[p.level + 1], Some(lo), Some(hi));
    if e in Contents(p.inputs0) {
      var f :| f in p.inputs0 && e in f.entries;
      WithinBounds(f, e);
    } else {
      var f :| f in p.inputs1 && e in f.entries;
      LowerInputOnOneUserSide(f, g, e, lo, hi);
    }
  }

  lemma LowerInputOnOneUserSide(f: File, g: File, e: Entry, lo: Key, hi: Key)
    requires WellFormed(f) && WellFormed(g) && e in f.entries
    requires f.largest.user < g.smallest.user || g.largest.user < f.smallest.user
    requires Overlaps(f, Some(lo), Some(hi)) && !Overlaps(g, Some(lo), Some(hi))
    ensures if g.largest.user < lo then g.largest.user < e.key.user else e.key.user < g.smallest.user
  {
    BoundsInOrder(g);
    WithinBounds(f, e);
  }

  /** Without snapshots, disjoint levels stay disjoint: at most one entry per user key survives. */
  lemma CompactionKeepsDisjoint(v: Version, p: Plan, snapshot: nat, outputs: seq<File>, v': Version)
    requires Ok(v) && ValidPlan(v, p) && LevelsDisjoint(v) && Replaces(v, p, outputs, v')
    requires AllWellFormed(outputs) && LevelSorted(outputs)
    requires Contents(outputs) == Kept(InputEntries(p), snapshot, DropBase(v, p))
    requires forall e :: e in InputEntries(p) ==> e.key.sequence <= snapshot
    ensures LevelsDisjoint(v')
  {
    AllBefore(v, p);
    forall e, x | e in Contents(outputs) && x in Contents(outputs) && e.key.user == x.key.user ensures e == x {
      OneEntryPerKey(InputEntries(p), snapshot, DropBase(v, p), e, x);
    }
    OutputsDisjoint(outputs);
    StaysDisjoint(v, p, outputs, v');
  }

  lemma MoveKeepsDisjoint(v: Version, p: Plan, v': Version)
    requires Ok(v) && ValidPlan(v, p) && LevelsDisjoint(v)
    requires |p.inputs0| == 1 && Replaces(v, p, p.inputs0, v')
    ensures LevelsDisjoint(v')
  {
    hide UserDisjoint, Replaces, LevelsDisjoint, NewerByNumber, UniqueSequences;
    InputsWellFormed(v, p);
    StaysDisjoint(v, p, p.inputs0, v');
  }
}
