/** When a compaction is safe, told from the files at the edges of its inputs (db/version_set.cc, SetupOtherInputs). */
module CompactionEdges {
  import opened InternalKeys
  import opened Visibility
  import opened Versions
  import opened Overlap
  import opened CompactionRules
  import opened CompactionWork
  import opened CompactionPicking
  import opened CompactionSafety

  /** The last user key of lower input i continues in the file behind it, which stays and begins with a value, while
      the lower inputs hold a tombstone t for it that no deeper file keeps alive. */
  ghost predicate UncoversAt(v: Version, p: Plan, i: nat, t: Entry)
    requires p.level + 1 < NUM_LEVELS
  {
    var files := v[p.level + 1];
    && i + 1 < |files| && files[i] in p.inputs1 && files[i + 1] !in p.inputs1
    && files[i].largest.user == files[i + 1].smallest.user == t.key.user
    && t in Contents(p.inputs1) && t.key.kind.Deletion? && BaseLevel(v, p.level, t.key.user)
    && files[i + 1].entries != [] && files[i + 1].entries[0].key.kind.Put?
  }

  ghost predicate Uncovers(v: Version, p: Plan)
    requires p.level + 1 < NUM_LEVELS
  {
    exists i, t :: UncoversAt(v, p, i, t)
  }

  // ---------- The lower inputs are a run of files ----------

  lemma NoGap(files: seq<File>, lo: Option<Key>, hi: Option<Key>, a: nat, b: nat, c: nat)
    requires AllWellFormed(files) && LevelSorted(files) && a < b < c < |files|
    requires Overlaps(files[a], lo, hi) && Overlaps(files[c], lo, hi)
    ensures Overlaps(files[b], lo, hi)
  {
    assert files[b] in files;
    BoundsInOrder(files[b]);
    InOrder(files, a, b);
    InOrder(files, b, c);
  }

  lemma LowerInputsAreARun(v: Version, p: Plan, a: nat, b: nat, c: nat)
    requires Ok(v) && ValidPlan(v, p) && a < b < c < |v[p.level + 1]|
    requires v[p.level + 1][a] in p.inputs1 && v[p.level + 1][c] in p.inputs1
    ensures v[p.level + 1][b] in p.inputs1
  {
    var files := v[p.level + 1];
    var lo, hi :| IsUserRange(p.inputs0, lo, hi) && p.inputs1 == Overlapping(files, Some(lo), Some(hi));
    OverlappingMembers(files, Some(lo), Some(hi));
    NoGap(files, Some(lo), Some(hi), a, b, c);
    assert files[b] in files;
  }

  /** Somewhere between an input and a file that stays is the edge. */
  lemma {:induction false} EdgeBetween(files: seq<File>, inputs: seq<File>, a: nat, b: nat) returns (i: nat)
    requires a < b < |files| && files[a] in inputs && files[b] !in inputs
    ensures a <= i < b && files[i] in inputs && files[i + 1] !in inputs
  {
    if files[b - 1] in inputs {
      i := b - 1;
    } else {
      i := EdgeBetween(files, inputs, a, b - 1);
    }
  }

  // ---------- Entries of one user key across the files of a level ----------

  /** A sorted level whose sequence numbers tell its entries apart. */
  ghost predicate GoodLevel(files: seq<File>) {
    AllWellFormed(files) && LevelSorted(files) && UniqueSequences(Contents(files))
  }

  lemma LowerLevelIsGood(v: Version, level: nat)
    requires Ok(v) && 0 < level < NUM_LEVELS
    ensures GoodLevel(v[level])
  {
    LevelIsUnique(v, level);
  }

  lemma LaterFileIsOlder(files: seq<File>, a: nat, b: nat, t: Entry, x: Entry)
    requires GoodLevel(files) && a < b < |files|
    requires t in files[a].entries && x in files[b].entries && t.key.user == x.key.user
    ensures x.key.sequence < t.key.sequence
    ensures files[a].largest.user == t.key.user == files[b].smallest.user
  {
    assert files[a] in files && files[b] in files;
    WithinBounds(files[a], t);
    WithinBounds(files[b], x);
    assert Less(files[a].largest, files[b].smallest);
    assert Less(t.key, x.key);
    assert t in Contents(files) && x in Contents(files);
  }

  /** The first entry of a file is the newest one of its user key from this file on. */
  lemma FirstIsNewest(files: seq<File>, a: nat, b: nat, x: Entry)
    requires GoodLevel(files) && a <= b < |files| && x in files[b].entries
    requires files[a].entries != [] && x.key.user == files[a].entries[0].key.user
    ensures x.key.sequence <= files[a].entries[0].key.sequence
    ensures x.key.sequence == files[a].entries[0].key.sequence ==> x == files[a].entries[0]
  {
    var first := files[a].entries[0];
    assert files[a] in files && files[b] in files && first in files[a].entries;
    assert first in Contents(files) && x in Contents(files);
    if a < b {
      LaterFileIsOlder(files, a, b, first, x);
    } else {
      WithinBounds(files[a], x);
    }
  }

  lemma EdgeHoldsKey(files: seq<File>, a: nat, b: nat, i: nat, t: Entry, x: Entry)
    requires GoodLevel(files) && a <= i < b < |files|
    requires t in files[a].entries && x in files[b].entries && t.key.user == x.key.user
    ensures files[i].largest.user == files[i + 1].smallest.user == t.key.user
    ensures files[i + 1].entries != [] && files[i + 1].entries[0].key.user == t.key.user
  {
    assert files[a] in files && files[b] in files && files[i] in files && files[i + 1] in files;
    LaterFileIsOlder(files, a, b, t, x);
    BoundsInOrder(files[i]);
    BoundsInOrder(files[i + 1]);
    if a < i {
      InOrder(files, a, i);
    }
    if i + 1 < b {
      InOrder(files, i + 1, b);
    }
    assert Less(files[i].largest, files[i + 1].smallest);
  }

  // ---------- Exposed values are at the edge ----------

  /** What a dropped tombstone uncovers is in the lower level, and so is the tombstone. */
  lemma ExposedIsBelow(v: Version, p: Plan, t: Entry, x: Entry)
    requires Ok(v) && ValidPlan(v, p) && NothingOlderStays(v, p)
    requires Exposes(InputEntries(p), Rest(v, p), DropBase(v, p), t, x)
    ensures t in Contents(p.inputs1) && x in LeftOver(v[p.level + 1], p.inputs1)
  {
    var l :| 0 <= l < NUM_LEVELS && x in StaysAt(v, p, l);
    NotDeeper(v, p.level, l, x);
    LowerInputs(v, p);
    assert t !in Contents(p.inputs0) by {
      if t in Contents(p.inputs0) {
        UpperTombstoneExposesNothing(v, p, t, x, l);
      }
    }
    NotAbove(v, l, p.level + 1, x, t);
  }

  /** What is not newer than an entry of its user key is not above it. */
  lemma NotAbove(v: Version, l: nat, level: nat, x: Entry, t: Entry)
    requires Ok(v) && l < NUM_LEVELS && level < NUM_LEVELS && x in Contents(v[l]) && t in Contents(v[level])
    requires x.key.user == t.key.user && x.key.sequence <= t.key.sequence
    ensures level <= l
  {
    assert l < level ==> NewerThan(Contents(v[l]), Contents(v[level]));
  }

  lemma UpperTombstoneExposesNothing(v: Version, p: Plan, t: Entry, x: Entry, l: nat)
    requires Ok(v) && ValidPlan(v, p) && NothingOlderStays(v, p)
    requires t in Contents(p.inputs0) && l < p.level + 2 && x in StaysAt(v, p, l) && x.key.user == t.key.user
    ensures x.key.sequence > t.key.sequence
  {
    assert t in Contents(v[p.level]);
    if l < p.level {
      assert NewerThan(Contents(v[l]), Contents(v[p.level]));
    } else if l == p.level + 1 {
      UpperInputLeavesNothingBelow(v, p, t, x);
    }
  }

  lemma ExposedIsAtEdge(v: Version, p: Plan, t: Entry, x: Entry)
    requires Ok(v) && ValidPlan(v, p) && NothingOlderStays(v, p)
    requires Exposes(InputEntries(p), Rest(v, p), DropBase(v, p), t, x)
    ensures Uncovers(v, p)
  {
    ExposedIsBelow(v, p, t, x);
    LowerInputs(v, p);
    LowerLevelIsGood(v, p.level + 1);
    var files := v[p.level + 1];
    var i := FindEdge(files, p.inputs1, t, x);
    var first := files[i + 1].entries[0];
    assert first in StaysAt(v, p, p.level + 1) && first in Rest(v, p);
    assert first.key.sequence <= x.key.sequence;
    assert UncoversAt(v, p, i, t);
  }

  /** Between the tombstone's file and the value's there is an edge, and the file behind it begins with an entry of the
      key that is no older than the value. */
  lemma FindEdge(files: seq<File>, inputs: seq<File>, t: Entry, x: Entry) returns (i: nat)
    requires GoodLevel(files) && (forall f :: f in inputs ==> f in files)
    requires t in Contents(inputs) && x in LeftOver(files, inputs)
    requires t.key.user == x.key.user && x.key.sequence < t.key.sequence
    ensures i + 1 < |files| && files[i] in inputs && files[i + 1] !in inputs
    ensures files[i].largest.user == files[i + 1].smallest.user == t.key.user && files[i + 1].entries != []
    ensures var first := files[i + 1].entries[0];
            && first.key.user == t.key.user && first in LeftOver(files, inputs) && first.key.sequence < t.key.sequence
            && x.key.sequence <= first.key.sequence && (x.key.sequence == first.key.sequence ==> x == first)
  {
    var f :| f in inputs && t in f.entries;
    var g :| g in files && g !in inputs && x in g.entries;
    var a :| 0 <= a < |files| && files[a] == f;
    var b :| 0 <= b < |files| && files[b] == g;
    if b < a {
      LaterFileIsOlder(files, b, a, x, t);
    }
    i := EdgeBetween(files, inputs, a, b);
    EdgeHoldsKey(files, a, b, i, t, x);
    var first := files[i + 1].entries[0];
    assert files[i + 1] in files && first in files[i + 1].entries;
    LaterFileIsOlder(files, a, i + 1, t, first);
    FirstIsNewest(files, i + 1, b, x);
  }

  // ---------- And at the edge values are exposed ----------

  lemma EdgeExposes(v: Version, p: Plan, i: nat, t: Entry)
    requires Ok(v) && ValidPlan(v, p) && UncoversAt(v, p, i, t)
    ensures var x := v[p.level + 1][i + 1].entries[0];
            x in Rest(v, p) && t in InputEntries(p) && Exposes(InputEntries(p), Rest(v, p), DropBase(v, p), t, x)
  {
    LowerInputs(v, p);
    LowerLevelIsGood(v, p.level + 1);
    var files := v[p.level + 1];
    var x := files[i + 1].entries[0];
    var a := BeforeEdge(v, p, i, t);
    assert files[i + 1] in files && WellFormed(files[i + 1]) && x in files[i + 1].entries;
    LaterFileIsOlder(files, a, i + 1, t, x);
    assert x in LeftOver(files, p.inputs1) && x in StaysAt(v, p, p.level + 1);
    forall y | y in Rest(v, p) && y.key.user == t.key.user && y.key.sequence < t.key.sequence
      ensures y.key.sequence <= x.key.sequence
    {
      OlderRestIsBehind(v, p, i, a, t, y);
    }
  }

  /** The tombstone is in a file up to the edge. */
  lemma BeforeEdge(v: Version, p: Plan, i: nat, t: Entry) returns (a: nat)
    requires Ok(v) && ValidPlan(v, p) && UncoversAt(v, p, i, t)
    ensures a <= i && v[p.level + 1][a] in p.inputs1 && t in v[p.level + 1][a].entries
  {
    LowerInputs(v, p);
    var files := v[p.level + 1];
    var f :| f in p.inputs1 && t in f.entries;
    a :| 0 <= a < |files| && files[a] == f;
    if i + 1 < a {
      LowerInputsAreARun(v, p, i, i + 1, a);
    }
  }

  lemma NotShallower(v: Version, m: nat, l: nat, y: Entry, t: Entry)
    requires NewerAbove(v) && m <= l < NUM_LEVELS && y in Contents(v[m]) && t in Contents(v[l])
    requires y.key.user == t.key.user && y.key.sequence < t.key.sequence
    ensures m == l
  {
    assert m == l || NewerThan(Contents(v[m]), Contents(v[l]));
  }

  lemma OlderRestIsBehind(v: Version, p: Plan, i: nat, a: nat, t: Entry, y: Entry)
    requires Ok(v) && ValidPlan(v, p) && UncoversAt(v, p, i, t) && a <= i && GoodLevel(v[p.level + 1])
    requires v[p.level + 1][a] in p.inputs1 && t in v[p.level + 1][a].entries
    requires v[p.level + 1][i + 1].entries[0].key.user == t.key.user
    requires y in Rest(v, p) && y.key.user == t.key.user && y.key.sequence < t.key.sequence
    ensures y.key.sequence <= v[p.level + 1][i + 1].entries[0].key.sequence
  {
    hide GoodLevel, UniqueSequences, NewerAbove;
    var l, files := p.level + 1, v[p.level + 1];
    var m :| 0 <= m < NUM_LEVELS && y in StaysAt(v, p, m);
    NotDeeper(v, p.level, m, y);
    assert files[a] in files && t in Contents(files);
    NotShallower(v, m, l, y, t);
    var b := StaysBehindEdge(v, p, i, a, t, y);
    FirstIsNewest(files, i + 1, b, y);
  }

  lemma StaysBehindEdge(v: Version, p: Plan, i: nat, a: nat, t: Entry, y: Entry) returns (b: nat)
    requires Ok(v) && ValidPlan(v, p) && a <= i && i + 1 < |v[p.level + 1]| && GoodLevel(v[p.level + 1])
    requires v[p.level + 1][a] in p.inputs1 && t in v[p.level + 1][a].entries && v[p.level + 1][i] in p.inputs1
    requires y in LeftOver(v[p.level + 1], p.inputs1) && y.key.user == t.key.user && y.key.sequence < t.key.sequence
    ensures i < b < |v[p.level + 1]| && y in v[p.level + 1][b].entries
  {
    var files := v[p.level + 1];
    var g :| g in files && g !in p.inputs1 && y in g.entries;
    b :| 0 <= b < |files| && files[b] == g;
    if b < a {
      LaterFileIsOlder(files, b, a, y, t);
    } else if a < b < i {
      LowerInputsAreARun(v, p, a, b, i);
    }
  }

  // ---------- The exact condition ----------

  lemma ExposesExactlyAtEdges(v: Version, p: Plan)
    requires Ok(v) && ValidPlan(v, p) && NothingOlderStays(v, p)
    ensures NothingExposed(InputEntries(p), Rest(v, p), DropBase(v, p)) <==> !Uncovers(v, p)
  {
    if Uncovers(v, p) {
      var i, t :| UncoversAt(v, p, i, t);
      EdgeExposes(v, p, i, t);
    }
    forall t, x | t in InputEntries(p) && x in Rest(v, p) && !Uncovers(v, p)
      ensures !Exposes(InputEntries(p), Rest(v, p), DropBase(v, p), t, x)
    {
      if Exposes(InputEntries(p), Rest(v, p), DropBase(v, p), t, x) {
        ExposedIsAtEdge(v, p, t, x);
      }
    }
  }

  /** In the upper level no file that stays continues the last user key of an input, and in the lower level none
      that begins with a value continues a user key with a droppable tombstone among the inputs. */
  ghost predicate SafeEdges(v: Version, p: Plan)
    requires p.level + 1 < NUM_LEVELS
  {
    (p.level == 0 || !SplitsAKey(v[p.level], p.inputs0)) && !Uncovers(v, p)
  }

  /** The choice of inputs is safe for every oldest snapshot exactly if the files at its edges are. */
  lemma SafeExactlyAtEdges(v: Version, p: Plan)
    requires Ok(v) && ValidPlan(v, p)
    ensures (forall snapshot: nat :: SafeAt(v, p, snapshot)) <==> SafeEdges(v, p)
  {
    CompactionIsSafeExactly(v, p);
    NothingOlderStaysExactly(v, p);
    if NothingOlderStays(v, p) {
      ExposesExactlyAtEdges(v, p);
    }
  }

  /** No user key is split between the inputs and a later file that stays, in either level. */
  ghost predicate Unsplit(v: Version, p: Plan)
    requires p.level + 1 < NUM_LEVELS
  {
    && (p.level > 0 ==> !SplitsAKey(v[p.level], p.inputs0))
    && !SplitsAKey(v[p.level + 1], p.inputs1)
  }

  /** Inputs that cut no user key are safe: data older than one of their entries can only stay below the level the
      compaction writes to, in files that cover the key. */
  lemma UnsplitExposesNothing(v: Version, p: Plan)
    requires Ok(v) && ValidPlan(v, p) && Unsplit(v, p)
    ensures SafeEdges(v, p) && NothingExposed(InputEntries(p), Rest(v, p), DropBase(v, p))
  {
    var files := v[p.level + 1];
    assert LevelSorted(files);
    forall i, t | 0 <= i ensures !UncoversAt(v, p, i, t) {
      assert i + 1 < |files| ==> files[i + 1] in files && Less(files[i].largest, files[i + 1].smallest);
    }
    NothingOlderStaysExactly(v, p);
    ExposesExactlyAtEdges(v, p);
  }

  lemma DisjointIsUnsplit(v: Version, p: Plan)
    requires Ok(v) && ValidPlan(v, p) && LevelsDisjoint(v)
    ensures Unsplit(v, p)
  {
    LowerInputs(v, p);
    if p.level > 0 {
      DisjointHasNoSplit(v[p.level], p.inputs0);
    }
    DisjointHasNoSplit(v[p.level + 1], p.inputs1);
  }
}
