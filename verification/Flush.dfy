/** Where a flushed memtable goes (db/version_set.cc, PickLevelForMemTableOutput;
    db/db_impl.cc, WriteLevel0Table), and why it may go below level 0. */
module Flush {
  import opened InternalKeys
  import opened Visibility
  import opened Versions
  import opened VersionEdits
  import opened Overlap
  import opened CompactionWork
  import opened CompactionSafety

  const MAX_MEM_COMPACT_LEVEL := 2

  ghost predicate Touched(files: seq<File>, lo: Key, hi: Key) {
    exists f :: f in files && Overlaps(f, Some(lo), Some(hi))
  }

  /** A table for [lo, hi] may move on from `level`: the next level has no overlap, and the level
      after that at most ten files' worth of it. */
  ghost predicate MayMoveOn(v: Version, level: nat, lo: Key, hi: Key, maxFileSize: nat)
    requires level + 2 < NUM_LEVELS
  {
    && !Touched(v[level + 1], lo, hi)
    && TotalSize(Overlapping(v[level + 2], Some(lo), Some(hi))) <= 10 * maxFileSize
  }

  /** The first level, of those down to level 2, where a table for [lo, hi] has to stay. */
  ghost predicate IsPickedLevel(v: Version, lo: Key, hi: Key, maxFileSize: nat, level: nat) {
    && level <= 2
    && (Touched(v[0], lo, hi) ==> level == 0)
    && (forall l :: 0 <= l < level ==> MayMoveOn(v, l, lo, hi, maxFileSize))
    && (!Touched(v[0], lo, hi) && level < 2 ==> !MayMoveOn(v, level, lo, hi, maxFileSize))
  }

  method PickLevelForMemTableOutput(v: Version, lo: Key, hi: Key, maxFileSize: nat) returns (level: nat)
    requires Ok(v)
    ensures IsPickedLevel(v, lo, hi, maxFileSize, level)
  {
    level := 0;
    assert AllWellFormed(v[0]);
    var overlap := SomeFileOverlapsRange(false, v[0], Some(lo), Some(hi));
    if !overlap {
      while level < MAX_MEM_COMPACT_LEVEL
        invariant level <= MAX_MEM_COMPACT_LEVEL
        invariant forall l :: 0 <= l < level ==> MayMoveOn(v, l, lo, hi, maxFileSize)
      {
        assert AllWellFormed(v[level + 1]) && LevelSorted(v[level + 1]) && AllWellFormed(v[level + 2]);
        overlap := SomeFileOverlapsRange(true, v[level + 1], Some(lo), Some(hi));
        if overlap {
          break;
        }
        var overlaps, _, _ := GetOverlappingInputs(v[level + 2], level + 2, Some(lo), Some(hi));
        if TotalSize(overlaps) > 10 * maxFileSize {
          break;
        }
        level := level + 1;
      }
    }
  }

  /** A level the placement can choose: level 0, or a level with nothing in the way above or in it. */
  ghost predicate MayPlace(v: Version, f: File, level: nat) {
    && level < NUM_LEVELS
    && (level > 0 ==> forall l {:trigger Touched(v[l], f.smallest.user, f.largest.user)} ::
          0 <= l <= level ==> !Touched(v[l], f.smallest.user, f.largest.user))
  }

  lemma PickedLevelMayBeUsed(v: Version, f: File, level: nat, maxFileSize: nat)
    requires IsPickedLevel(v, f.smallest.user, f.largest.user, maxFileSize, level)
    ensures MayPlace(v, f, level)
  {
    if level > 0 {
      forall l | 0 <= l <= level ensures !Touched(v[l], f.smallest.user, f.largest.user) {
        if l > 0 {
          assert MayMoveOn(v, l - 1, f.smallest.user, f.largest.user, maxFileSize);
        }
      }
    }
  }

  /** v' is v with one more file. */
  ghost predicate Places(v: Version, f: File, level: nat, v': Version)
    requires level < NUM_LEVELS
  {
    && Members(v'[level]) == Members(v[level]) + {f}
    && (forall l :: 0 <= l < NUM_LEVELS && l != level ==> Members(v'[l]) == Members(v[l]))
    && forall l :: 0 <= l < NUM_LEVELS ==> Ascending(v'[l])
  }

  lemma ContentsAfterPlacing(v: Version, f: File, level: nat, v': Version, l: nat)
    requires level < NUM_LEVELS && Places(v, f, level, v') && l < NUM_LEVELS
    ensures Contents(v'[l]) == Contents(v[l]) + if l == level then Contents([f]) else {}
  {
    assert forall g :: g in v'[l] <==> g in Members(v'[l]);
    assert forall g :: g in v[l] <==> g in Members(v[l]);
  }

  lemma AllAfterPlacing(v: Version, f: File, level: nat, v': Version)
    requires level < NUM_LEVELS && Places(v, f, level, v')
    ensures All(v') == All(v) + Contents([f])
  {
    forall e | e in All(v') ensures e in All(v) + Contents([f]) {
      var l :| 0 <= l < NUM_LEVELS && e in Contents(v'[l]);
      ContentsAfterPlacing(v, f, level, v', l);
    }
    forall e | e in All(v) ensures e in All(v') {
      var l :| 0 <= l < NUM_LEVELS && e in Contents(v[l]);
      ContentsAfterPlacing(v, f, level, v', l);
    }
    ContentsAfterPlacing(v, f, level, v', level);
  }

  lemma UntouchedIsApart(files: seq<File>, f: File, g: File)
    requires WellFormed(g) && WellFormed(f) && g in files && !Touched(files, f.smallest.user, f.largest.user)
    ensures Apart(f, g) && f != g
    ensures f.largest.user < g.smallest.user || g.largest.user < f.smallest.user
  {
    BoundsInOrder(f);
    assert !Overlaps(g, Some(f.smallest.user), Some(f.largest.user));
    BoundsInOrder(g);
  }

  lemma PlacedLevelIsSorted(v: Version, f: File, level: nat, v': Version, l: nat)
    requires Ok(v) && WellFormed(f) && MayPlace(v, f, level) && Places(v, f, level, v') && l < NUM_LEVELS
    ensures AllWellFormed(v'[l])
    ensures l > 0 ==> LevelSorted(v'[l])
  {
    assert AllWellFormed(v[l]);
    forall g | g in v'[l] ensures WellFormed(g) {
      assert g in Members(v'[l]);
      assert g in Members(v[l]) || g == f;
    }
    if l > 0 {
      assert LevelSorted(v[l]);
      SortedIsApart(v[l]);
      forall g, h | g in Members(v'[l]) && h in Members(v'[l]) && g != h ensures Apart(g, h) {
        if g == f && l == level {
          UntouchedIsApart(v[l], f, h);
        } else if h == f && l == level {
          UntouchedIsApart(v[l], f, g);
        }
      }
      ApartIsSorted(v'[l]);
    }
  }

  lemma PlacedLevelZero(v: Version, f: File, level: nat, v': Version)
    requires NewerByNumber(v[0]) && level < NUM_LEVELS && Places(v, f, level, v')
    requires NewerThan(Contents([f]), All(v))
    requires forall g :: g in v[0] ==> g.number < f.number
    ensures NewerByNumber(v'[0])
  {
    forall g | g in v'[0] ensures g in v[0] || (g == f && level == 0) {
      assert g in Members(v'[0]);
    }
    forall i, j | 0 <= i < j < |v'[0]| ensures v'[0][i].number != v'[0][j].number {
      var g, h := v'[0][i], v'[0][j];
      assert g in v'[0] && h in v'[0] && BySmallest(g, h) && !BySmallest(g, g);
      if g in v[0] && h in v[0] {
        SameNumberSameFile(v[0], g, h);
      }
    }
    forall g, h | g in v'[0] && h in v'[0] && g.number > h.number ensures NewerThan(Contents([g]), Contents([h])) {
      if h in v[0] {
        assert Contents([h]) <= Contents(v[0]) <= All(v);
      }
    }
  }

  lemma SameNumberSameFile(files: seq<File>, g: File, h: File)
    requires NewerByNumber(files) && g in files && h in files && g != h
    ensures g.number != h.number
  {
    var a :| 0 <= a < |files| && files[a] == g;
    var b :| 0 <= b < |files| && files[b] == h;
    assert a < b || b < a;
  }

  lemma PlacedIsNewerThan(v: Version, f: File, level: nat, v': Version, l: nat, m: nat)
    requires Ok(v) && WellFormed(f) && MayPlace(v, f, level) && Places(v, f, level, v')
    requires NewerThan(Contents([f]), All(v)) && l < m < NUM_LEVELS
    ensures NewerThan(Contents(v'[l]), Contents(v'[m]))
  {
    hide Places;
    ContentsAfterPlacing(v, f, level, v', l);
    ContentsAfterPlacing(v, f, level, v', m);
    assert NewerThan(Contents(v[l]), Contents(v[m]));
    if m == level {
      forall e, x | e in Contents(v[l]) && x in f.entries ensures e.key.user != x.key.user {
        assert AllWellFormed(v[l]);
        NothingOfItAbove(v, f, level, l, e, x);
      }
    }
    assert forall x :: x in Contents(v[m]) ==> x in All(v);
  }

  lemma PlacedIsNewerAbove(v: Version, f: File, level: nat, v': Version)
    requires Ok(v) && WellFormed(f) && MayPlace(v, f, level) && Places(v, f, level, v')
    requires NewerThan(Contents([f]), All(v))
    ensures NewerAbove(v')
  {
    forall l, m | 0 <= l < m < NUM_LEVELS ensures NewerThan(Contents(v'[l]), Contents(v'[m])) {
      PlacedIsNewerThan(v, f, level, v', l, m);
    }
  }

  lemma NothingOfItAbove(v: Version, f: File, level: nat, l: nat, e: Entry, x: Entry)
    requires l < NUM_LEVELS && AllWellFormed(v[l]) && WellFormed(f) && MayPlace(v, f, level) && l < level
    requires e in Contents(v[l]) && x in f.entries
    ensures e.key.user != x.key.user
  {
    var g :| g in v[l] && e in g.entries;
    UntouchedIsApart(v[l], f, g);
    WithinBounds(g, e);
    WithinBounds(f, x);
  }

  /** A flush: the new table may be searched at the level it was placed at, and adds just its entries. */
  lemma FlushKeepsOk(v: Version, f: File, level: nat, v': Version)
    requires Ok(v) && WellFormed(f) && MayPlace(v, f, level) && Places(v, f, level, v')
    requires NewerThan(Contents([f]), All(v)) && UniqueSequences(Contents([f]))
    requires forall g :: g in v[0] ==> g.number < f.number
    ensures Ok(v') && All(v') == All(v) + Contents([f])
  {
    forall l | 0 <= l < NUM_LEVELS ensures AllWellFormed(v'[l]) && (l > 0 ==> LevelSorted(v'[l])) {
      PlacedLevelIsSorted(v, f, level, v', l);
    }
    PlacedLevelZero(v, f, level, v');
    PlacedIsNewerAbove(v, f, level, v');
    AllAfterPlacing(v, f, level, v');
  }

  lemma FlushKeepsDisjoint(v: Version, f: File, level: nat, v': Version)
    requires Ok(v) && WellFormed(f) && MayPlace(v, f, level) && Places(v, f, level, v') && LevelsDisjoint(v)
    ensures LevelsDisjoint(v')
  {
    forall l | 1 <= l < NUM_LEVELS ensures UserDisjoint(v'[l]) {
      assert UserDisjoint(v[l]) && AllWellFormed(v[l]);
      forall g, h | g in v'[l] && h in v'[l] && g != h
        ensures g.largest.user < h.smallest.user || h.largest.user < g.smallest.user
      {
        assert g in Members(v'[l]) && h in Members(v'[l]);
        if g == f && l == level {
          UntouchedIsApart(v[l], f, h);
        } else if h == f && l == level {
          UntouchedIsApart(v[l], f, g);
        }
      }
    }
  }

  // ---------- Writing a memtable to a table ----------

  function InsertEntry(e: Entry, es: seq<Entry>): (r: seq<Entry>)
    requires Sorted(es) && forall x :: x in es ==> x.key != e.key
    ensures Sorted(r) && forall x :: x in r <==> x == e || x in es
  {
    if es == [] then [e]
    else if Less(e.key, es[0].key) then
      assert forall i :: 0 < i < |es| ==> Less(es[0].key, es[i].key);
      [e] + es
    else
      CompareIsTotalOrder(e.key, es[0].key, e.key);
      var rest := InsertEntry(e, es[1..]);
      assert forall x :: x in es[1..] ==> Less(es[0].key, x.key);
      assert es[0] in es;
      [es[0]] + rest
  }

  /** The entries of a memtable, in key order. */
  method InKeyOrder(mem: set<Entry>) returns (es: seq<Entry>)
    requires UniqueSequences(mem)
    ensures Sorted(es) && EntrySet(es) == mem
  {
    es := [];
    var todo := mem;
    while todo != {}
      invariant todo <= mem && Sorted(es) && EntrySet(es) == mem - todo
      decreases todo
    {
      var e :| e in todo;
      forall x | x in es ensures x.key != e.key {
        assert x in EntrySet(es);
      }
      var more := InsertEntry(e, es);
      assert EntrySet(more) == EntrySet(es) + {e};
      es, todo := more, todo - {e};
    }
  }

  /** BuildTable: a table with the entries of the memtable, unless it is empty. */
  method BuildTable(mem: set<Entry>, number: nat, sizeOf: seq<Entry> -> nat) returns (f: Option<File>)
    requires UniqueSequences(mem) && forall e :: e in mem ==> e.key.sequence <= MAX_SEQUENCE
    ensures f.None? <==> mem == {}
    ensures f.Some? ==> WellFormed(f.value) && EntrySet(f.value.entries) == mem && f.value.number == number
    ensures f.Some? ==> f.value.size == sizeOf(f.value.entries)
  {
    var es := InKeyOrder(mem);
    if es == [] {
      return None;
    }
    forall e | e in es ensures e.key.sequence <= MAX_SEQUENCE {
      assert e in EntrySet(es);
    }
    assert es[0] in EntrySet(es);
    f := Some(File(number, sizeOf(es), es[0].key, es[|es| - 1].key, es));
  }
}
