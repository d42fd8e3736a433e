/** The iterators of a store (db/db_impl.cc, NewInternalIterator and NewIterator; db/version_set.cc, AddIterators): the
    memtables, the level-0 tables and the deeper levels merged into one sequence, and what the user sees of it. */
module InternalIterators {
  import opened InternalKeys
  import opened Visibility
  import opened Versions
  import opened CompactionWork
  import opened Cursors
  import opened History
  import opened Store
  import opened StoreInvariant
  import opened UserIterator
  import Flush
  import Merging

  // ---------- Sorted lists that share no entry ----------

  ghost function AllOf(lists: seq<seq<Entry>>): set<Entry> {
    set i, e | 0 <= i < |lists| && e in lists[i] :: e
  }

  ghost predicate Apart(lists: seq<seq<Entry>>) {
    && (forall i :: 0 <= i < |lists| ==> Sorted(lists[i]))
    && forall i, j, e :: 0 <= i < j < |lists| && e in lists[i] ==> e !in lists[j]
  }

  lemma ApartTogether(a: seq<seq<Entry>>, b: seq<seq<Entry>>)
    requires Apart(a) && Apart(b) && AllOf(a) !! AllOf(b)
    ensures Apart(a + b) && AllOf(a + b) == AllOf(a) + AllOf(b)
  {
    forall i, e | 0 <= i < |a| && e in a[i] ensures e in AllOf(a) && e in AllOf(a + b) {
      assert (a + b)[i] == a[i];
    }
    forall i, e | 0 <= i < |b| && e in b[i] ensures e in AllOf(b) && e in AllOf(a + b) {
      assert (a + b)[|a| + i] == b[i];
    }
    forall e | e in AllOf(a + b) ensures e in AllOf(a) + AllOf(b) {
      var i :| 0 <= i < |a + b| && e in (a + b)[i];
      assert if i < |a| then e in a[i] else e in b[i - |a|];
    }
    forall i, j, e | 0 <= i < j < |a + b| && e in (a + b)[i] ensures e !in (a + b)[j] {
      assert i < |a| ==> e in AllOf(a);
      assert |a| <= j && e in (a + b)[j] ==> e in AllOf(b);
    }
  }

  lemma OneList(list: seq<Entry>)
    requires Sorted(list)
    ensures Apart([list]) && AllOf([list]) == EntrySet(list)
  {
    assert [list][0] == list;
  }

  // ---------- The files of a sorted level, one after the other ----------

  function Concat(files: seq<File>): seq<Entry> {
    if files == [] then [] else Concat(files[..|files| - 1]) + files[|files| - 1].entries
  }

  lemma {:induction false} ConcatIsLevel(files: seq<File>)
    requires AllWellFormed(files) && LevelSorted(files)
    ensures Sorted(Concat(files)) && EntrySet(Concat(files)) == Contents(files)
  {
    if files != [] {
      var n := |files| - 1;
      var before, last := files[..n], files[n];
      assert forall f :: f in files <==> f in before || f == last;
      ConcatIsLevel(before);
      var es := Concat(before);
      forall i, j | 0 <= i < |es| && 0 <= j < |last.entries| ensures Less(es[i].key, last.entries[j].key) {
        assert es[i] in EntrySet(es);
        var f :| f in before && es[i] in f.entries;
        var m :| 0 <= m < n && files[m] == f;
        WithinBounds(f, es[i]);
        WithinBounds(last, last.entries[j]);
      }
      assert WellFormed(last);
      assert EntrySet(Concat(files)) == EntrySet(es) + EntrySet(last.entries);
      assert Contents(files) == Contents(before) + EntrySet(last.entries);
    }
  }

  // ---------- The children of the merging iterator ----------

  /** Version::AddIterators from a level on: one iterator for each level that is not empty. */
  function LowerLists(v: Version, level: nat): seq<seq<Entry>>
    requires 1 <= level <= NUM_LEVELS
    decreases NUM_LEVELS - level
  {
    if level == NUM_LEVELS then []
    else (if v[level] == [] then [] else [Concat(v[level])]) + LowerLists(v, level + 1)
  }

  function LevelZeroLists(files: seq<File>): (r: seq<seq<Entry>>)
    ensures |r| == |files| && forall i :: 0 <= i < |r| ==> r[i] == files[i].entries
  {
    seq(|files|, i requires 0 <= i < |files| => files[i].entries)
  }

  function Lists(mem: seq<Entry>, imm: Option<seq<Entry>>, v: Version): seq<seq<Entry>> {
    [mem] + (if imm.Some? then [imm.value] else []) + (LevelZeroLists(v[0]) + LowerLists(v, 1))
  }

  lemma LevelsFrom(v: Version, level: nat)
    requires level < NUM_LEVELS
    ensures ContentsFrom(v, level) == Contents(v[level]) + ContentsFrom(v, level + 1)
    ensures Ok(v) ==> Contents(v[level]) !! ContentsFrom(v, level + 1)
  {
    forall e | e in ContentsFrom(v, level) ensures e in Contents(v[level]) + ContentsFrom(v, level + 1) {
      var l :| level <= l < NUM_LEVELS && e in Contents(v[l]);
    }
    if Ok(v) {
      forall e | e in ContentsFrom(v, level + 1) ensures e !in Contents(v[level]) {
        var m :| level + 1 <= m < NUM_LEVELS && e in Contents(v[m]);
        assert NewerThan(Contents(v[level]), Contents(v[m]));
      }
    }
  }

  lemma {:induction false} LowerListsHold(v: Version, level: nat)
    requires Ok(v) && 1 <= level <= NUM_LEVELS
    ensures Apart(LowerLists(v, level)) && AllOf(LowerLists(v, level)) == ContentsFrom(v, level)
    decreases NUM_LEVELS - level
  {
    if level < NUM_LEVELS {
      LowerListsHold(v, level + 1);
      LevelsFrom(v, level);
      assert AllWellFormed(v[level]) && LevelSorted(v[level]);
      ConcatIsLevel(v[level]);
      OneList(Concat(v[level]));
      ApartTogether(if v[level] == [] then [] else [Concat(v[level])], LowerLists(v, level + 1));
    }
  }

  lemma LevelZeroListsHold(v: Version)
    requires Ok(v)
    ensures Apart(LevelZeroLists(v[0])) && AllOf(LevelZeroLists(v[0])) == Contents(v[0])
  {
    var files, lists := v[0], LevelZeroLists(v[0]);
    assert AllWellFormed(files);
    forall i | 0 <= i < |files| ensures WellFormed(files[i]) {
      assert files[i] in files;
    }
    forall i, j, e | 0 <= i < j < |lists| && e in lists[i] ensures e !in lists[j] {
      var f, g := files[i], files[j];
      assert f in files && g in files && f.number != g.number;
      assert f.number > g.number ==> NewerThan(Contents([f]), Contents([g]));
      assert g.number > f.number ==> NewerThan(Contents([g]), Contents([f]));
      assert e in g.entries ==> e in Contents([f]) && e in Contents([g]);
    }
  }

  lemma VersionListsHold(v: Version)
    requires Ok(v)
    ensures Apart(LevelZeroLists(v[0]) + LowerLists(v, 1)) && AllOf(LevelZeroLists(v[0]) + LowerLists(v, 1)) == All(v)
  {
    LowerListsHold(v, 1);
    LevelZeroListsHold(v);
    LevelsFrom(v, 0);
    ApartTogether(LevelZeroLists(v[0]), LowerLists(v, 1));
  }

  /** The memtables' entries, in the order in which their skip lists have them. */
  ghost predicate MemTablesAre(db: Db, mem: seq<Entry>, imm: Option<seq<Entry>>) {
    && Sorted(mem) && EntrySet(mem) == db.mem
    && (imm.Some? <==> db.imm.Some?)
    && (imm.Some? ==> Sorted(imm.value) && EntrySet(imm.value) == db.imm.value)
  }

  lemma NumbersKeepApart(db: Db)
    requires Inv(db)
    ensures db.mem !! All(db.version)
    ensures db.imm.Some? ==> db.mem !! db.imm.value && db.imm.value !! All(db.version)
    ensures UniqueSequences(Visible(db))
  {
    EntriesAreNumbered(db.history[db.switched..], db.switched + 1);
    EntriesAreNumbered(db.history[db.flushed..db.switched], db.flushed + 1);
    EntriesAreNumbered(db.history[..db.flushed], 1);
    VisibleIsTablesAndRest(db);
    WholeHistory(db.history, db.flushed);
  }

  lemma ListsHold(db: Db, mem: seq<Entry>, imm: Option<seq<Entry>>)
    requires Inv(db) && MemTablesAre(db, mem, imm)
    ensures Apart(Lists(mem, imm, db.version)) && AllOf(Lists(mem, imm, db.version)) == Visible(db)
  {
    VersionListsHold(db.version);
    NumbersKeepApart(db);
    ListsTogether(mem, imm, db.version);
  }

  lemma ListsTogether(mem: seq<Entry>, imm: Option<seq<Entry>>, v: Version)
    requires Apart(LevelZeroLists(v[0]) + LowerLists(v, 1)) && AllOf(LevelZeroLists(v[0]) + LowerLists(v, 1)) == All(v)
    requires Sorted(mem) && EntrySet(mem) !! All(v)
    requires imm.Some? ==> Sorted(imm.value) && EntrySet(imm.value) !! EntrySet(mem) && EntrySet(imm.value) !! All(v)
    ensures Apart(Lists(mem, imm, v))
    ensures AllOf(Lists(mem, imm, v)) == EntrySet(mem) + (if imm.Some? then EntrySet(imm.value) else {}) + All(v)
  {
    OneList(mem);
    if imm.Some? {
      OneList(imm.value);
      ApartTogether([mem], [imm.value]);
    } else {
      assert [mem] + [] == [mem];
    }
    ApartTogether([mem] + if imm.Some? then [imm.value] else [], LevelZeroLists(v[0]) + LowerLists(v, 1));
  }

  lemma {:induction false} InOrder(S: set<Entry>) returns (es: seq<Entry>)
    requires UniqueSequences(S)
    ensures Sorted(es) && EntrySet(es) == S
  {
    es := [];
    if e :| e in S {
      var rest := InOrder(S - {e});
      forall x | x in rest ensures x.key != e.key {
        assert x in EntrySet(rest);
      }
      es := Flush.InsertEntry(e, rest);
      assert EntrySet(es) == EntrySet(rest) + {e};
    }
  }

  // ---------- The iterators ----------

  method NewCursors(lists: seq<seq<Entry>>) returns (cursors: seq<Cursor>)
    requires forall i :: 0 <= i < |lists| ==> Sorted(lists[i])
    ensures |cursors| == |lists|
            && (forall i :: 0 <= i < |lists| ==> fresh(cursors[i]) && cursors[i].Ok() && cursors[i].entries == lists[i])
    ensures forall i, j :: 0 <= i < j < |cursors| ==> cursors[i] != cursors[j]
  {
    cursors := [];
    for k := 0 to |lists|
      invariant |cursors| == k
      invariant forall i :: 0 <= i < k ==> fresh(cursors[i]) && cursors[i].Ok() && cursors[i].entries == lists[i]
      invariant forall i, j :: 0 <= i < j < k ==> cursors[i] != cursors[j]
    {
      var c := new Cursor(lists[k]);
      cursors := cursors + [c];
    }
  }

  lemma UnionOf(lists: seq<seq<Entry>>, cursors: seq<Cursor>, union: seq<Entry>)
    requires Apart(lists) && Sorted(union) && EntrySet(union) == AllOf(lists)
    requires |cursors| == |lists| && forall i :: 0 <= i < |lists| ==> cursors[i].entries == lists[i]
    ensures Merging.IsUnion(cursors, union)
  {
    assert forall e :: e in union <==> e in EntrySet(union);
    forall e ensures e in union <==> exists i :: 0 <= i < |cursors| && e in cursors[i].entries {
      if i :| 0 <= i < |cursors| && e in cursors[i].entries {
        assert e in lists[i];
      }
    }
  }

  method NewInternalIterator(mem: seq<Entry>, imm: Option<seq<Entry>>, version: Version, ghost db: Db)
    returns (iter: Merging.MergingIterator)
    requires Inv(db) && version == db.version && MemTablesAre(db, mem, imm)
    ensures fresh(iter) && (forall i :: 0 <= i < |iter.children| ==> fresh(iter.children[i]))
    ensures iter.Ok() && Proper(iter.union) && EntrySet(iter.union) == Visible(db)
  {
    var lists := Lists(mem, imm, version);
    ListsHold(db, mem, imm);
    NumbersKeepApart(db);
    ghost var union := InOrder(Visible(db));
    var cursors := NewCursors(lists);
    UnionOf(lists, cursors, union);
    iter := new Merging.MergingIterator(cursors, union);
  }

  /** DBImpl::NewIterator, at a snapshot or at the last sequence number. */
  method NewIterator(mem: seq<Entry>, imm: Option<seq<Entry>>, version: Version, lastSequence: nat,
                     snapshot: Option<nat>, ghost db: Db)
    returns (it: DBIter)
    requires Inv(db) && version == db.version && MemTablesAre(db, mem, imm) && lastSequence == db.lastSequence
    requires snapshot.Some? ==> snapshot.value in db.snapshots
    ensures fresh(it) && fresh(it.iter) && (forall i :: 0 <= i < |it.iter.children| ==> fresh(it.iter.children[i]))
    ensures it.sequence == (if snapshot.Some? then snapshot.value else |db.history|) <= |db.history|
    ensures it.Ok() && !it.valid && Shows(it, MapOf(db.history[..it.sequence]))
  {
    var iter := NewInternalIterator(mem, imm, version, db);
    var s := if snapshot.Some? then snapshot.value else lastSequence;
    it := new DBIter(iter, s);
    assert SmallestSnapshot(db) <= s <= db.lastSequence;
    forall k ensures Read(EntrySet(iter.union), k, s) == ValueAt(MapOf(db.history[..s]), k) {
      ReadsAreMaps(db, k, s);
    }
  }

  // ---------- What the user sees ----------

  /** Its entries, at its sequence number, read as the map. */
  ghost predicate Shows(it: DBIter, m: map<Key, Value>) {
    forall k :: Read(EntrySet(it.iter.union), k, it.sequence) == ValueAt(m, k)
  }

  /** The first key of the map in a range, or the last one. */
  ghost predicate IsLeastIn(m: map<Key, Value>, range: Range, r: Option<Key>) {
    match r
    case Some(k) => range.Has(k) && k in m && forall j :: j in m && range.Has(j) ==> k <= j
    case None => forall j :: j in m ==> !range.Has(j)
  }

  ghost predicate IsGreatestIn(m: map<Key, Value>, range: Range, r: Option<Key>) {
    match r
    case Some(k) => range.Has(k) && k in m && forall j :: j in m && range.Has(j) ==> j <= k
    case None => forall j :: j in m ==> !range.Has(j)
  }

  /** Every move of the iterator is a move in the map. */
  lemma MovesInMap(it: DBIter, m: map<Key, Value>, range: Range, r: Option<Key>)
    requires Shows(it, m)
    ensures IsLeastLive(it.iter.union, it.sequence, range, r) <==> IsLeastIn(m, range, r)
    ensures IsGreatestLive(it.iter.union, it.sequence, range, r) <==> IsGreatestIn(m, range, r)
  {
    assert forall k :: Live(it.iter.union, it.sequence, k) <==> k in m;
  }

  // ---------- Walking over everything ----------

  type Items = seq<(Key, Value)>

  ghost predicate Listed(items: Items, k: Key) {
    exists i :: 0 <= i < |items| && items[i].0 == k
  }

  /** These are the map's items with the keys below next; all of them if there is no next key. */
  ghost predicate ListsBelow(items: Items, m: map<Key, Value>, next: Option<Key>) {
    && (forall i, j :: 0 <= i < j < |items| ==> items[i].0 < items[j].0)
    && (forall i :: 0 <= i < |items| ==> items[i].0 in m && items[i].1 == m[items[i].0])
    && (forall k {:trigger Listed(items, k)} :: Listed(items, k) <==> k in m && (next.Some? ==> k < next.value))
  }

  ghost predicate ListsAbove(items: Items, m: map<Key, Value>, next: Option<Key>) {
    && (forall i, j :: 0 <= i < j < |items| ==> items[i].0 > items[j].0)
    && (forall i :: 0 <= i < |items| ==> items[i].0 in m && items[i].1 == m[items[i].0])
    && (forall k {:trigger Listed(items, k)} :: Listed(items, k) <==> k in m && (next.Some? ==> k > next.value))
  }

  ghost function NotBelow(m: map<Key, Value>, next: Option<Key>): set<Key> {
    set k | k in m && next.Some? && k >= next.value
  }

  ghost function NotAbove(m: map<Key, Value>, next: Option<Key>): set<Key> {
    set k | k in m && next.Some? && k <= next.value
  }

  lemma OneMoreListed(items: Items, item: (Key, Value), k: Key)
    ensures Listed(items + [item], k) <==> Listed(items, k) || item.0 == k
  {
    var more := items + [item];
    assert more[|items|] == item;
    if i :| 0 <= i < |items| && items[i].0 == k {
      assert more[i].0 == k;
    }
  }

  lemma NextBelow(items: Items, m: map<Key, Value>, k: Key, next: Option<Key>)
    requires ListsBelow(items, m, Some(k)) && k in m && IsLeastIn(m, Above(k), next)
    ensures ListsBelow(items + [(k, m[k])], m, next) && NotBelow(m, next) < NotBelow(m, Some(k))
  {
    forall i | 0 <= i < |items| ensures items[i].0 < k {
      assert Listed(items, items[i].0);
    }
    forall j ensures Listed(items + [(k, m[k])], j) <==> j in m && (next.Some? ==> j < next.value) {
      OneMoreListed(items, (k, m[k]), j);
    }
    assert k in NotBelow(m, Some(k)) && k !in NotBelow(m, next);
  }

  lemma NextAbove(items: Items, m: map<Key, Value>, k: Key, next: Option<Key>)
    requires ListsAbove(items, m, Some(k)) && k in m && IsGreatestIn(m, Below(k), next)
    ensures ListsAbove(items + [(k, m[k])], m, next) && NotAbove(m, next) < NotAbove(m, Some(k))
  {
    forall i | 0 <= i < |items| ensures items[i].0 > k {
      assert Listed(items, items[i].0);
    }
    forall j ensures Listed(items + [(k, m[k])], j) <==> j in m && (next.Some? ==> j > next.value) {
      OneMoreListed(items, (k, m[k]), j);
    }
    assert k in NotAbove(m, Some(k)) && k !in NotAbove(m, next);
  }

  method ToFirst(it: DBIter, ghost m: map<Key, Value>)
    requires it.Ok() && Shows(it, m)
    modifies it, it.iter, it.iter.children
    ensures it.Ok() && Shows(it, m) && IsLeastIn(m, Everything, it.CurrentKey())
  {
    hide Merging.MergingIterator.At;
    it.SeekToFirst();
    MovesInMap(it, m, Everything, it.CurrentKey());
  }

  method ToLast(it: DBIter, ghost m: map<Key, Value>)
    requires it.Ok() && Shows(it, m)
    modifies it, it.iter, it.iter.children
    ensures it.Ok() && Shows(it, m) && IsGreatestIn(m, Everything, it.CurrentKey())
  {
    hide Merging.MergingIterator.At;
    it.SeekToLast();
    MovesInMap(it, m, Everything, it.CurrentKey());
  }

  method Item(it: DBIter, ghost m: map<Key, Value>) returns (item: (Key, Value))
    requires it.Ok() && Shows(it, m) && it.valid
    ensures Some(item.0) == it.CurrentKey() && item.0 in m && item.1 == m[item.0]
  {
    hide Merging.MergingIterator.At;
    var k := it.UserKey();
    var v := it.UserValue();
    item := (k, v);
  }

  method Forth(it: DBIter, ghost m: map<Key, Value>)
    requires it.Ok() && Shows(it, m) && it.valid
    modifies it, it.iter, it.iter.children
    ensures it.Ok() && Shows(it, m) && IsLeastIn(m, Above(old(it.CurrentKey()).value), it.CurrentKey())
  {
    hide Merging.MergingIterator.At;
    ghost var k := it.CurrentKey().value;
    it.Next();
    MovesInMap(it, m, Above(k), it.CurrentKey());
  }

  method Back(it: DBIter, ghost m: map<Key, Value>)
    requires it.Ok() && Shows(it, m) && it.valid
    modifies it, it.iter, it.iter.children
    ensures it.Ok() && Shows(it, m) && IsGreatestIn(m, Below(old(it.CurrentKey()).value), it.CurrentKey())
  {
    hide Merging.MergingIterator.At;
    ghost var k := it.CurrentKey().value;
    it.Prev();
    MovesInMap(it, m, Below(k), it.CurrentKey());
  }

  /** Walking forwards yields the items of the map, each once, in increasing order. */
  method Scan(it: DBIter, ghost m: map<Key, Value>) returns (items: Items)
    requires it.Ok() && Shows(it, m)
    modifies it, it.iter, it.iter.children
    ensures ListsBelow(items, m, None)
  {
    hide DBIter.Ok, Shows;
    items := [];
    ToFirst(it, m);
    while it.valid
      invariant it.Ok() && Shows(it, m) && ListsBelow(items, m, it.CurrentKey())
      decreases NotBelow(m, it.CurrentKey())
    {
      var item := Item(it, m);
      Forth(it, m);
      NextBelow(items, m, item.0, it.CurrentKey());
      items := items + [item];
    }
  }

  /** Walking backwards yields them in decreasing order. */
  method ScanBackwards(it: DBIter, ghost m: map<Key, Value>) returns (items: Items)
    requires it.Ok() && Shows(it, m)
    modifies it, it.iter, it.iter.children
    ensures ListsAbove(items, m, None)
  {
    hide DBIter.Ok, Shows;
    items := [];
    ToLast(it, m);
    while it.valid
      invariant it.Ok() && Shows(it, m) && ListsAbove(items, m, it.CurrentKey())
      decreases NotAbove(m, it.CurrentKey())
    {
      var item := Item(it, m);
      Back(it, m);
      NextAbove(items, m, item.0, it.CurrentKey());
      items := items + [item];
    }
  }
}
