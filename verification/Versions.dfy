/** Versions: seven levels of table files, and the point lookup through them
    (db/version_set.cc). A table is modelled by the entries it holds. */
module Versions {
  import opened InternalKeys
  import opened Visibility

  const NUM_LEVELS := 7

  datatype File = File(number: nat, size: nat, smallest: IKey, largest: IKey, entries: seq<Entry>)

  type Version = v: seq<seq<File>> | |v| == NUM_LEVELS witness [[], [], [], [], [], [], []]

  const EMPTY: Version := [[], [], [], [], [], [], []]

  // ---------- What a version means ----------

  ghost function Contents(files: seq<File>): set<Entry> {
    set f, e | f in files && e in f.entries :: e
  }

  /** All entries at level `level` and deeper. */
  ghost function ContentsFrom(v: Version, level: nat): set<Entry> {
    set l, e | level <= l < NUM_LEVELS && e in Contents(v[l]) :: e
  }

  ghost function All(v: Version): set<Entry> {
    ContentsFrom(v, 0)
  }

  // ---------- What every reachable version satisfies ----------

  ghost predicate WellFormed(f: File) {
    && f.entries != [] && Sorted(f.entries)
    && f.smallest == f.entries[0].key
    && f.largest == f.entries[|f.entries| - 1].key
    && forall e :: e in f.entries ==> e.key.sequence <= MAX_SEQUENCE
  }

  ghost predicate AllWellFormed(files: seq<File>) {
    forall f {:trigger WellFormed(f)} :: f in files ==> WellFormed(f)
  }

  /** Files of a level in key order, no two sharing an internal key. */
  ghost predicate LevelSorted(files: seq<File>) {
    forall i, j :: 0 <= i < j < |files| ==> Less(files[i].largest, files[j].smallest)
  }

  /** Every entry of New is newer than every entry of Old for the same user key. */
  ghost predicate NewerThan(New: set<Entry>, Old: set<Entry>) {
    forall e, x :: e in New && x in Old && e.key.user == x.key.user ==> e.key.sequence > x.key.sequence
  }

  /** In level 0, a larger file number means newer entries. */
  ghost predicate NewerByNumber(files: seq<File>) {
    && (forall i, j :: 0 <= i < j < |files| ==> files[i].number != files[j].number)
    && forall f, g :: f in files && g in files && f.number > g.number
                      ==> NewerThan(Contents([f]), Contents([g]))
  }

  /** A shallower level holds only newer entries of a user key than a deeper one. */
  ghost predicate NewerAbove(v: Version) {
    forall l, m {:trigger NewerThan(Contents(v[l]), Contents(v[m]))} ::
      0 <= l < m < NUM_LEVELS ==> NewerThan(Contents(v[l]), Contents(v[m]))
  }

  ghost predicate Ok(v: Version) {
    && (forall l {:trigger AllWellFormed(v[l])} :: 0 <= l < NUM_LEVELS ==> AllWellFormed(v[l]))
    && (forall l {:trigger LevelSorted(v[l])} :: 1 <= l < NUM_LEVELS ==> LevelSorted(v[l]))
    && NewerByNumber(v[0])
    && NewerAbove(v)
    && UniqueSequences(All(v))
  }

  // ---------- Bounds of a file ----------

  lemma WithinBounds(f: File, e: Entry)
    requires WellFormed(f) && e in f.entries
    ensures !Less(e.key, f.smallest) && !Less(f.largest, e.key)
    ensures f.smallest.user <= e.key.user <= f.largest.user
  {
    var i :| 0 <= i < |f.entries| && f.entries[i] == e;
    assert i == 0 || Less(f.entries[0].key, f.entries[i].key);
    assert i == |f.entries| - 1 || Less(f.entries[i].key, f.entries[|f.entries| - 1].key);
  }

  lemma BoundsInOrder(f: File)
    requires WellFormed(f)
    ensures !Less(f.largest, f.smallest) && f.smallest.user <= f.largest.user
  {
    WithinBounds(f, f.entries[0]);
  }

  lemma InOrder(files: seq<File>, i: nat, j: nat)
    requires AllWellFormed(files) && LevelSorted(files) && i < j < |files|
    ensures Less(files[i].largest, files[j].largest) && Less(files[i].smallest, files[j].smallest)
    ensures files[i].largest.user <= files[j].smallest.user
  {
    assert files[i] in files && files[j] in files;
    BoundsInOrder(files[i]);
    BoundsInOrder(files[j]);
  }

  // ---------- FindFile ----------

  /** Splits the files of a sorted level at `target`: those that end before it, and the rest. */
  ghost predicate SplitsAt(files: seq<File>, target: IKey, index: nat) {
    && index <= |files|
    && (forall i :: 0 <= i < index ==> Less(files[i].largest, target))
    && (forall i :: index <= i < |files| ==> !Less(files[i].largest, target))
  }

  method FindFile(files: seq<File>, target: IKey) returns (index: nat)
    requires AllWellFormed(files) && LevelSorted(files)
    ensures SplitsAt(files, target, index)
  {
    var left, right := 0, |files|;
    while left < right
      invariant 0 <= left <= right <= |files|
      invariant forall i :: 0 <= i < left ==> Less(files[i].largest, target)
      invariant forall i :: right <= i < |files| ==> !Less(files[i].largest, target)
    {
      var mid := (left + right) / 2;
      forall i | 0 <= i < |files| && i != mid
        ensures i < mid ==> Less(files[i].largest, files[mid].largest)
        ensures mid < i ==> Less(files[mid].largest, files[i].largest)
      {
        if i < mid { InOrder(files, i, mid); } else { InOrder(files, mid, i); }
      }
      if Less(files[mid].largest, target) {
        left := mid + 1;
      } else {
        right := mid;
      }
    }
    index := right;
  }

  // ---------- One table ----------

  /** Table seek: the position of the first entry at or after `target`. */
  function LowerBound(es: seq<Entry>, target: IKey): (i: nat)
    ensures i <= |es|
    ensures forall j :: 0 <= j < i ==> Less(es[j].key, target)
    ensures i < |es| ==> !Less(es[i].key, target)
  {
    if es == [] || !Less(es[0].key, target) then 0 else 1 + LowerBound(es[1..], target)
  }

  /** TableCache::Get with the SaveValue callback: the entry the seek lands on,
      provided it belongs to the user key that is looked up. */
  function TableGet(f: File, k: Key, s: nat): Option<Entry> {
    var i := LowerBound(f.entries, SeekKey(k, s));
    if i < |f.entries| && f.entries[i].key.user == k then Some(f.entries[i]) else None
  }

  /** The hit is the newest visible entry of k in S; no hit means there is none. */
  ghost predicate Decides(S: set<Entry>, k: Key, s: nat, hit: Option<Entry>) {
    match hit
    case Some(e) => IsNewest(S, k, s, e)
    case None => forall x :: x in S && x.key.user == k ==> x.key.sequence > s
  }

  lemma TableGetDecides(f: File, k: Key, s: nat)
    requires WellFormed(f)
    ensures Decides(Contents([f]), k, s, TableGet(f, k, s))
  {
    var seek := SeekKey(k, s);
    var i := LowerBound(f.entries, seek);
    forall x | x in Contents([f]) && x.key.user == k && x.key.sequence <= s
      ensures i < |f.entries| && f.entries[i].key.user == k && x.key.sequence <= f.entries[i].key.sequence
    {
      SeekKeySplits(x.key, k, s);
      var j :| 0 <= j < |f.entries| && f.entries[j] == x;
      assert i <= j;
      assert i < j ==> Less(f.entries[i].key, f.entries[j].key);
      SeekKeySplits(f.entries[i].key, k, s);
    }
    if i < |f.entries| {
      SeekKeySplits(f.entries[i].key, k, s);
      assert f.entries[i] in f.entries;
    }
  }

  // ---------- Charging seeks ----------

  /** A table file that a lookup reads, and its level. */
  datatype Visit = Visit(file: File, level: nat)

  /** A file that may hold what a read of the target looks for: in level 0 every file whose user keys cover it, in a
      deeper level the first file that does not end before it, unless that one begins behind its user key. */
  ghost predicate MayHold(v: Version, target: IKey, c: Visit) {
    && c.level < NUM_LEVELS && c.file in v[c.level] && c.file.smallest.user <= target.user
    && if c.level == 0 then target.user <= c.file.largest.user
       else exists i :: 0 <= i < |v[c.level]| && v[c.level][i] == c.file && SplitsAt(v[c.level], target, i)
  }

  /** Level by level, and in level 0 the newest file first. */
  predicate VisitedBefore(a: Visit, b: Visit) {
    a.level < b.level || (a.level == b.level == 0 && a.file.number > b.file.number)
  }

  ghost predicate IsFirst(v: Version, target: IKey, c: Visit) {
    MayHold(v, target, c) && forall d :: MayHold(v, target, d) && d != c ==> VisitedBefore(c, d)
  }

  /** The first of at least two files. */
  ghost predicate IsFirstOfMore(v: Version, target: IKey, c: Visit) {
    IsFirst(v, target, c) && exists d :: d != c && MayHold(v, target, d)
  }

  ghost predicate Misses(f: File, k: Key, s: nat) {
    Decides(Contents([f]), k, s, None)
  }

  /** A lookup charges the first file if it finds nothing there and there is another one to go on to. */
  ghost predicate IsCharged(v: Version, k: Key, s: nat, c: Visit) {
    IsFirstOfMore(v, SeekKey(k, s), c) && Misses(c.file, k, s)
  }

  /** So it is not in the last level. */
  lemma ChargedIsNotLast(v: Version, target: IKey, c: Visit)
    requires IsFirstOfMore(v, target, c)
    ensures c.level + 1 < NUM_LEVELS && c.file in v[c.level]
  {
    var d :| d != c && MayHold(v, target, d);
    assert VisitedBefore(c, d);
  }

  /** GetStats: the file to charge for a seek, and last_file_read. */
  datatype Stats = Stats(charged: Option<Visit>, last: Option<Visit>)

  /** Before another file is read: if one was read already, the first one is charged. */
  function Charge(st: Stats, visit: Visit): Stats {
    Stats(if st.charged.None? then st.last else st.charged, Some(visit))
  }

  ghost predicate ChargesFirst(st: Stats, visits: seq<Visit>) {
    && st.charged == (if |visits| >= 2 then Some(visits[0]) else None)
    && st.last == (if visits == [] then None else Some(visits[|visits| - 1]))
  }

  /** The files that were visited, in order: all that may hold the target above this level, or the first of them. */
  ghost predicate Visited(v: Version, target: IKey, level: nat, visits: seq<Visit>, all: bool) {
    && (forall i :: 0 <= i < |visits| ==> MayHold(v, target, visits[i]) && visits[i].level < level)
    && (forall i, j :: 0 <= i < j < |visits| ==> VisitedBefore(visits[i], visits[j]))
    && forall c :: MayHold(v, target, c) && c.level < level ==>
         c in visits || (!all && forall i :: 0 <= i < |visits| ==> VisitedBefore(visits[i], c))
  }

  lemma StoppedIsWhole(v: Version, target: IKey, level: nat, visits: seq<Visit>)
    requires Visited(v, target, level, visits, false) && level <= NUM_LEVELS
    ensures Visited(v, target, NUM_LEVELS, visits, false)
  {
  }

  lemma FirstVisit(v: Version, target: IKey, visits: seq<Visit>, all: bool)
    requires Visited(v, target, NUM_LEVELS, visits, all) && visits != []
    ensures IsFirst(v, target, visits[0]) && forall c :: IsFirst(v, target, c) ==> c == visits[0]
    ensures |visits| >= 2 ==> IsFirstOfMore(v, target, visits[0])
    ensures |visits| == 1 && all ==> forall c :: !IsFirstOfMore(v, target, c)
  {
    assert MayHold(v, target, visits[0]);
    forall d | MayHold(v, target, d) && d != visits[0] ensures VisitedBefore(visits[0], d) {
      if d in visits {
        var i :| 0 <= i < |visits| && visits[i] == d;
        assert 0 < i;
      }
    }
    if |visits| >= 2 {
      assert MayHold(v, target, visits[1]) && VisitedBefore(visits[0], visits[1]) && visits[1] != visits[0];
    }
  }

  lemma NoVisit(v: Version, target: IKey)
    requires Visited(v, target, NUM_LEVELS, [], true)
    ensures forall c :: !IsFirstOfMore(v, target, c)
  {
  }

  /** In a sorted level there is at most one file to visit. */
  lemma LevelVisited(v: Version, target: IKey, level: nat, visits: seq<Visit>, index: nat)
    requires 1 <= level < NUM_LEVELS && SplitsAt(v[level], target, index)
    requires Visited(v, target, level, visits, true)
    ensures if index < |v[level]| && v[level][index].smallest.user <= target.user
            then Visited(v, target, level + 1, visits + [Visit(v[level][index], level)], true)
            else Visited(v, target, level + 1, visits, true)
  {
    forall c | MayHold(v, target, c) && c.level == level ensures index < |v[level]| && c.file == v[level][index] {
      var i :| 0 <= i < |v[level]| && v[level][i] == c.file && SplitsAt(v[level], target, i);
      assert !(i < index) && !(index < i);
    }
    if index < |v[level]| && v[level][index].smallest.user <= target.user {
      var c := Visit(v[level][index], level);
      assert MayHold(v, target, c);
      assert forall d :: d in visits + [c] <==> d in visits || d == c;
    }
  }

  // ---------- Level 0 ----------

  /** Numbers go down. */
  ghost predicate NewestFirstOrder(files: seq<File>) {
    forall i, j :: 0 <= i < j < |files| ==> files[i].number > files[j].number
  }

  ghost predicate NumbersDiffer(files: seq<File>) {
    forall i, j :: 0 <= i < j < |files| ==> files[i].number != files[j].number
  }

  lemma NewerHead(files: seq<File>)
    requires files != []
    ensures files == [files[0]] + files[1..] && files[0] in files
    ensures NewestFirstOrder(files) ==> NewestFirstOrder(files[1..]) && forall g ::
            g in files[1..] ==> files[0].number > g.number
  {
  }

  function InsertNewestFirst(f: File, files: seq<File>): (r: seq<File>)
    requires NewestFirstOrder(files) && forall g :: g in files ==> g.number != f.number
    ensures |r| == |files| + 1
    ensures forall g :: g in r <==> g == f || g in files
    ensures NewestFirstOrder(r)
  {
    if files == [] || f.number > files[0].number then [f] + files
    else
      NewerHead(files);
      [files[0]] + InsertNewestFirst(f, files[1..])
  }

  /** std::sort with NewestFirst. */
  function NewestFirst(files: seq<File>): (r: seq<File>)
    requires NumbersDiffer(files)
    ensures |r| == |files|
    ensures forall g :: g in r <==> g in files
    ensures NewestFirstOrder(r)
  {
    if files == [] then []
    else
      assert files == [files[0]] + files[1..];
      InsertNewestFirst(files[0], NewestFirst(files[1..]))
  }

  /** The files whose user-key range covers k. */
  method FilesCovering(files: seq<File>, k: Key) returns (r: seq<File>)
    requires NumbersDiffer(files)
    ensures forall f :: f in r <==> f in files && f.smallest.user <= k <= f.largest.user
    ensures NumbersDiffer(r)
  {
    r := [];
    for i := 0 to |files|
      invariant forall f :: f in r <==> f in files[..i] && f.smallest.user <= k <= f.largest.user
      invariant NumbersDiffer(r)
    {
      assert files[..i + 1] == files[..i] + [files[i]];
      if k >= files[i].smallest.user && k <= files[i].largest.user {
        assert forall f :: f in r ==> f.number != files[i].number;
        assert forall j :: 0 <= j < |r| ==> r[j] in r;
        r := r + [files[i]];
      }
    }
    assert files[..|files|] == files;
  }

  /** The first files of the sorted ones are visited. */
  ghost predicate VisitedSorted(sorted: seq<File>, n: nat, visits: seq<Visit>) {
    |visits| == n <= |sorted| && forall i :: 0 <= i < n ==> visits[i] == Visit(sorted[i], 0)
  }

  lemma SortedVisited(v: Version, target: IKey, sorted: seq<File>, visits: seq<Visit>)
    requires NewestFirstOrder(sorted) && |visits| <= |sorted| && VisitedSorted(sorted, |visits|, visits)
    requires forall f :: f in sorted <==> f in v[0] && f.smallest.user <= target.user <= f.largest.user
    ensures Visited(v, target, 1, visits, |visits| == |sorted|)
  {
    forall i | 0 <= i < |visits| ensures MayHold(v, target, visits[i]) {
      assert sorted[i] in sorted;
    }
    forall c | MayHold(v, target, c) && c.level < 1
      ensures c in visits || (|visits| < |sorted| && forall i :: 0 <= i < |visits| ==> VisitedBefore(visits[i], c))
    {
      var j :| 0 <= j < |sorted| && sorted[j] == c.file;
      assert j < |visits| ==> visits[j] == c;
    }
  }

  lemma OneMoreCharged(st: Stats, visits: seq<Visit>, visit: Visit)
    requires ChargesFirst(st, visits)
    ensures ChargesFirst(Charge(st, visit), visits + [visit])
  {
  }

  /** A lookup has visited these files: all that may hold the key above the level, without a hit, or the first of them,
      with a hit in the last one. */
  ghost predicate Searched(v: Version, k: Key, s: nat, level: nat, visits: seq<Visit>, hit: Option<Entry>) {
    && Visited(v, SeekKey(k, s), level, visits, hit.None?)
    && match hit
       case None => forall i :: 0 <= i < |visits| ==> Misses(visits[i].file, k, s)
       case Some(_) =>
         && visits != [] && !Misses(visits[|visits| - 1].file, k, s)
         && forall i :: 0 <= i < |visits| - 1 ==> Misses(visits[i].file, k, s)
  }

  /** The files that cover k, newest first. */
  method SortedCovering(files: seq<File>, k: Key) returns (sorted: seq<File>)
    requires NumbersDiffer(files)
    ensures NewestFirstOrder(sorted)
    ensures forall f :: f in sorted <==> f in files && f.smallest.user <= k <= f.largest.user
  {
    var covering := FilesCovering(files, k);
    sorted := NewestFirst(covering);
  }

  lemma HitIsNotMissed(f: File, k: Key, s: nat)
    requires WellFormed(f)
    ensures TableGet(f, k, s).None? <==> Misses(f, k, s)
    ensures TableGet(f, k, s).Some? ==> IsNewest(Contents([f]), k, s, TableGet(f, k, s).value)
  {
    TableGetDecides(f, k, s);
  }

  lemma LevelZeroSearched(v: Version, k: Key, s: nat, sorted: seq<File>, visits: seq<Visit>, hit: Option<Entry>)
    requires NewestFirstOrder(sorted) && |visits| <= |sorted| && VisitedSorted(sorted, |visits|, visits)
    requires forall f :: f in sorted <==> f in v[0] && f.smallest.user <= k <= f.largest.user
    requires if hit.Some? then visits != [] && !Misses(sorted[|visits| - 1], k, s) else |visits| == |sorted|
    requires forall i :: 0 <= i < |visits| - (if hit.Some? then 1 else 0) ==> Misses(sorted[i], k, s)
    ensures Searched(v, k, s, 1, visits, hit)
  {
    hide Misses;
    SortedVisited(v, SeekKey(k, s), sorted, visits);
    FewerAreVisited(v, SeekKey(k, s), visits, |visits| == |sorted|);
  }

  lemma FewerAreVisited(v: Version, target: IKey, visits: seq<Visit>, all: bool)
    requires Visited(v, target, 1, visits, all)
    ensures Visited(v, target, 1, visits, false)
  {
  }

  /** The files of level 0 that may hold the key, newest first, searched until one has an answer. */
  method LevelZeroGet(v: Version, k: Key, s: nat) returns (hit: Option<Entry>, st: Stats, ghost visits: seq<Visit>)
    requires AllWellFormed(v[0]) && NewerByNumber(v[0])
    ensures Decides(Contents(v[0]), k, s, hit)
    ensures ChargesFirst(st, visits) && Searched(v, k, s, 1, visits, hit)
  {
    hide Searched, Misses, ChargesFirst, NewerByNumber, NewestFirstOrder;
    NumbersOf(v[0]);
    var sorted := SortedCovering(v[0], k);
    st, visits := Stats(None, None), [];
    NothingCharged(st);
    for i := 0 to |sorted|
      invariant forall j :: 0 <= j < i ==> Misses(sorted[j], k, s)
      invariant ChargesFirst(st, visits) && VisitedSorted(sorted, i, visits)
    {
      assert sorted[i] in sorted;
      OneMoreCharged(st, visits, Visit(sorted[i], 0));
      st, visits := Charge(st, Visit(sorted[i], 0)), visits + [Visit(sorted[i], 0)];
      hit := TableGet(sorted[i], k, s);
      HitIsNotMissed(sorted[i], k, s);
      if hit.Some? {
        NewestFileDecides(v[0], sorted, i, k, s, hit.value);
        LevelZeroSearched(v, k, s, sorted, visits, hit);
        return;
      }
    }
    hit := None;
    NoFileDecides(v[0], sorted, k, s);
    LevelZeroSearched(v, k, s, sorted, visits, hit);
  }

  lemma NumbersOf(files: seq<File>)
    requires NewerByNumber(files)
    ensures NumbersDiffer(files)
  {
  }

  lemma NothingCharged(st: Stats)
    requires st == Stats(None, None)
    ensures ChargesFirst(st, [])
  {
  }

  lemma NoFileDecides(files: seq<File>, sorted: seq<File>, k: Key, s: nat)
    requires AllWellFormed(files)
    requires forall f :: f in files && f.smallest.user <= k <= f.largest.user ==> f in sorted
    requires forall j :: 0 <= j < |sorted| ==> Misses(sorted[j], k, s)
    ensures Decides(Contents(files), k, s, None)
  {
    forall f, x | f in files && x in f.entries && x.key.user == k
      ensures x.key.sequence > s
    {
      WithinBounds(f, x);
      var j :| 0 <= j < |sorted| && sorted[j] == f;
      assert x in Contents([sorted[j]]);
    }
  }

  lemma NewestFileDecides(files: seq<File>, sorted: seq<File>, i: nat, k: Key, s: nat, e: Entry)
    requires AllWellFormed(files) && NewerByNumber(files)
    requires NewestFirstOrder(sorted) && i < |sorted|
    requires forall f :: f in sorted ==> f in files
    requires forall f :: f in files && f.smallest.user <= k <= f.largest.user ==> f in sorted
    requires forall j :: 0 <= j < i ==> Misses(sorted[j], k, s)
    requires IsNewest(Contents([sorted[i]]), k, s, e)
    ensures IsNewest(Contents(files), k, s, e)
  {
    var f := sorted[i];
    assert f in sorted;
    forall g, x | g in files && x in g.entries && x.key.user == k && x.key.sequence <= s
      ensures x.key.sequence <= e.key.sequence
    {
      WithinBounds(g, x);
      var j :| 0 <= j < |sorted| && sorted[j] == g;
      assert x in Contents([g]);
      if j > i && g != f {
        LargerNumberIsNewer(files, f, g, e, x);
      }
    }
  }

  lemma LargerNumberIsNewer(files: seq<File>, f: File, g: File, e: Entry, x: Entry)
    requires NewerByNumber(files)
    requires f in files && g in files && f != g && f.number >= g.number
    requires e in f.entries && x in g.entries && e.key.user == x.key.user
    ensures e.key.sequence > x.key.sequence
  {
    var a :| 0 <= a < |files| && files[a] == f;
    var b :| 0 <= b < |files| && files[b] == g;
    assert a < b || b < a;
    assert e in Contents([f]) && x in Contents([g]);
  }

  // ---------- Levels 1 to 6 ----------

  /** The one file of a sorted level that can hold the newest visible entry of k. */
  method SortedLevelGet(v: Version, level: nat, k: Key, s: nat, st0: Stats, ghost visits0: seq<Visit>)
    returns (hit: Option<Entry>, st: Stats, ghost visits: seq<Visit>)
    requires 1 <= level < NUM_LEVELS && AllWellFormed(v[level]) && LevelSorted(v[level])
    requires ChargesFirst(st0, visits0) && Searched(v, k, s, level, visits0, None)
    ensures Decides(Contents(v[level]), k, s, hit)
    ensures ChargesFirst(st, visits) && Searched(v, k, s, level + 1, visits, hit)
  {
    var files := v[level];
    st, visits := st0, visits0;
    var index := FindFile(files, SeekKey(k, s));
    OneFileDecides(files, k, s, index);
    LevelVisited(v, SeekKey(k, s), level, visits, index);
    if index >= |files| {
      hit := None;
    } else if k < files[index].smallest.user {
      hit := None;
    } else {
      OneMoreCharged(st, visits, Visit(files[index], level));
      st, visits := Charge(st, Visit(files[index], level)), visits + [Visit(files[index], level)];
      hit := TableGet(files[index], k, s);
      assert files[index] in files;
      TableGetDecides(files[index], k, s);
    }
  }

  /** Holds also when the entries of k continue from one file into the next. */
  lemma OneFileDecides(files: seq<File>, k: Key, s: nat, index: nat)
    requires AllWellFormed(files) && LevelSorted(files)
    requires SplitsAt(files, SeekKey(k, s), index)
    ensures Decides(Contents(files), k, s,
                    if index < |files| && files[index].smallest.user <= k then TableGet(files[index], k, s) else None)
  {
    var seek := SeekKey(k, s);
    if index < |files| {
      assert files[index] in files;
      TableGetDecides(files[index], k, s);
    }
    forall g, x | g in files && x in g.entries && x.key.user == k && x.key.sequence <= s
      ensures index < |files| && files[index].smallest.user <= k
      ensures var hit := TableGet(files[index], k, s); hit.Some? && x.key.sequence <= hit.value.key.sequence
    {
      var j :| 0 <= j < |files| && files[j] == g;
      WithinBounds(g, x);
      SeekKeySplits(x.key, k, s);
      assert index <= j;
      if j == index {
        assert x in Contents([g]);
      } else {
        AtOrBeforeTheHit(files, k, s, index, j, x);
      }
    }
  }

  /** An entry further right than the file the search stopped at does not hide the hit. */
  lemma AtOrBeforeTheHit(files: seq<File>, k: Key, s: nat, index: nat, j: nat, x: Entry)
    requires AllWellFormed(files) && LevelSorted(files)
    requires index < j < |files| && x in files[j].entries && x.key.user == k && x.key.sequence <= s
    requires !Less(files[index].largest, SeekKey(k, s))
    ensures files[index].smallest.user <= k
    ensures var hit := TableGet(files[index], k, s); hit.Some? && x.key.sequence <= hit.value.key.sequence
  {
    var f := files[index];
    assert f in files && files[j] in files;
    WithinBounds(files[j], x);
    BoundsInOrder(f);
    var last := |f.entries| - 1;
    assert Less(f.largest, x.key);
    SeekKeySplits(f.largest, k, s);
    var i := LowerBound(f.entries, SeekKey(k, s));
    assert i <= last;
    assert i < last ==> Less(f.entries[i].key, f.entries[last].key);
    SeekKeySplits(f.entries[i].key, k, s);
  }

  // ---------- The whole version ----------

  lemma DecidesFind(S: set<Entry>, k: Key, s: nat, hit: Option<Entry>)
    requires UniqueSequences(S) && Decides(S, k, s, hit)
    ensures Find(S, k, s) == match hit case Some(e) => Outcome(e) case None => Absent
  {
    match hit
    case Some(e) => FindIs(S, k, s, e);
    case None => FindIsAbsent(S, k, s);
  }

  /** The first level with an answer has the answer for the whole version. */
  lemma FirstLevelDecides(v: Version, level: nat, k: Key, s: nat, e: Entry)
    requires NewerAbove(v) && level < NUM_LEVELS
    requires forall l :: 0 <= l < level ==> Decides(Contents(v[l]), k, s, None)
    requires IsNewest(Contents(v[level]), k, s, e)
    ensures IsNewest(All(v), k, s, e)
  {
    forall l, x | 0 <= l < NUM_LEVELS && x in Contents(v[l]) && x.key.user == k && x.key.sequence <= s
      ensures x.key.sequence <= e.key.sequence
    {
      if level < l {
        assert NewerThan(Contents(v[level]), Contents(v[l]));
      }
    }
  }

  /** What every level needs to be searched, whatever the others hold. */
  ghost predicate Searchable(v: Version) {
    && (forall l {:trigger AllWellFormed(v[l])} :: 0 <= l < NUM_LEVELS ==> AllWellFormed(v[l]))
    && (forall l {:trigger LevelSorted(v[l])} :: 1 <= l < NUM_LEVELS ==> LevelSorted(v[l]))
    && NewerByNumber(v[0])
  }

  /** The newest visible entry of the first level that has one. */
  ghost predicate FirstHit(v: Version, k: Key, s: nat, hit: Option<Entry>) {
    match hit
    case None => forall l :: 0 <= l < NUM_LEVELS ==> Decides(Contents(v[l]), k, s, None)
    case Some(e) => exists level :: IsFirstHit(v, k, s, e, level)
  }

  ghost predicate IsFirstHit(v: Version, k: Key, s: nat, e: Entry, level: nat) {
    && level < NUM_LEVELS && IsNewest(Contents(v[level]), k, s, e)
    && forall l :: 0 <= l < level ==> Decides(Contents(v[l]), k, s, None)
  }

  method LevelGet(v: Version, level: nat, k: Key, s: nat, st0: Stats, ghost visits0: seq<Visit>)
    returns (hit: Option<Entry>, st: Stats, ghost visits: seq<Visit>)
    requires Searchable(v) && level < NUM_LEVELS
    requires ChargesFirst(st0, visits0) && Searched(v, k, s, level, visits0, None)
    ensures Decides(Contents(v[level]), k, s, hit)
    ensures ChargesFirst(st, visits) && Searched(v, k, s, level + 1, visits, hit)
  {
    hide Visited, ChargesFirst, Decides, Misses;
    if level == 0 {
      hit, st, visits := LevelZeroGet(v, k, s);
    } else {
      hit, st, visits := SortedLevelGet(v, level, k, s, st0, visits0);
    }
  }

  /** At the end of a lookup: what was charged is the first file, if nothing was found in it and there is another. */
  lemma SearchCharges(v: Version, k: Key, s: nat, st: Stats, visits: seq<Visit>, hit: Option<Entry>)
    requires ChargesFirst(st, visits) && Searched(v, k, s, NUM_LEVELS, visits, hit)
    ensures forall c :: st.charged == Some(c) <==> IsCharged(v, k, s, c)
  {
    if visits == [] {
      NoVisit(v, SeekKey(k, s));
    } else {
      FirstVisit(v, SeekKey(k, s), visits, hit.None?);
    }
  }

  /** Version::Get: level by level, stopping at the first hit, and the file to charge for a seek. */
  method Search(v: Version, k: Key, s: nat) returns (hit: Option<Entry>, charged: Option<Visit>)
    requires Searchable(v)
    ensures FirstHit(v, k, s, hit)
    ensures forall c :: charged == Some(c) <==> IsCharged(v, k, s, c)
  {
    hide Visited, ChargesFirst, Decides, Misses, IsCharged;
    var st := Stats(None, None);
    ghost var visits := [];
    NothingSearched(v, k, s, st);
    for level := 0 to NUM_LEVELS
      invariant forall l :: 0 <= l < level ==> Decides(Contents(v[l]), k, s, None)
      invariant ChargesFirst(st, visits) && Searched(v, k, s, level, visits, None)
    {
      hit, st, visits := LevelGet(v, level, k, s, st, visits);
      if hit.Some? {
        HitDecides(Contents(v[level]), k, s, hit.value);
        assert IsFirstHit(v, k, s, hit.value, level);
        StoppedIsWhole(v, SeekKey(k, s), level + 1, visits);
        SearchCharges(v, k, s, st, visits, hit);
        charged := st.charged;
        return;
      }
    }
    hit := None;
    SearchCharges(v, k, s, st, visits, None);
    charged := st.charged;
  }

  lemma NothingSearched(v: Version, k: Key, s: nat, st: Stats)
    requires st == Stats(None, None)
    ensures ChargesFirst(st, []) && Searched(v, k, s, 0, [], None)
  {
  }

  lemma HitDecides(S: set<Entry>, k: Key, s: nat, e: Entry)
    ensures Decides(S, k, s, Some(e)) <==> IsNewest(S, k, s, e)
  {
  }

  /** In a version whose levels are in order of age, the first hit is the newest visible entry of all. */
  method Get(v: Version, k: Key, s: nat) returns (r: Lookup, charged: Option<Visit>)
    requires Ok(v)
    ensures r == Find(All(v), k, s)
    ensures forall c :: charged == Some(c) <==> IsCharged(v, k, s, c)
  {
    var hit;
    hit, charged := Search(v, k, s);
    FirstHitDecides(v, k, s, hit);
    r := if hit.Some? then Outcome(hit.value) else Absent;
  }

  lemma FirstHitDecides(v: Version, k: Key, s: nat, hit: Option<Entry>)
    requires Ok(v) && FirstHit(v, k, s, hit)
    ensures Find(All(v), k, s) == if hit.Some? then Outcome(hit.value) else Absent
  {
    if hit.Some? {
      var level :| IsFirstHit(v, k, s, hit.value, level);
      FirstLevelDecides(v, level, k, s, hit.value);
    }
    DecidesFind(All(v), k, s, hit);
  }

  // ---------- Sampling reads ----------

  /** A merging read of the key has visited these files. */
  ghost predicate Matched(v: Version, target: IKey, level: nat, st: Stats, visits: seq<Visit>, all: bool) {
    ChargesFirst(st, visits) && Visited(v, target, level, visits, all)
  }

  /** It stops at the second file, or with fewer than two. */
  lemma SampleCharges(v: Version, target: IKey, level: nat, st: Stats, visits: seq<Visit>, all: bool)
    requires Matched(v, target, level, st, visits, all) && level <= NUM_LEVELS
    requires |visits| >= 2 || (all && level == NUM_LEVELS)
    ensures forall c :: st.charged == Some(c) <==> IsFirstOfMore(v, target, c)
  {
    if |visits| >= 2 {
      StoppedIsWhole(v, target, level, visits);
      FirstVisit(v, target, visits, false);
    } else if visits == [] {
      NoVisit(v, target);
    } else {
      FirstVisit(v, target, visits, true);
    }
  }

  /** Version::RecordReadSample by way of ForEachOverlapping: the first of the files that a merging read of the key
      would visit, if there are two. */
  method RecordReadSample(v: Version, key: IKey) returns (charged: Option<Visit>)
    requires Ok(v)
    ensures forall c :: charged == Some(c) <==> IsFirstOfMore(v, key, c)
  {
    hide Visited, IsFirstOfMore, Ok;
    LevelsAreSearchable(v);
    var st, visits, all := SampleLevelZero(v, key);
    if st.charged.Some? {
      SampleCharges(v, key, 1, st, visits, all);
      return st.charged;
    }
    for level := 1 to NUM_LEVELS
      invariant Matched(v, key, level, st, visits, true) && st.charged.None?
    {
      var index := FindFile(v[level], key);
      LevelVisited(v, key, level, visits, index);
      if index < |v[level]| && key.user >= v[level][index].smallest.user {
        OneMoreCharged(st, visits, Visit(v[level][index], level));
        st, visits := Charge(st, Visit(v[level][index], level)), visits + [Visit(v[level][index], level)];
        if st.charged.Some? {
          SampleCharges(v, key, level + 1, st, visits, true);
          return st.charged;
        }
      }
    }
    SampleCharges(v, key, NUM_LEVELS, st, visits, true);
    charged := st.charged;
  }

  lemma LevelsAreSearchable(v: Version)
    requires Ok(v)
    ensures Searchable(v)
  {
  }

  /** The part of level 0: it stops once a second file matches. */
  method SampleLevelZero(v: Version, key: IKey) returns (st: Stats, ghost visits: seq<Visit>, ghost all: bool)
    requires Searchable(v)
    ensures Matched(v, key, 1, st, visits, all) && (st.charged.None? ==> all)
  {
    hide Visited, ChargesFirst, NewerByNumber, NewestFirstOrder;
    NumbersOf(v[0]);
    var sorted := SortedCovering(v[0], key.user);
    st, visits := Stats(None, None), [];
    NothingCharged(st);
    for i := 0 to |sorted|
      invariant ChargesFirst(st, visits) && VisitedSorted(sorted, i, visits)
    {
      OneMoreCharged(st, visits, Visit(sorted[i], 0));
      st, visits := Charge(st, Visit(sorted[i], 0)), visits + [Visit(sorted[i], 0)];
      if st.charged.Some? {
        break;
      }
    }
    all := |visits| == |sorted|;
    SortedVisited(v, key, sorted, visits);
  }
}
