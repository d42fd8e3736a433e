/** A lookup beside an inserter (db/memtable.cc, MemTable::Get over db/skiplist.h): the reader's single pointer loads,
    interleaved with the inserter's stores, answer as the sorted memtable does. */
module ConcurrentReads {
  import opened InternalKeys
  import opened Visibility
  import opened Versions
  import opened History
  import opened Store
  import opened StoreInvariant
  import opened PointReads
  import SkipLists
  import L = SkipListSteps

  /** The entries of a list whose keys carry these values. */
  type Values = IKey -> Value

  ghost function MemEntries(list: SkipLists.List, values: Values): set<Entry>
    requires |list.levels| == SkipLists.MAX_HEIGHT
  {
    set k | k in SkipLists.Keys(list) :: Entry(k, values(k))
  }

  /** MemTable::Get: the key that the search ends at counts if it has the user key. */
  function HitOf(next: Option<IKey>, k: Key, values: Values): Option<Entry> {
    if next.Some? && next.value.user == k then Some(Entry(next.value, values(next.value))) else None
  }

  /** Reader r looks up k at sequence number s between steps i and j. */
  ghost predicate Looks(states: seq<L.System>, steps: seq<L.Step>, i: nat, j: nat, r: nat, k: Key, s: nat) {
    && L.Run(states, steps) && L.SearchesFrom(steps, i, j, r, Some(SeekKey(k, s)))
    && j < |steps| && steps[j] == L.ReadStep(r)
    && r < |states[j + 1].readers| && states[j + 1].readers[r].Stopped?
  }

  /** Where a search for the lookup key ends decides the lookup. */
  lemma PlaceDecides(keys: set<IKey>, at: SkipLists.Node, next: Option<IKey>, k: Key, s: nat, values: Values)
    requires SkipLists.IsPlace(keys, Some(SeekKey(k, s)), at, next)
    ensures Decides((set x | x in keys :: Entry(x, values(x))), k, s, HitOf(next, k, values))
  {
    forall x | x in keys && x.user == k && x.sequence <= s
      ensures next.Some? && next.value.user == k && x.sequence <= next.value.sequence
    {
      SeekKeySplits(x, k, s);
      assert !SkipLists.Short(x, Some(SeekKey(k, s)));
      SeekKeySplits(next.value, k, s);
    }
    if next.Some? {
      SeekKeySplits(next.value, k, s);
    }
  }

  /** The lookup answers for the keys of the list at its last load, and so for every entry that was there when it
      began. */
  lemma ConcurrentGet(states: seq<L.System>, steps: seq<L.Step>, i: nat, j: nat, r: nat, k: Key, s: nat, values: Values)
    requires Looks(states, steps, i, j, r, k, s)
    ensures |states[i].list.levels| == |states[j].list.levels| == SkipLists.MAX_HEIGHT
    ensures MemEntries(states[i].list, values) <= MemEntries(states[j].list, values)
    ensures Decides(MemEntries(states[j].list, values), k, s, HitOf(states[j + 1].readers[r].next, k, values))
  {
    L.ConcurrentSearch(states, steps, i, j, r, Some(SeekKey(k, s)));
    L.KeysStay(states, steps, i, j);
    var found := states[j + 1].readers[r];
    PlaceDecides(SkipLists.Keys(states[j].list), found.at, found.next, k, s, values);
  }

  /** Entries that are too new to be seen do not matter. */
  lemma DecidesWithoutNewer(S: set<Entry>, more: set<Entry>, k: Key, s: nat, hit: Option<Entry>)
    requires S <= more && Decides(more, k, s, hit)
    requires forall e :: e in more && e !in S ==> e.key.sequence > s
    ensures Decides(S, k, s, hit)
  {
  }

  /** What is not in the memtable. */
  ghost function Older(db: Db): set<Entry> {
    (if db.imm.Some? then db.imm.value else {}) + All(db.version)
  }

  /** DBImpl::Get with a writer inserting the next group meanwhile: whatever it has linked by the reader's last load
      is newer than what the reader may see, and the answer is the map after as many operations as its number says. */
  lemma ConcurrentRead(db: Db, states: seq<L.System>, steps: seq<L.Step>, i: nat, j: nat, r: nat, k: Key, s: nat,
                       values: Values)
    requires Inv(db) && SmallestSnapshot(db) <= s <= db.lastSequence && Looks(states, steps, i, j, r, k, s)
    requires |states[i].list.levels| == |states[j].list.levels| == SkipLists.MAX_HEIGHT
    requires db.mem <= MemEntries(states[i].list, values)
    requires forall e :: e in MemEntries(states[j].list, values) && e !in db.mem ==> e.key.sequence > db.lastSequence
    ensures var hit := HitOf(states[j + 1].readers[r].next, k, values);
            ValueAt(MapOf(db.history[..s]), k) == if hit.Some? then Present(Outcome(hit.value))
                                                  else Read(Older(db), k, s)
  {
    hide Inv;
    var hit := HitOf(states[j + 1].readers[r].next, k, values);
    ConcurrentGet(states, steps, i, j, r, k, s, values);
    DecidesWithoutNewer(db.mem, MemEntries(states[j].list, values), k, s, hit);
    MemtableFirst(db, k, s, hit);
  }

  /** The memtable's hit is the answer; without one it is what the immutable memtable and the tables say. */
  lemma MemtableFirst(db: Db, k: Key, s: nat, hit: Option<Entry>)
    requires Inv(db) && SmallestSnapshot(db) <= s <= db.lastSequence && Decides(db.mem, k, s, hit)
    ensures ValueAt(MapOf(db.history[..s]), k) == if hit.Some? then Present(Outcome(hit.value))
                                                  else Read(Older(db), k, s)
  {
    hide Inv, Decides;
    MemtableIsNewest(db);
    ReadsAreMaps(db, k, s);
    NewestPlaceDecides(db.mem, Older(db), k, s, hit);
  }

  lemma MemtableIsNewest(db: Db)
    requires Inv(db)
    ensures UniqueSequences(db.mem + Older(db)) && NewerThan(db.mem, Older(db)) && db.mem + Older(db) == Visible(db)
  {
    var I := if db.imm.Some? then db.imm.value else {};
    if db.imm.None? {
      assert db.history[db.flushed..db.switched] == [];
    }
    PlacesInOrder(db.history, db.flushed, db.switched, db.mem, I, All(db.version));
  }

  lemma NewestPlaceDecides(M: set<Entry>, O: set<Entry>, k: Key, s: nat, hit: Option<Entry>)
    requires UniqueSequences(M + O) && NewerThan(M, O) && Decides(M, k, s, hit)
    ensures Read(M + O, k, s) == if hit.Some? then Present(Outcome(hit.value)) else Read(O, k, s)
  {
    FindNewerFirst(M, O, k, s);
    DecidesFind(M, k, s, hit);
    FindIsAbsent(M, k, s);
  }
}
