/** DBImpl::Get (db/db_impl.cc): the memtable, then the immutable memtable, then the tables. */
module PointReads {
  import UserIterator
  import opened InternalKeys
  import opened Visibility
  import opened Versions
  import opened CompactionWork
  import opened History
  import opened Store
  import opened StoreInvariant

  /** MemTable::Get: a seek in the sorted memtable; the entry found counts if it has the user key. */
  method MemTableGet(mem: seq<Entry>, k: Key, s: nat) returns (hit: Option<Entry>)
    requires Sorted(mem)
    ensures Decides(EntrySet(mem), k, s, hit)
  {
    var i := LowerBound(mem, SeekKey(k, s));
    SeekDecides(mem, k, s, i);
    if i < |mem| && mem[i].key.user == k {
      return Some(mem[i]);
    }
    return None;
  }

  /** No visible entry of the key is newer than the one that the seek finds. */
  lemma SeekIsNewest(mem: seq<Entry>, k: Key, s: nat, i: nat, j: nat)
    requires Sorted(mem) && i == LowerBound(mem, SeekKey(k, s))
    requires j < |mem| && mem[j].key.user == k && mem[j].key.sequence <= s
    ensures i < |mem| && mem[i].key.user == k && mem[j].key.sequence <= mem[i].key.sequence
  {
    SeekKeySplits(mem[j].key, k, s);
    assert i <= j;
    assert i < j ==> Less(mem[i].key, mem[j].key);
    SeekKeySplits(mem[i].key, k, s);
  }

  lemma SeekDecides(mem: seq<Entry>, k: Key, s: nat, i: nat)
    requires Sorted(mem) && i == LowerBound(mem, SeekKey(k, s))
    ensures Decides(EntrySet(mem), k, s, if i < |mem| && mem[i].key.user == k then Some(mem[i]) else None)
  {
    forall x | x in mem && x.key.user == k && x.key.sequence <= s
      ensures i < |mem| && mem[i].key.user == k && x.key.sequence <= mem[i].key.sequence
    {
      var j :| 0 <= j < |mem| && mem[j] == x;
      SeekIsNewest(mem, k, s, i, j);
    }
    if i < |mem| {
      SeekKeySplits(mem[i].key, k, s);
      assert mem[i] in mem;
    }
  }

  ghost function Frozen(imm: Option<seq<Entry>>): set<Entry> {
    if imm.Some? then EntrySet(imm.value) else {}
  }

  /** The first of the three places with an entry of the key has the answer. */
  lemma FirstPlaceDecides(M: set<Entry>, I: set<Entry>, T: set<Entry>, k: Key, s: nat)
    requires UniqueSequences(M + (I + T)) && NewerThan(M, I + T) && NewerThan(I, T)
    ensures Find(M + (I + T), k, s) ==
            if !Find(M, k, s).Absent? then Find(M, k, s)
            else if !Find(I, k, s).Absent? then Find(I, k, s)
            else Find(T, k, s)
  {
    FindNewerFirst(M, I + T, k, s);
    FindNewerFirst(I, T, k, s);
  }

  method Lookup(mem: seq<Entry>, imm: Option<seq<Entry>>, v: Version, k: Key, s: nat) returns (r: Visibility.Lookup)
    requires Sorted(mem) && (imm.Some? ==> Sorted(imm.value)) && Ok(v)
    requires UniqueSequences(EntrySet(mem) + (Frozen(imm) + All(v)))
    requires NewerThan(EntrySet(mem), Frozen(imm) + All(v)) && NewerThan(Frozen(imm), All(v))
    ensures r == Find(EntrySet(mem) + (Frozen(imm) + All(v)), k, s)
  {
    FirstPlaceDecides(EntrySet(mem), Frozen(imm), All(v), k, s);
    FindIsAbsent(Frozen(imm), k, s);
    var hit := MemTableGet(mem, k, s);
    DecidesFind(EntrySet(mem), k, s, hit);
    if hit.Some? {
      return Outcome(hit.value);
    }
    if imm.Some? {
      hit := MemTableGet(imm.value, k, s);
      DecidesFind(EntrySet(imm.value), k, s, hit);
      if hit.Some? {
        return Outcome(hit.value);
      }
    }
    var charged;
    r, charged := Versions.Get(v, k, s);
  }

  lemma PlacesInOrder(h: seq<Op>, flushed: nat, switched: nat, M: set<Entry>, I: set<Entry>, T: set<Entry>)
    requires flushed <= switched <= |h|
    requires M == EntriesFrom(h[switched..], switched + 1) && I == EntriesFrom(h[flushed..switched], flushed + 1)
    requires T <= EntriesFrom(h[..flushed], 1)
    ensures UniqueSequences(M + (I + T)) && NewerThan(M, I + T) && NewerThan(I, T)
  {
    WholeHistory(h, switched);
    assert h[..switched] == h[..flushed] + h[flushed..switched];
    EntriesOfConcat(h[..flushed], h[flushed..switched], 1);
    EntriesAreNumbered(h[..flushed], 1);
    EntriesAreNumbered(h[flushed..switched], flushed + 1);
    assert M + (I + T) <= EntriesFrom(h, 1);
  }

  lemma FrozenIsTheMiddle(db: Db, imm: Option<seq<Entry>>)
    requires MemInv(db.mem, db.imm, db.history, db.flushed, db.switched)
    requires imm.Some? == db.imm.Some? && (imm.Some? ==> EntrySet(imm.value) == db.imm.value)
    ensures Frozen(imm) == EntriesFrom(db.history[db.flushed..db.switched], db.flushed + 1)
    ensures db.mem + (Frozen(imm) + All(db.version)) == Visible(db)
  {
    if imm.None? {
      assert db.history[db.flushed..db.switched] == [];
    }
  }

  /** Whoever holds a snapshot reads the map after as many operations as its number says. */
  method Get(ghost db: Db, mem: seq<Entry>, imm: Option<seq<Entry>>, v: Version, k: Key, s: nat)
    returns (r: Option<Value>)
    requires Inv(db) && SmallestSnapshot(db) <= s <= db.lastSequence
    requires Sorted(mem) && EntrySet(mem) == db.mem && v == db.version
    requires imm.Some? == db.imm.Some? && (imm.Some? ==> Sorted(imm.value) && EntrySet(imm.value) == db.imm.value)
    ensures r == ValueAt(MapOf(db.history[..s]), k)
  {
    FrozenIsTheMiddle(db, imm);
    PlacesInOrder(db.history, db.flushed, db.switched, db.mem, Frozen(imm), All(v));
    ReadsAreMaps(db, k, s);
    assert VersionInv(v);
    var lookup := Lookup(mem, imm, v, k, s);
    r := Present(lookup);
  }

  /** An iterator over the merged entries of the store walks over exactly the keys of that map. */
  lemma LiveKeysAreTheMap(db: Db, es: seq<Entry>, s: nat, k: Key)
    requires Inv(db) && SmallestSnapshot(db) <= s <= db.lastSequence && EntrySet(es) == Visible(db)
    ensures UserIterator.Live(es, s, k) <==> k in MapOf(db.history[..s])
    ensures k in MapOf(db.history[..s]) ==> Read(EntrySet(es), k, s) == Some(MapOf(db.history[..s])[k])
  {
    ReadsAreMaps(db, k, s);
  }
}
