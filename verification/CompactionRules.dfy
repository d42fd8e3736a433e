/** The drop rules of a compaction (db/db_impl.cc, DoCompactionWork) and what they do to reads. */
module CompactionRules {
  import opened InternalKeys
  import opened Visibility
  import opened Versions

  /** IsBaseLevelForKey: no file two or more levels further down covers the user key. */
  ghost predicate BaseLevel(v: Version, level: nat, k: Key) {
    forall l, f :: level + 2 <= l < NUM_LEVELS && f in v[l] ==> !(f.smallest.user <= k <= f.largest.user)
  }

  /** Rule (A): a newer input entry of the user key is itself visible to every snapshot. */
  ghost predicate Hidden(I: set<Entry>, snapshot: nat, e: Entry) {
    exists x :: x in I && x.key.user == e.key.user && e.key.sequence < x.key.sequence <= snapshot
  }

  /** A tombstone that every snapshot sees and that has nothing further down to delete. */
  ghost predicate Obsolete(snapshot: nat, base: iset<Key>, e: Entry) {
    e.key.kind.Deletion? && e.key.sequence <= snapshot && e.key.user in base
  }

  ghost predicate Dropped(I: set<Entry>, snapshot: nat, base: iset<Key>, e: Entry) {
    Hidden(I, snapshot, e) || Obsolete(snapshot, base, e)
  }

  ghost function Kept(I: set<Entry>, snapshot: nat, base: iset<Key>): set<Entry> {
    set e | e in I && !Dropped(I, snapshot, base, e)
  }

  // ---------- Reads, exactly ----------

  /** A tombstone among the inputs, droppable for lack of deeper data, above a value that stays:
      dropping the tombstone would bring the value back. */
  ghost predicate Exposes(I: set<Entry>, R: set<Entry>, base: iset<Key>, t: Entry, x: Entry) {
    && t in I && t.key.kind.Deletion? && t.key.user in base
    && x in R && x.key.user == t.key.user && x.key.sequence < t.key.sequence && x.key.kind.Put?
    && forall y :: y in R && y.key.user == t.key.user && y.key.sequence < t.key.sequence
                   ==> y.key.sequence <= x.key.sequence
  }

  ghost predicate NothingExposed(I: set<Entry>, R: set<Entry>, base: iset<Key>) {
    forall t, x :: t in I && x in R ==> !Exposes(I, R, base, t, x)
  }

  /** The compaction keeps every read that a snapshot at or after `snapshot` can make. */
  ghost predicate KeepsReads(I: set<Entry>, R: set<Entry>, snapshot: nat, base: iset<Key>) {
    forall k, s: nat :: snapshot <= s ==> Read(Kept(I, snapshot, base) + R, k, s) == Read(I + R, k, s)
  }

  lemma ReadIsKept(I: set<Entry>, R: set<Entry>, snapshot: nat, base: iset<Key>, k: Key, s: nat)
    requires UniqueSequences(I + R) && NothingExposed(I, R, base) && snapshot <= s
    ensures Read(Kept(I, snapshot, base) + R, k, s) == Read(I + R, k, s)
  {
    var J := Kept(I, snapshot, base);
    FindIsAbsent(I + R, k, s);
    FindIsAbsent(J + R, k, s);
    if !Find(I + R, k, s).Absent? {
      var w :| w in I + R && w.key.user == k && w.key.sequence <= s;
      var e := NewestExists(I + R, k, s, w);
      FindIs(I + R, k, s, e);
      if e in J + R {
        assert IsNewest(J + R, k, s, e);
        FindIs(J + R, k, s, e);
      } else {
        DroppedNewestReadsAsNothing(I, R, snapshot, base, k, s, e);
      }
    }
  }

  /** If the newest visible entry is dropped, it is a tombstone, and what is left of its key
      below it is another tombstone or nothing. */
  lemma DroppedNewestReadsAsNothing(I: set<Entry>, R: set<Entry>, snapshot: nat, base: iset<Key>, k: Key, s: nat,
                                    e: Entry)
    requires UniqueSequences(I + R) && NothingExposed(I, R, base) && snapshot <= s
    requires IsNewest(I + R, k, s, e) && e !in Kept(I, snapshot, base) + R
    ensures e.key.kind.Deletion? && Read(Kept(I, snapshot, base) + R, k, s) == None
  {
    var J := Kept(I, snapshot, base);
    assert !Hidden(I, snapshot, e);
    assert Obsolete(snapshot, base, e);
    FindIsAbsent(J + R, k, s);
    if !Find(J + R, k, s).Absent? {
      var w :| w in J + R && w.key.user == k && w.key.sequence <= s;
      var x := NewestExists(J + R, k, s, w);
      FindIs(J + R, k, s, x);
      assert x in I + R && x != e;
      assert x.key.sequence < e.key.sequence;
      assert x in I ==> Hidden(I, snapshot, x);
      assert x in R;
      assert !Exposes(I, R, base, e, x);
    }
  }

  /** An exposed value comes back for the snapshot taken right at the tombstone. */
  lemma ExposedValueComesBack(I: set<Entry>, R: set<Entry>, base: iset<Key>, t: Entry, x: Entry)
    requires I !! R && UniqueSequences(I + R) && Exposes(I, R, base, t, x)
    ensures var s := t.key.sequence;
            Read(I + R, t.key.user, s) == None && Read(Kept(I, s, base) + R, t.key.user, s) == Some(x.value)
  {
    var k, s := t.key.user, t.key.sequence;
    var J := Kept(I, s, base);
    assert IsNewest(I + R, k, s, t);
    FindIs(I + R, k, s, t);
    forall y | y in J + R && y.key.user == k && y.key.sequence <= s ensures y.key.sequence <= x.key.sequence {
      assert Obsolete(s, base, t) && t !in J;
      assert y.key.sequence == s ==> y == t;
      assert y in I && y.key.sequence < s ==> Hidden(I, s, y);
    }
    assert IsNewest(J + R, k, s, x);
    FindIs(J + R, k, s, x);
  }

  /** Whatever the oldest snapshot, a compaction keeps all reads exactly if it exposes nothing. */
  lemma KeepsReadsExactly(I: set<Entry>, R: set<Entry>, base: iset<Key>)
    requires I !! R && UniqueSequences(I + R)
    ensures (forall snapshot: nat :: KeepsReads(I, R, snapshot, base)) <==> NothingExposed(I, R, base)
  {
    if NothingExposed(I, R, base) {
      forall snapshot: nat, k, s: nat | snapshot <= s
        ensures Read(Kept(I, snapshot, base) + R, k, s) == Read(I + R, k, s)
      {
        ReadIsKept(I, R, snapshot, base, k, s);
      }
    } else {
      var t, x :| t in I && x in R && Exposes(I, R, base, t, x);
      ExposedValueComesBack(I, R, base, t, x);
      var s := t.key.sequence;
      assert Read(Kept(I, s, base) + R, t.key.user, s) != Read(I + R, t.key.user, s);
      assert !KeepsReads(I, R, s, base);
    }
  }

  /** After a compaction without snapshots at most one entry of every user key is left. */
  lemma OneEntryPerKey(I: set<Entry>, snapshot: nat, base: iset<Key>, e: Entry, x: Entry)
    requires UniqueSequences(I) && forall y :: y in I ==> y.key.sequence <= snapshot
    requires e in Kept(I, snapshot, base) && x in Kept(I, snapshot, base) && e.key.user == x.key.user
    ensures e == x
  {
    assert e.key.sequence < x.key.sequence ==> Hidden(I, snapshot, e);
    assert x.key.sequence < e.key.sequence ==> Hidden(I, snapshot, x);
  }
}
