/** What a read at a sequence number must return: the reference definition that the memtables,
    the tables, the compactions and the recovery are all measured against. */
module Visibility {
  import opened InternalKeys

  datatype Option<+T> = None | Some(value: T)

  /** Absent: no visible entry. Deleted: the newest visible entry is a tombstone. */
  datatype Lookup = Absent | Deleted | Found(value: Value)

  /** e is the newest entry of user key k in S with a sequence number <= s. */
  ghost predicate IsNewest(S: set<Entry>, k: Key, s: nat, e: Entry) {
    && e in S && e.key.user == k && e.key.sequence <= s
    && forall x :: x in S && x.key.user == k && x.key.sequence <= s ==> x.key.sequence <= e.key.sequence
  }

  /** No two entries of one user key carry the same sequence number. */
  ghost predicate UniqueSequences(S: set<Entry>) {
    forall x, y :: x in S && y in S && x.key.user == y.key.user && x.key.sequence == y.key.sequence ==> x == y
  }

  function Outcome(e: Entry): Lookup {
    match e.key.kind case Put => Found(e.value) case Deletion => Deleted
  }

  /** The newest visible entry, reduced to what a caller learns from it. */
  ghost function Find(S: set<Entry>, k: Key, s: nat): Lookup {
    if exists e :: IsNewest(S, k, s, e) then
      var e :| IsNewest(S, k, s, e);
      Outcome(e)
    else
      Absent
  }

  function Present(r: Lookup): Option<Value> {
    if r.Found? then Some(r.value) else None
  }

  /** What the user sees: deleted and absent keys look the same. */
  ghost function Read(S: set<Entry>, k: Key, s: nat): Option<Value> {
    Present(Find(S, k, s))
  }

  lemma FindIs(S: set<Entry>, k: Key, s: nat, e: Entry)
    requires UniqueSequences(S) && IsNewest(S, k, s, e)
    ensures Find(S, k, s) == Outcome(e)
  {
    forall x | IsNewest(S, k, s, x) ensures x == e {
      assert x in S && e in S;
      assert x.key.sequence == e.key.sequence;
    }
  }

  /** A key with some visible entry has a newest visible entry. */
  lemma NewestExists(S: set<Entry>, k: Key, s: nat, witnessed: Entry) returns (e: Entry)
    requires witnessed in S && witnessed.key.user == k && witnessed.key.sequence <= s
    ensures IsNewest(S, k, s, e) && e.key.sequence >= witnessed.key.sequence
    decreases s - witnessed.key.sequence
  {
    if x :| x in S && x.key.user == k && witnessed.key.sequence < x.key.sequence <= s {
      e := NewestExists(S, k, s, x);
    } else {
      e := witnessed;
    }
  }

  /** Nothing is found exactly if no entry of the key is visible. */
  lemma FindIsAbsent(S: set<Entry>, k: Key, s: nat)
    ensures Find(S, k, s).Absent? <==> forall x :: x in S && x.key.user == k ==> x.key.sequence > s
  {
    if x :| x in S && x.key.user == k && x.key.sequence <= s {
      var e := NewestExists(S, k, s, x);
    }
  }

  /** A set all of whose entries of a key are newer than those of another set decides
      every lookup in which it has something to show. */
  lemma FindNewerFirst(New: set<Entry>, Old: set<Entry>, k: Key, s: nat)
    requires UniqueSequences(New + Old)
    requires forall e, x :: e in New && x in Old && e.key.user == x.key.user == k ==> e.key.sequence > x.key.sequence
    ensures Find(New + Old, k, s) == if Find(New, k, s).Absent? then Find(Old, k, s) else Find(New, k, s)
  {
    FindIsAbsent(New, k, s);
    FindIsAbsent(New + Old, k, s);
    FindIsAbsent(Old, k, s);
    if !Find(New, k, s).Absent? {
      var e :| e in New && e.key.user == k && e.key.sequence <= s;
      var n := NewestExists(New, k, s, e);
      assert IsNewest(New + Old, k, s, n);
      FindIs(New, k, s, n);
      FindIs(New + Old, k, s, n);
    } else if !Find(Old, k, s).Absent? {
      var e :| e in Old && e.key.user == k && e.key.sequence <= s;
      var n := NewestExists(Old, k, s, e);
      assert IsNewest(New + Old, k, s, n);
      FindIs(Old, k, s, n);
      FindIs(New + Old, k, s, n);
    }
  }
}
