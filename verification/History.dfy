/** What was written: operations in sequence-number order, grouped into log records
    (db/write_batch.cc), and the map a reader should see. */
module History {
  import opened InternalKeys
  import opened Visibility
  import Coding

  datatype Op = Op(kind: Kind, key: Key, value: Value)

  /** One log record: a write batch with the sequence number of its first operation. */
  datatype Record = Record(first: nat, ops: seq<Op>)

  /** MemTableInserter: a deletion is stored with an empty value. */
  function OpEntry(op: Op, sequence: nat): Entry {
    Entry(IKey(op.key, sequence, op.kind), if op.kind.Put? then op.value else [])
  }

  /** The entries of operations numbered from `first`. */
  ghost function EntriesFrom(ops: seq<Op>, first: nat): set<Entry> {
    set i | 0 <= i < |ops| :: OpEntry(ops[i], first + i)
  }

  ghost function RecordEntries(r: Record): set<Entry> {
    EntriesFrom(r.ops, r.first)
  }

  ghost function Entries(rs: seq<Record>): set<Entry> {
    if rs == [] then {} else Entries(rs[..|rs| - 1]) + RecordEntries(rs[|rs| - 1])
  }

  function Ops(rs: seq<Record>): seq<Op> {
    if rs == [] then [] else Ops(rs[..|rs| - 1]) + rs[|rs| - 1].ops
  }

  /** Records that number their operations consecutively from `first`. */
  ghost predicate Consecutive(rs: seq<Record>, first: nat) {
    rs == [] || (Consecutive(rs[..|rs| - 1], first) && rs[|rs| - 1].first == first + |Ops(rs[..|rs| - 1])|)
  }

  /** The largest sequence number among start and those of the records. */
  function MaxSequence(rs: seq<Record>, start: int): (max: int)
    ensures max >= start
  {
    if rs == [] then start
    else
      var r, max := rs[|rs| - 1], MaxSequence(rs[..|rs| - 1], start);
      if r.first + |r.ops| - 1 > max then r.first + |r.ops| - 1 else max
  }

  /** For records numbered one after the other, it is the number of the last operation. */
  lemma {:induction false} MaxSequenceIsLast(rs: seq<Record>, start: int, first: nat)
    requires Consecutive(rs, first) && start < first && (start == first - 1 || rs != [])
    ensures MaxSequence(rs, start) == first - 1 + |Ops(rs)|
  {
    var n := |rs| - 1;
    if n > 0 || (n == 0 && start == first - 1) {
      MaxSequenceIsLast(rs[..n], start, first);
    }
  }

  // ---------- Entries of consecutive operations ----------

  lemma EntriesOfConcat(a: seq<Op>, b: seq<Op>, first: nat)
    ensures EntriesFrom(a + b, first) == EntriesFrom(a, first) + EntriesFrom(b, first + |a|)
  {
    var ab := a + b;
    assert forall i :: 0 <= i < |a| ==> ab[i] == a[i];
    assert forall i :: 0 <= i < |b| ==> ab[|a| + i] == b[i];
    forall e | e in EntriesFrom(b, first + |a|) ensures e in EntriesFrom(ab, first) {
      var i :| 0 <= i < |b| && e == OpEntry(b[i], first + |a| + i);
      assert e == OpEntry(ab[|a| + i], first + (|a| + i));
    }
    forall e | e in EntriesFrom(ab, first) ensures e in EntriesFrom(a, first) + EntriesFrom(b, first + |a|) {
      var i :| 0 <= i < |ab| && e == OpEntry(ab[i], first + i);
      if i >= |a| {
        assert e == OpEntry(b[i - |a|], first + |a| + (i - |a|));
      }
    }
  }

  lemma EntriesAreNumbered(ops: seq<Op>, first: nat)
    ensures forall e :: e in EntriesFrom(ops, first) ==> first <= e.key.sequence < first + |ops|
    ensures UniqueSequences(EntriesFrom(ops, first))
  {
  }

  lemma {:induction false} RecordsAreOps(rs: seq<Record>, first: nat)
    requires Consecutive(rs, first)
    ensures Entries(rs) == EntriesFrom(Ops(rs), first)
  {
    if rs != [] {
      RecordsAreOps(rs[..|rs| - 1], first);
      EntriesOfConcat(Ops(rs[..|rs| - 1]), rs[|rs| - 1].ops, first);
    }
  }

  lemma LastOfConcat<T>(a: seq<T>, b: seq<T>)
    requires b != []
    ensures var ab := a + b;
            ab[..|ab| - 1] == a + b[..|b| - 1] && ab[|ab| - 1] == b[|b| - 1]
  {
  }

  lemma {:induction false} OpsOfConcat(a: seq<Record>, b: seq<Record>)
    ensures Ops(a + b) == Ops(a) + Ops(b)
  {
    if b == [] {
      assert a + b == a;
    } else {
      LastOfConcat(a, b);
      OpsOfConcat(a, b[..|b| - 1]);
      Coding.Associate(Ops(a), Ops(b[..|b| - 1]), b[|b| - 1].ops);
    }
  }

  lemma {:induction false} EntriesOfRecords(a: seq<Record>, b: seq<Record>)
    ensures Entries(a + b) == Entries(a) + Entries(b)
  {
    if b == [] {
      assert a + b == a;
    } else {
      EntriesOfRecords(a, b[..|b| - 1]);
      assert (a + b)[..|a + b| - 1] == a + b[..|b| - 1];
    }
  }

  lemma {:induction false} ConsecutiveConcat(a: seq<Record>, b: seq<Record>, first: nat)
    ensures Consecutive(a + b, first) <==> Consecutive(a, first) && Consecutive(b, first + |Ops(a)|)
  {
    if b == [] {
      assert a + b == a;
    } else {
      ConsecutiveConcat(a, b[..|b| - 1], first);
      OpsOfConcat(a, b[..|b| - 1]);
      assert (a + b)[..|a + b| - 1] == a + b[..|b| - 1];
    }
  }

  // ---------- The map ----------

  function Apply(m: map<Key, Value>, op: Op): map<Key, Value> {
    if op.kind.Put? then m[op.key := op.value] else m - {op.key}
  }

  /** The map after the operations, in order, on an empty store. */
  function MapOf(ops: seq<Op>): map<Key, Value> {
    if ops == [] then map[] else Apply(MapOf(ops[..|ops| - 1]), ops[|ops| - 1])
  }

  function ValueAt(m: map<Key, Value>, k: Key): Option<Value> {
    if k in m then Some(m[k]) else None
  }

  /** Reading all entries at a sequence number gives the map after that many operations. */
  lemma {:induction false} ReadIsMap(ops: seq<Op>, k: Key, s: nat)
    requires s <= |ops|
    ensures Read(EntriesFrom(ops, 1), k, s) == ValueAt(MapOf(ops[..s]), k)
    decreases |ops|, s
  {
    var S := EntriesFrom(ops, 1);
    EntriesAreNumbered(ops, 1);
    if s == 0 {
      FindIsAbsent(S, k, 0);
    } else {
      var op := ops[s - 1];
      var e := OpEntry(op, 1 + (s - 1));
      assert e in S;
      assert ops[..s][..s - 1] == ops[..s - 1];
      if op.key == k {
        assert IsNewest(S, k, s, e);
        FindIs(S, k, s, e);
      } else {
        ReadIsMap(ops, k, s - 1);
        SkipOtherKey(S, k, s, e);
      }
    }
  }

  /** The entry numbered s belongs to another key, so it makes no difference to this one. */
  lemma SkipOtherKey(S: set<Entry>, k: Key, s: nat, e: Entry)
    requires UniqueSequences(S) && s > 0 && e in S && e.key.sequence == s && e.key.user != k
    requires forall x :: x in S && x.key.sequence == s ==> x == e
    ensures Read(S, k, s) == Read(S, k, s - 1)
  {
    FindIsAbsent(S, k, s);
    FindIsAbsent(S, k, s - 1);
    if x :| x in S && x.key.user == k && x.key.sequence <= s - 1 {
      var n := NewestExists(S, k, s - 1, x);
      assert IsNewest(S, k, s, n);
      FindIs(S, k, s - 1, n);
      FindIs(S, k, s, n);
    }
  }
}
