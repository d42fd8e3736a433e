/** What the records of a log stand for, and what one of them does to a memtable (db/db_impl.cc, RecoverLogFile). */
module LogReplay {
  import opened Bytewise
  import opened Coding
  import opened Visibility
  import opened InternalKeys
  import opened History
  import opened WriteBatches

  /** A write group as it is logged. */
  datatype Group = Group(sequence: nat, updates: seq<Update>)

  predicate Loggable(g: Group) {
    g.sequence < TWO64 && Fits(g.updates) && |g.updates| < TWO32
  }

  function Rep(g: Group): Bytes
    requires Loggable(g)
  {
    Batch(g.sequence, g.updates)
  }

  function Reps(gs: seq<Group>): (rs: seq<Bytes>)
    requires forall g :: g in gs ==> Loggable(g)
    ensures |rs| == |gs|
  {
    seq(|gs|, i requires 0 <= i < |gs| => Rep(gs[i]))
  }

  /** The groups as records of the store's history. */
  function ToRecord(g: Group): Record {
    Record(g.sequence, ToOps(g.updates))
  }

  function ToRecords(gs: seq<Group>): (rs: seq<Record>)
    ensures |rs| == |gs|
  {
    seq(|gs|, i requires 0 <= i < |gs| => ToRecord(gs[i]))
  }

  /** Puts one log record into the memtable; one that is too small to be a batch is reported and skipped. Any other
      bytes add an entry for every update in front of the first malformed one, and raise the largest sequence number
      if all is well with them. */
  method ReplayRecord(record: Bytes, mem: set<Entry>, maxSequence: int)
    returns (mem': set<Entry>, maxSequence': int, status: Status)
    ensures |record| < HEADER ==> mem' == mem && maxSequence' == maxSequence && status == Ok
    ensures |record| >= HEADER ==>
              && status == Parse(record).status
              && mem' == mem + UpdateEntries(Parse(record).updates, DecodeFixed64(record))
              && maxSequence' == var last := DecodeFixed64(record) + |Parse(record).updates| - 1;
                 if status == Ok && last > maxSequence then last else maxSequence
    ensures forall g :: Loggable(g) && record == Rep(g) ==>
              && status == Ok && mem' == mem + UpdateEntries(g.updates, g.sequence)
              && maxSequence' == var last := g.sequence + |g.updates| - 1;
                 if last > maxSequence then last else maxSequence
  {
    mem', maxSequence', status := mem, maxSequence, Ok;
    forall g | Loggable(g) && record == Rep(g) ensures Replays(record, g) {
      RecordIsGroup(record, g);
    }
    if |record| < HEADER {
      return;
    }
    mem', status := InsertInto(record, mem);
    if status == Ok {
      var last := DecodeFixed64(record) + DecodeFixed32(record[8..]) - 1;
      if last > maxSequence {
        maxSequence' := last;
      }
    }
  }

  predicate Replays(record: Bytes, g: Group) {
    && |record| >= HEADER && Parse(record) == Told(g.updates, Ok)
    && DecodeFixed64(record) == g.sequence && DecodeFixed32(record[8..]) == |g.updates|
  }

  lemma RecordIsGroup(record: Bytes, g: Group)
    requires Loggable(g) && record == Rep(g)
    ensures Replays(record, g)
  {
    BatchParts(g.sequence, g.updates);
    BatchRoundTrip(g.sequence, g.updates);
  }

  // ---------- What a reader finds in recovered groups ----------

  /** The entries of groups, each numbered from its own sequence number on. */
  ghost function GroupEntries(gs: seq<Group>): set<Entry> {
    set n, e | 0 <= n < |gs| && e in UpdateEntries(gs[n].updates, gs[n].sequence) :: e
  }

  lemma {:induction false} GroupsAreRecords(gs: seq<Group>)
    ensures GroupEntries(gs) == Entries(ToRecords(gs))
  {
    if gs != [] {
      var n := |gs| - 1;
      assert ToRecords(gs)[..n] == ToRecords(gs[..n]);
      GroupsAreRecords(gs[..n]);
      UpdatesAreOps(gs[n].updates, gs[n].sequence);
      forall e ensures e in GroupEntries(gs) <==>
                         e in GroupEntries(gs[..n]) || e in UpdateEntries(gs[n].updates, gs[n].sequence)
      {
        if i :| 0 <= i < |gs| && e in UpdateEntries(gs[i].updates, gs[i].sequence) {
          assert i < n ==> gs[..n][i] == gs[i];
        }
        if i :| 0 <= i < n && e in UpdateEntries(gs[..n][i].updates, gs[..n][i].sequence) {
          assert gs[..n][i] == gs[i];
        }
      }
    }
  }

  /** All updates, in the order in which they were written. */
  function Updates(gs: seq<Group>): seq<Update> {
    if gs == [] then [] else Updates(gs[..|gs| - 1]) + gs[|gs| - 1].updates
  }

  lemma {:induction false} UpdatesAreTheirOps(gs: seq<Group>)
    ensures Ops(ToRecords(gs)) == ToOps(Updates(gs))
  {
    if gs != [] {
      var n := |gs| - 1;
      assert ToRecords(gs)[..n] == ToRecords(gs[..n]);
      UpdatesAreTheirOps(gs[..n]);
    }
  }

  /** A store that lost everything but its first log holds the entries of the recovered groups after the replay. Its
      reads are those of the map after their operations, and a reader of a key, byte for byte, finds the value of the
      last update of that key in all the groups, or nothing if that is a removal. */
  lemma RecoveredIsMap(gs: seq<Group>, key: Bytes)
    requires Consecutive(ToRecords(gs), 1)
    ensures var ops := Ops(ToRecords(gs));
            && MaxSequence(ToRecords(gs), 0) == |ops| == |Updates(gs)|
            && GroupEntries(gs) == UpdateEntries(Updates(gs), 1)
            && Read(GroupEntries(gs), Rank(key), |ops|) == ValueAt(MapOf(ops), Rank(key))
            && FindsLast(Updates(gs), 1, key, |ops|, Read(GroupEntries(gs), Rank(key), |ops|))
  {
    var ops := Ops(ToRecords(gs));
    MaxSequenceIsLast(ToRecords(gs), 0, 1);
    RecordsAreOps(ToRecords(gs), 1);
    GroupsAreRecords(gs);
    UpdatesAreTheirOps(gs);
    UpdatesAreOps(Updates(gs), 1);
    LastUpdateDecides(Updates(gs), 1, key, |ops|);
    ReadIsMap(ops, Rank(key), |ops|);
    assert ops[..|ops|] == ops;
  }
}
