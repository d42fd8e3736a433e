/** Recovering the logs, down to the bytes (db/db_impl.cc, Recover and RecoverLogFile): their records go into
    memtables, and every memtable that is full, and the last one of every log, becomes a level-0 table. */
module LogRecovery {
  import opened Coding
  import opened Visibility
  import opened InternalKeys
  import opened History
  import opened LogFormat
  import opened LogReader
  import opened LogRoundTrip
  import opened LogReplay
  import WriteBatches
  import V = Versions
  import Flush
  import Store

  // ---------- Tables for consecutive records ----------

  /** The records from a to b, as level-0 tables. */
  ghost predicate DumpedTo(records: seq<Record>, files: seq<V.File>, lo: nat, hi: nat) {
    Store.Dumps(records, files, lo) && lo <= hi && forall f :: f in files ==> f.number < hi
  }

  ghost predicate InRange(records: seq<Record>, first: nat) {
    Consecutive(records, first) && 0 < first && first + |Ops(records)| <= MAX_SEQUENCE + 1
  }

  lemma RecordEntriesInRange(records: seq<Record>, first: nat)
    requires InRange(records, first)
    ensures UniqueSequences(Entries(records))
    ensures forall e :: e in Entries(records) ==> first <= e.key.sequence < first + |Ops(records)|
  {
    RecordsAreOps(records, first);
    EntriesAreNumbered(Ops(records), first);
  }

  lemma PartInRange(a: seq<Record>, b: seq<Record>, first: nat)
    requires InRange(a + b, first)
    ensures InRange(a, first) && InRange(b, first + |Ops(a)|) && Ops(a + b) == Ops(a) + Ops(b)
  {
    ConsecutiveConcat(a, b, first);
    OpsOfConcat(a, b);
  }

  lemma NothingDumped(lo: nat)
    ensures DumpedTo([], [], lo, lo)
  {
  }

  /** Tables of later records follow those of earlier ones. */
  lemma DumpsAppend(a: seq<Record>, b: seq<Record>, first: nat, fs: seq<V.File>, gs: seq<V.File>, lo: nat, mid: nat,
                    hi: nat)
    requires InRange(a + b, first) && DumpedTo(a, fs, lo, mid) && DumpedTo(b, gs, mid, hi)
    ensures DumpedTo(a + b, fs + gs, lo, hi)
  {
    EntriesOfRecords(a, b);
    ContentsAppend(fs, gs);
    assert forall f :: f in fs + gs <==> f in fs || f in gs;
    NumbersAppend(fs, gs, mid);
    forall i, j, e, x | 0 <= i < j < |fs + gs| && e in (fs + gs)[i].entries && x in (fs + gs)[j].entries
      ensures e.key.sequence < x.key.sequence
    {
      LaterIsNewer(a, b, first, fs, gs, lo, mid, hi, i, j, e, x);
    }
  }

  lemma NumbersAppend(fs: seq<V.File>, gs: seq<V.File>, mid: nat)
    requires Store.IncreasingNumbers(fs) && Store.IncreasingNumbers(gs)
    requires (forall f :: f in fs ==> f.number < mid) && forall g :: g in gs ==> mid <= g.number
    ensures Store.IncreasingNumbers(fs + gs)
  {
    forall i, j | 0 <= i < j < |fs + gs| ensures (fs + gs)[i].number < (fs + gs)[j].number {
      if i < |fs| <= j {
        assert fs[i] in fs && gs[j - |fs|] in gs;
      }
    }
  }

  lemma LaterIsNewer(a: seq<Record>, b: seq<Record>, first: nat, fs: seq<V.File>, gs: seq<V.File>, lo: nat, mid: nat,
                     hi: nat,
                     i: nat, j: nat, e: Entry, x: Entry)
    requires InRange(a + b, first) && DumpedTo(a, fs, lo, mid) && DumpedTo(b, gs, mid, hi)
    requires i < j < |fs + gs| && e in (fs + gs)[i].entries && x in (fs + gs)[j].entries
    ensures e.key.sequence < x.key.sequence
  {
    if j < |fs| {
      assert e in fs[i].entries && x in fs[j].entries;
    } else if |fs| <= i {
      assert e in gs[i - |fs|].entries && x in gs[j - |fs|].entries;
    } else {
      PartInRange(a, b, first);
      RecordEntriesInRange(a, first);
      RecordEntriesInRange(b, first + |Ops(a)|);
      assert fs[i] in fs && gs[j - |fs|] in gs;
      assert e in V.Contents(fs) && x in V.Contents(gs);
    }
  }

  lemma ContentsAppend(fs: seq<V.File>, gs: seq<V.File>)
    ensures V.Contents(fs + gs) == V.Contents(fs) + V.Contents(gs)
  {
    assert forall f :: f in fs + gs <==> f in fs || f in gs;
  }

  // ---------- One log ----------

  /** WriteLevel0Table: takes the next number, also for an empty memtable, which leaves no table behind. */
  method DumpMemTable(mem: set<Entry>, number: nat, sizeOf: seq<Entry> -> nat, ghost records: seq<Record>,
                      ghost first: nat)
    returns (files: seq<V.File>)
    requires InRange(records, first) && mem == Entries(records)
    ensures DumpedTo(records, files, number, number + 1)
  {
    RecordEntriesInRange(records, first);
    var f := Flush.BuildTable(mem, number, sizeOf);
    if f.None? {
      files := [];
    } else {
      files := [f.value];
      assert f.value in files;
    }
  }

  /** The loop's state: the records up to d are in tables, those from d to n in the memtable, if there is one. */
  ghost predicate Recovering(records: seq<Record>, d: nat, n: nat, mem: Option<set<Entry>>, files: seq<V.File>,
                             lo: nat, number: nat) {
    && d <= n <= |records|
    && DumpedTo(records[..d], files, lo, number)
    && (if mem.Some? then mem.value == Entries(records[d..n]) else d == n)
  }

  lemma NothingRecovered(records: seq<Record>, lo: nat)
    ensures Recovering(records, 0, 0, None, [], lo, lo)
  {
    NothingDumped(lo);
    assert records[..0] == [];
  }

  lemma AllRecovered(records: seq<Record>, d: nat, files: seq<V.File>, lo: nat, number: nat)
    requires Recovering(records, d, |records|, None, files, lo, number)
    ensures DumpedTo(records, files, lo, number) && records[..|records|] == records
  {
    assert records[..|records|] == records;
  }

  lemma OneMoreInMemory(records: seq<Record>, d: nat, n: nat, mem: Option<set<Entry>>, mem': set<Entry>,
                        files: seq<V.File>, lo: nat, number: nat)
    requires Recovering(records, d, n, mem, files, lo, number) && n < |records|
    requires mem' == (if mem.Some? then mem.value else {}) + RecordEntries(records[n])
    ensures Recovering(records, d, n + 1, Some(mem'), files, lo, number)
  {
    assert records[d..n + 1] == records[d..n] + [records[n]];
    assert [records[n]][..0] == [] && Entries([records[n]]) == RecordEntries(records[n]);
    EntriesOfRecords(records[d..n], [records[n]]);
    assert d == n ==> records[d..n] == [];
  }

  lemma CutTwice(records: seq<Record>, d: nat, n: nat)
    requires d <= n <= |records|
    ensures records == (records[..d] + records[d..n]) + records[n..] && records[..n] == records[..d] + records[d..n]
  {
  }

  method DumpRecovered(ghost records: seq<Record>, ghost first: nat, ghost d: nat, ghost n: nat, mem: set<Entry>,
                       files: seq<V.File>, ghost lo: nat, number: nat, sizeOf: seq<Entry> -> nat)
                         returns (files': seq<V.File>)
    requires InRange(records, first) && Recovering(records, d, n, Some(mem), files, lo, number)
    ensures Recovering(records, n, n, None, files', lo, number + 1)
  {
    ghost var a, b, c := records[..d], records[d..n], records[n..];
    CutTwice(records, d, n);
    PartInRange(a + b, c, first);
    PartInRange(a, b, first);
    var more := DumpMemTable(mem, number, sizeOf, b, first + |Ops(a)|);
    DumpsAppend(a, b, first, files, more, lo, number, number + 1);
    files' := files + more;
  }

  /** The first bytes of a log of these groups. */
  ghost predicate LogHolds(crc: Checksum, file: Bytes, groups: seq<Group>) {
    && (forall g :: g in groups ==> Loggable(g))
    && var all := EncodeAll(Records(crc), Reps(groups), 0);
       |file| <= |all| && file == all[..|file|]
  }

  /** The groups whose record is complete. */
  ghost function Recovered(crc: Checksum, file: Bytes, groups: seq<Group>): seq<Record>
    requires forall g :: g in groups ==> Loggable(g)
  {
    var n := Complete(Records(crc), Reps(groups), 0, |file|);
    if n <= |groups| then ToRecords(groups[..n]) else []
  }

  /** Replays a log of which only the first bytes reached the disk: exactly the groups whose record is complete are in
      the new tables afterwards, whenever a memtable counts as full, and maxSequence bounds their sequence numbers.
      (The source reads and replays its records in turns.) */
  method RecoverLogFile(crc: Checksum, file: Bytes, ghost groups: seq<Group>, ghost first: nat, max: int, lo: nat,
                        full: set<Entry> -> bool, sizeOf: seq<Entry> -> nat)
    returns (files: seq<V.File>, maxSequence: int, number: nat, reports: nat)
    requires LogHolds(crc, file, groups) && InRange(Recovered(crc, file, groups), first)
    ensures DumpedTo(Recovered(crc, file, groups), files, lo, number)
    ensures var n := Complete(Records(crc), Reps(groups), 0, |file|);
            n <= |groups| && V.Contents(files) == GroupEntries(groups[..n])
    ensures maxSequence == MaxSequence(Recovered(crc, file, groups), max) && reports == 0
  {
    var read;
    read, reports := ReadLog(crc, file, Reps(groups));
    ghost var n, records := |read|, Recovered(crc, file, groups);
    CompleteIsRead(crc, file, groups, read);
    files, maxSequence, number := Replay(read, groups, records, first, max, lo, full, sizeOf);
    GroupsAreRecords(groups[..n]);
  }

  lemma CompleteIsRead(crc: Checksum, file: Bytes, groups: seq<Group>, read: seq<Bytes>)
    requires LogHolds(crc, file, groups) && Complete(Records(crc), Reps(groups), 0, |file|) <= |groups|
    requires read == Reps(groups)[..Complete(Records(crc), Reps(groups), 0, |file|)]
    ensures RecordsOf(Recovered(crc, file, groups), groups, |read|) && AreReps(read, groups)
    ensures Recovered(crc, file, groups) == ToRecords(groups[..|read|])
  {
  }

  ghost predicate RecordsOf(records: seq<Record>, groups: seq<Group>, n: nat) {
    |records| == n <= |groups| && forall i :: 0 <= i < n ==> records[i] == ToRecord(groups[i])
  }

  /** The records read are those of the first groups. */
  ghost predicate AreReps(read: seq<Bytes>, groups: seq<Group>) {
    |read| <= |groups| && forall i :: 0 <= i < |read| ==> Loggable(groups[i]) && read[i] == Rep(groups[i])
  }

  lemma MaxOfNone(records: seq<Record>, start: int)
    ensures MaxSequence(records[..0], start) == start
  {
  }

  lemma MaxOfOneMore(records: seq<Record>, n: nat, start: int)
    requires n < |records|
    ensures var r, max := records[n], MaxSequence(records[..n], start);
            MaxSequence(records[..n + 1], start) == if r.first + |r.ops| - 1 > max then r.first + |r.ops| - 1 else max
  {
    assert records[..n + 1][..n] == records[..n];
  }

  /** The loop of RecoverLogFile, over the records of the log. */
  method Replay(read: seq<Bytes>, ghost groups: seq<Group>, ghost records: seq<Record>, ghost first: nat, max: int,
                lo: nat,
                full: set<Entry> -> bool, sizeOf: seq<Entry> -> nat)
    returns (files: seq<V.File>, maxSequence: int, number: nat)
    requires AreReps(read, groups) && RecordsOf(records, groups, |read|) && InRange(records, first)
    ensures DumpedTo(records, files, lo, number)
    ensures maxSequence == MaxSequence(records, max)
  {
    hide MaxSequence, Recovering, DumpedTo, InRange, EntriesFrom;
    ghost var d: nat := 0;
    NothingRecovered(records, lo);
    MaxOfNone(records, max);
    var mem: Option<set<Entry>> := None;
    files, maxSequence, number := [], max, lo;
    for n := 0 to |read|
      invariant Recovering(records, d, n, mem, files, lo, number) && maxSequence == MaxSequence(records[..n], max)
    {
      MaxOfOneMore(records, n, max);
      var more, status;
      more, maxSequence, status := ReplayRecord(read[n], if mem.Some? then mem.value else {}, maxSequence);
      WriteBatches.UpdatesAreOps(groups[n].updates, groups[n].sequence);
      mem, files, number, d := Collect(records, first, d, n, mem, more, files, lo, number, full, sizeOf);
    }
    if mem.Some? {
      files := DumpRecovered(records, first, d, |read|, mem.value, files, lo, number, sizeOf);
      number, d := number + 1, |read|;
    }
    AllRecovered(records, d, files, lo, number);
  }

  /** One more record is in the memtable, which becomes a table if it is full now. */
  method Collect(ghost records: seq<Record>, ghost first: nat, ghost d: nat, ghost n: nat,
                 ghost mem: Option<set<Entry>>,
                 more: set<Entry>, files: seq<V.File>, ghost lo: nat, number: nat,
                 full: set<Entry> -> bool, sizeOf: seq<Entry> -> nat)
    returns (mem': Option<set<Entry>>, files': seq<V.File>, number': nat, ghost d': nat)
    requires InRange(records, first) && Recovering(records, d, n, mem, files, lo, number) && n < |records|
    requires more == (if mem.Some? then mem.value else {}) + RecordEntries(records[n])
    ensures Recovering(records, d', n + 1, mem', files', lo, number')
  {
    OneMoreInMemory(records, d, n, mem, more, files, lo, number);
    mem', files', number', d' := Some(more), files, number, d;
    if full(more) {
      files' := DumpRecovered(records, first, d, n + 1, more, files, lo, number, sizeOf);
      mem', number', d' := None, number + 1, n + 1;
    }
  }

  // ---------- All logs ----------

  datatype LogFile = LogFile(number: nat, bytes: Bytes)

  /** The log holds groups of which these records are recovered. */
  ghost predicate Yields(crc: Checksum, log: LogFile, records: seq<Record>) {
    exists groups :: LogHolds(crc, log.bytes, groups) && records == Recovered(crc, log.bytes, groups)
  }

  function Joined(parts: seq<seq<Record>>): seq<Record> {
    if parts == [] then [] else Joined(parts[..|parts| - 1]) + parts[|parts| - 1]
  }

  lemma OneMorePart(parts: seq<seq<Record>>, i: nat)
    requires i < |parts|
    ensures Joined(parts[..i + 1]) == Joined(parts[..i]) + parts[i]
  {
    assert parts[..i + 1][..i] == parts[..i];
  }

  lemma {:induction false} FirstPartsInRange(parts: seq<seq<Record>>, i: nat, first: nat)
    requires i <= |parts| && InRange(Joined(parts), first)
    ensures InRange(Joined(parts[..i]), first)
    decreases |parts|
  {
    if i == |parts| {
      assert parts[..i] == parts;
    } else {
      var n := |parts| - 1;
      PartInRange(Joined(parts[..n]), parts[n], first);
      FirstPartsInRange(parts[..n], i, first);
      assert parts[..n][..i] == parts[..i];
    }
  }

  lemma NextPart(parts: seq<seq<Record>>, i: nat, done: seq<Record>, first: nat)
    requires i < |parts| && InRange(Joined(parts), first) && done == Joined(parts[..i])
    ensures Joined(parts[..i + 1]) == done + parts[i] && InRange(done + parts[i], first)
  {
    OneMorePart(parts, i);
    FirstPartsInRange(parts, i + 1, first);
  }

  lemma {:induction false} MoreIsMax(done: seq<Record>, more: seq<Record>)
    ensures MaxSequence(more, MaxSequence(done, 0)) == MaxSequence(done + more, 0)
  {
    var all := done + more;
    if more == [] {
      assert all == done;
    } else {
      assert all[..|all| - 1] == done + more[..|more| - 1];
      MoreIsMax(done, more[..|more| - 1]);
    }
  }

  /** Yields as a function value. */
  type YieldTest = (LogFile, seq<Record>) -> bool

  ghost predicate Tests(holds: YieldTest, crc: Checksum) {
    forall log, records {:trigger Yields(crc, log, records)} :: holds(log, records) <==> Yields(crc, log, records)
  }

  method RecoverLog(crc: Checksum, log: LogFile, ghost holds: YieldTest, ghost more: seq<Record>, ghost first: nat,
                    max: int, lo: nat, full: set<Entry> -> bool, sizeOf: seq<Entry> -> nat)
    returns (files: seq<V.File>, maxSequence: int, number: nat)
    requires Tests(holds, crc) && holds(log, more) && InRange(more, first)
    ensures DumpedTo(more, files, lo, number) && maxSequence == MaxSequence(more, max)
  {
    assert Yields(crc, log, more);
    ghost var groups :| LogHolds(crc, log.bytes, groups) && more == Recovered(crc, log.bytes, groups);
    var reports;
    files, maxSequence, number, reports := RecoverLogFile(crc, log.bytes, groups, first, max, lo, full, sizeOf);
  }

  lemma NumbersLater(records: seq<Record>, files: seq<V.File>, lo: nat, hi: nat, hi': nat)
    requires DumpedTo(records, files, lo, hi) && hi <= hi'
    ensures DumpedTo(records, files, lo, hi')
  {
  }

  method RecoverNext(crc: Checksum, log: LogFile, ghost holds: YieldTest, ghost more: seq<Record>,
                     ghost done: seq<Record>, ghost first: nat, files: seq<V.File>, ghost lo: nat, number: nat,
                     max: int,
                     full: set<Entry> -> bool, sizeOf: seq<Entry> -> nat)
    returns (files': seq<V.File>, maxSequence: int, number': nat)
    requires Tests(holds, crc) && holds(log, more) && InRange(done + more, first)
    requires DumpedTo(done, files, lo, number) && max == MaxSequence(done, 0)
    ensures DumpedTo(done + more, files', lo, number') && maxSequence == MaxSequence(done + more, 0)
    ensures number <= number' && log.number < number'
  {
    PartInRange(done, more, first);
    var fs, next;
    fs, maxSequence, next := RecoverLog(crc, log, holds, more, first + |Ops(done)|, max, number, full, sizeOf);
    MoreIsMax(done, more);
    DumpsAppend(done, more, first, files, fs, lo, number, next);
    files' := files + fs;
    number' := if next <= log.number then log.number + 1 else next;
    NumbersLater(done + more, files', lo, next, number');
  }

  /** DBImpl::Recover: the logs are replayed in the order of their numbers, and no number of theirs is given out
      again. */
  method RecoverLogs(crc: Checksum, logs: seq<LogFile>, ghost parts: seq<seq<Record>>, ghost first: nat, lo: nat,
                     full: set<Entry> -> bool, sizeOf: seq<Entry> -> nat)
    returns (files: seq<V.File>, maxSequence: int, number: nat)
    requires |parts| == |logs| && forall i :: 0 <= i < |logs| ==> Yields(crc, logs[i], parts[i])
    requires InRange(Joined(parts), first)
    ensures DumpedTo(Joined(parts), files, lo, number) && maxSequence == MaxSequence(Joined(parts), 0)
    ensures forall i :: 0 <= i < |logs| ==> logs[i].number < number
  {
    ghost var holds: YieldTest := (log, records) => Yields(crc, log, records);
    files, maxSequence, number := RecoverInOrder(crc, logs, holds, parts, first, lo, full, sizeOf);
  }

  method RecoverInOrder(crc: Checksum, logs: seq<LogFile>, ghost holds: YieldTest, ghost parts: seq<seq<Record>>,
                        ghost first: nat, lo: nat, full: set<Entry> -> bool, sizeOf: seq<Entry> -> nat)
    returns (files: seq<V.File>, maxSequence: int, number: nat)
    requires Tests(holds, crc) && |parts| == |logs| && forall i :: 0 <= i < |logs| ==> holds(logs[i], parts[i])
    requires InRange(Joined(parts), first)
    ensures DumpedTo(Joined(parts), files, lo, number) && maxSequence == MaxSequence(Joined(parts), 0)
    ensures forall i :: 0 <= i < |logs| ==> logs[i].number < number
  {
    hide InRange, DumpedTo, Tests, MaxSequence;
    NothingDumped(lo);
    files, maxSequence, number := [], 0, lo;
    ghost var done: seq<Record> := [];
    MaxOfNone(done, 0);
    assert done[..0] == done;
    for i := 0 to |logs|
      invariant done == Joined(parts[..i])
      invariant DumpedTo(done, files, lo, number) && maxSequence == MaxSequence(done, 0)
      invariant forall j :: 0 <= j < i ==> logs[j].number < number
    {
      NextPart(parts, i, done, first);
      files, maxSequence, number := RecoverNext(crc, logs[i], holds, parts[i], done, first, files, lo, number,
                                                maxSequence, full, sizeOf);
      done := done + parts[i];
    }
    assert parts[..|logs|] == parts;
  }
}
