/** Group commit (db/db_impl.cc, Write), one group at a time: writers queue up, the one in front writes a group of
    batches for itself and those behind it, while others arrive and readers take snapshots. That the threads of the
    source behave like this is proved in module WriterThreads. */
module GroupCommit {
  import opened InternalKeys
  import opened Visibility
  import opened History
  import opened WriteQueue
  import Coding

  // ---------- Steps ----------

  /** What the writer in front is doing for the first n writers of the queue. */
  datatype Group = Group(n: nat, ops: seq<Op>, logged: bool, inserted: nat)

  /** `arrived`, `answered` and `ends` record what happened: all writers in the order in which they queued up,
      how many of them have returned, and how many the log covers up to the end of each record. */
  datatype State = State(
    queue: seq<Writer>, group: Option<Group>,
    log: seq<Record>, synced: nat,
    mem: set<Entry>, lastSequence: nat, snapshots: set<nat>,
    arrived: seq<Writer>, answered: nat, ends: seq<nat>)

  function Start(): State {
    State([], None, [], 0, {}, 0, {}, [], 0, [])
  }

  datatype Step =
    | ArriveStep(w: Writer)
    | AnswerEmptyStep
    | StartGroupStep(n: nat)
    | AddRecordStep
    | SyncStep
    | InsertOneStep
    | FinishStep
    | GetSnapshotStep
    | StutterStep

  ghost predicate Arrive(s: State, s': State, w: Writer) {
    s' == s.(queue := s.queue + [w], arrived := s.arrived + [w])
  }

  /** A writer without a batch gets no group. */
  ghost predicate AnswerEmpty(s: State, s': State) {
    && s.group.None? && s.queue != [] && s.queue[0].batch.None?
    && s' == s.(queue := s.queue[1..], answered := s.answered + 1)
  }

  ghost predicate StartGroup(s: State, s': State, n: nat) {
    && s.group.None? && s.queue != [] && s.queue[0].batch.Some? && IsGroup(s.queue, n)
    && s' == s.(group := Some(Group(n, OpsOf(s.queue[..n]), false, 0)))
  }

  ghost predicate AddRecord(s: State, s': State) {
    && s.group.Some? && !s.group.value.logged
    && s' == s.(log := s.log + [Record(s.lastSequence + 1, s.group.value.ops)],
                ends := s.ends + [s.answered + s.group.value.n],
                group := Some(s.group.value.(logged := true)))
  }

  ghost predicate Sync(s: State, s': State) {
    && s.group.Some? && s.group.value.logged && s.queue != [] && s.queue[0].sync
    && s' == s.(synced := |s.log|)
  }

  /** The leader has logged the group, and synced the log if it was asked to. */
  ghost predicate LogDone(s: State) {
    s.group.Some? && s.group.value.logged && s.queue != [] && (s.queue[0].sync ==> s.synced == |s.log|)
  }

  /** One operation of the group goes into the memtable. */
  ghost predicate InsertOne(s: State, s': State) {
    && LogDone(s)
    && var g := s.group.value;
       && g.inserted < |g.ops|
       && s' == s.(mem := s.mem + {OpEntry(g.ops[g.inserted], s.lastSequence + 1 + g.inserted)},
                   group := Some(g.(inserted := g.inserted + 1)))
  }

  /** The last sequence number rises, and the whole group returns. */
  ghost predicate Finish(s: State, s': State) {
    && LogDone(s)
    && var g := s.group.value;
       && g.inserted == |g.ops| && g.n <= |s.queue|
       && s' == s.(lastSequence := s.lastSequence + |g.ops|, queue := s.queue[g.n..],
                   answered := s.answered + g.n, group := None)
  }

  ghost predicate GetSnapshot(s: State, s': State) {
    s' == s.(snapshots := s.snapshots + {s.lastSequence})
  }

  ghost predicate Next(s: State, s': State, step: Step) {
    match step
    case ArriveStep(w) => Arrive(s, s', w)
    case AnswerEmptyStep => AnswerEmpty(s, s')
    case StartGroupStep(n) => StartGroup(s, s', n)
    case AddRecordStep => AddRecord(s, s')
    case SyncStep => Sync(s, s')
    case InsertOneStep => InsertOne(s, s')
    case FinishStep => Finish(s, s')
    case GetSnapshotStep => GetSnapshot(s, s')
    case StutterStep => s' == s
  }

  // ---------- The invariant ----------

  /** The operations of the first n writers. */
  function Upto(arrived: seq<Writer>, n: nat): seq<Op>
    requires n <= |arrived|
  {
    OpsOf(arrived[..n])
  }

  lemma MoreArrive(arrived: seq<Writer>, w: Writer, n: nat)
    requires n <= |arrived|
    ensures Upto(arrived + [w], n) == Upto(arrived, n)
  {
    assert (arrived + [w])[..n] == arrived[..n];
  }

  ghost predicate QueueInv(queue: seq<Writer>, arrived: seq<Writer>, answered: nat) {
    answered <= |arrived| && queue == arrived[answered..]
  }

  /** The group holds the batches of the next n writers, none of which needs a sync that the first does not. */
  ghost predicate GroupInv(group: Option<Group>, arrived: seq<Writer>, answered: nat) {
    group.Some? ==>
      var g := group.value;
      && 1 <= g.n && answered + g.n <= |arrived|
      && (forall i :: answered <= i < answered + g.n ==> arrived[i].sync ==> arrived[answered].sync)
      && Upto(arrived, answered + g.n) == Upto(arrived, answered) + g.ops
      && g.inserted <= |g.ops| && (g.inserted > 0 ==> g.logged)
  }

  function Covered(group: Option<Group>, answered: nat): nat {
    answered + if group.Some? && group.value.logged then group.value.n else 0
  }

  function EndBefore(ends: seq<nat>, i: nat): nat
    requires i <= |ends|
  {
    if i == 0 then 0 else ends[i - 1]
  }

  /** Record i holds the batches of the writers from the end of the record before it. */
  ghost predicate RecordIs(log: seq<Record>, ends: seq<nat>, arrived: seq<Writer>, i: nat) {
    && i < |log| == |ends|
    && EndBefore(ends, i) < ends[i] <= |arrived|
    && log[i].first == |Upto(arrived, EndBefore(ends, i))| + 1
    && log[i].ops == OpsOf(arrived[EndBefore(ends, i)..ends[i]])
    && Upto(arrived, ends[i]) == Upto(arrived, EndBefore(ends, i)) + log[i].ops
  }

  /** Record r has the batch of writer w. */
  predicate InRecord(ends: seq<nat>, r: nat, w: nat) {
    r < |ends| && EndBefore(ends, r) <= w < ends[r]
  }

  ghost predicate LogInv(log: seq<Record>, ends: seq<nat>, arrived: seq<Writer>, covered: nat) {
    && |ends| == |log|
    && (forall i :: 0 <= i < |log| ==> RecordIs(log, ends, arrived, i))
    && EndBefore(ends, |ends|) <= covered <= |arrived|
    && Upto(arrived, covered) == Upto(arrived, EndBefore(ends, |ends|))
    && forall i :: EndBefore(ends, |ends|) <= i < covered ==> arrived[i].batch.None?
  }

  ghost predicate MemInv(mem: set<Entry>, lastSequence: nat, group: Option<Group>, done: seq<Op>) {
    && lastSequence == |done|
    && (group.Some? ==> group.value.inserted <= |group.value.ops|)
    && mem == EntriesFrom(done + if group.Some? then group.value.ops[..group.value.inserted] else [], 1)
  }

  /** A snapshot stands between two writers' batches. */
  ghost predicate Whole(arrived: seq<Writer>, answered: nat, snapshot: nat, n: nat) {
    n <= answered <= |arrived| && snapshot == |Upto(arrived, n)|
  }

  ghost predicate SnapshotInv(snapshots: set<nat>, arrived: seq<Writer>, answered: nat) {
    forall x :: x in snapshots ==> exists n :: Whole(arrived, answered, x, n)
  }

  /** Every answered sync write is in the synced part of the log. */
  ghost predicate SyncInv(synced: nat, ends: seq<nat>, arrived: seq<Writer>, answered: nat) {
    && synced <= |ends| && answered <= |arrived|
    && forall i :: 0 <= i < answered && arrived[i].sync && arrived[i].batch.Some? ==> i < EndBefore(ends, synced)
  }

  ghost predicate LastIsLogged(ends: seq<nat>, group: Option<Group>, answered: nat) {
    group.Some? && group.value.logged ==> EndBefore(ends, |ends|) == answered + group.value.n
  }

  ghost predicate Inv(s: State) {
    && QueueInv(s.queue, s.arrived, s.answered)
    && GroupInv(s.group, s.arrived, s.answered)
    && LogInv(s.log, s.ends, s.arrived, Covered(s.group, s.answered))
    && MemInv(s.mem, s.lastSequence, s.group, Upto(s.arrived, s.answered))
    && SnapshotInv(s.snapshots, s.arrived, s.answered)
    && SyncInv(s.synced, s.ends, s.arrived, s.answered)
    && LastIsLogged(s.ends, s.group, s.answered)
  }

  lemma InvAtStart()
    ensures Inv(Start())
  {
  }

  // ---------- Every step keeps it ----------

  lemma MoreArriveLog(log: seq<Record>, ends: seq<nat>, arrived: seq<Writer>, covered: nat, w: Writer)
    requires LogInv(log, ends, arrived, covered)
    ensures LogInv(log, ends, arrived + [w], covered)
  {
    forall i | 0 <= i < |log| ensures RecordIs(log, ends, arrived + [w], i) {
      assert RecordIs(log, ends, arrived, i);
      MoreArrive(arrived, w, EndBefore(ends, i));
      MoreArrive(arrived, w, ends[i]);
      assert (arrived + [w])[EndBefore(ends, i)..ends[i]] == arrived[EndBefore(ends, i)..ends[i]];
    }
    MoreArrive(arrived, w, covered);
    MoreArrive(arrived, w, EndBefore(ends, |ends|));
  }

  lemma MoreArriveSnapshots(snapshots: set<nat>, arrived: seq<Writer>, answered: nat, w: Writer)
    requires SnapshotInv(snapshots, arrived, answered)
    ensures SnapshotInv(snapshots, arrived + [w], answered)
  {
    forall x | x in snapshots ensures exists n :: Whole(arrived + [w], answered, x, n) {
      var n :| Whole(arrived, answered, x, n);
      MoreArrive(arrived, w, n);
      assert Whole(arrived + [w], answered, x, n);
    }
  }

  lemma MoreArriveGroup(group: Option<Group>, arrived: seq<Writer>, answered: nat, w: Writer)
    requires GroupInv(group, arrived, answered) && answered <= |arrived|
    ensures GroupInv(group, arrived + [w], answered)
  {
    MoreArrive(arrived, w, answered);
    if group.Some? {
      MoreArrive(arrived, w, answered + group.value.n);
    }
  }

  lemma ArriveKeepsInv(s: State, s': State, w: Writer)
    requires Inv(s) && Arrive(s, s', w)
    ensures Inv(s')
  {
    MoreArriveLog(s.log, s.ends, s.arrived, Covered(s.group, s.answered), w);
    MoreArriveSnapshots(s.snapshots, s.arrived, s.answered, w);
    MoreArrive(s.arrived, w, s.answered);
    MoreArriveGroup(s.group, s.arrived, s.answered, w);
  }

  lemma {:induction false} OpsOfAppend(a: seq<Writer>, b: seq<Writer>)
    ensures OpsOf(a + b) == OpsOf(a) + OpsOf(b)
  {
    if b == [] {
      assert a + b == a;
    } else {
      LastOfConcat(a, b);
      OpsOfAppend(a, b[..|b| - 1]);
      Coding.Associate(OpsOf(a), OpsOf(b[..|b| - 1]), OwnOps(b[|b| - 1]));
    }
  }

  lemma NextOps(arrived: seq<Writer>, answered: nat, n: nat)
    requires answered + n <= |arrived|
    ensures Upto(arrived, answered + n) == Upto(arrived, answered) + OpsOf(arrived[answered..][..n])
  {
    assert arrived[..answered + n] == arrived[..answered] + arrived[answered..][..n];
    OpsOfAppend(arrived[..answered], arrived[answered..][..n]);
  }

  lemma MoreAnswered(snapshots: set<nat>, arrived: seq<Writer>, answered: nat, answered': nat)
    requires SnapshotInv(snapshots, arrived, answered) && answered <= answered' <= |arrived|
    ensures SnapshotInv(snapshots, arrived, answered')
  {
    forall x | x in snapshots ensures exists n :: Whole(arrived, answered', x, n) {
      var n :| Whole(arrived, answered, x, n);
      assert Whole(arrived, answered', x, n);
    }
  }

  lemma OneMoreCovered(log: seq<Record>, ends: seq<nat>, arrived: seq<Writer>, covered: nat)
    requires LogInv(log, ends, arrived, covered) && covered < |arrived| && arrived[covered].batch.None?
    ensures LogInv(log, ends, arrived, covered + 1)
  {
    OneMore(arrived, covered);
  }

  lemma AnswerEmptyKeepsInv(s: State, s': State)
    requires Inv(s) && AnswerEmpty(s, s')
    ensures Inv(s')
  {
    assert s.arrived[s.answered] == s.queue[0];
    OneMoreCovered(s.log, s.ends, s.arrived, s.answered);
    OneMore(s.arrived, s.answered);
    MoreAnswered(s.snapshots, s.arrived, s.answered, s'.answered);
  }

  lemma NewGroup(queue: seq<Writer>, arrived: seq<Writer>, answered: nat, n: nat)
    requires QueueInv(queue, arrived, answered) && IsGroup(queue, n)
    ensures GroupInv(Some(Group(n, OpsOf(queue[..n]), false, 0)), arrived, answered)
  {
    NextOps(arrived, answered, n);
    forall i | answered <= i < answered + n ensures arrived[i] == queue[i - answered] {
    }
  }

  lemma StartGroupKeepsInv(s: State, s': State, n: nat)
    requires Inv(s) && StartGroup(s, s', n)
    ensures Inv(s')
  {
    NewGroup(s.queue, s.arrived, s.answered, n);
  }

  lemma OpsBetween(arrived: seq<Writer>, a: nat, b: nat, ops: seq<Op>)
    requires a <= b <= |arrived| && Upto(arrived, b) == Upto(arrived, a) + ops
    ensures ops == OpsOf(arrived[a..b])
  {
    var before, more := Upto(arrived, a), OpsOf(arrived[a..b]);
    assert arrived[..b] == arrived[..a] + arrived[a..b];
    OpsOfAppend(arrived[..a], arrived[a..b]);
    assert (before + ops)[|before|..] == ops && (before + more)[|before|..] == more;
  }

  lemma AddRecordLog(log: seq<Record>, ends: seq<nat>, arrived: seq<Writer>, covered: nat, r: Record, n: nat)
    requires LogInv(log, ends, arrived, covered) && covered < n <= |arrived|
    requires r.first == |Upto(arrived, covered)| + 1 && Upto(arrived, n) == Upto(arrived, covered) + r.ops
    ensures LogInv(log + [r], ends + [n], arrived, n)
  {
    OpsBetween(arrived, EndBefore(ends, |ends|), n, r.ops);
    forall i | 0 <= i < |log| + 1 ensures RecordIs(log + [r], ends + [n], arrived, i) {
      if i < |log| {
        assert RecordIs(log, ends, arrived, i);
      }
    }
  }

  lemma AddRecordSync(synced: nat, ends: seq<nat>, arrived: seq<Writer>, answered: nat, end: nat)
    requires SyncInv(synced, ends, arrived, answered)
    ensures SyncInv(synced, ends + [end], arrived, answered)
  {
    assert EndBefore(ends + [end], synced) == EndBefore(ends, synced);
  }

  lemma LoggedGroup(g: Group, arrived: seq<Writer>, answered: nat)
    requires GroupInv(Some(g), arrived, answered)
    ensures GroupInv(Some(g.(logged := true)), arrived, answered)
  {
  }

  lemma LoggedMem(mem: set<Entry>, lastSequence: nat, g: Group, done: seq<Op>)
    requires MemInv(mem, lastSequence, Some(g), done)
    ensures MemInv(mem, lastSequence, Some(g.(logged := true)), done)
  {
  }

  lemma AddRecordKeepsInv(s: State, s': State)
    requires Inv(s) && AddRecord(s, s')
    ensures Inv(s')
  {
    hide LogInv, SnapshotInv, SyncInv, EntriesFrom;
    var g := s.group.value;
    AddRecordLog(s.log, s.ends, s.arrived, s.answered, Record(s.lastSequence + 1, g.ops), s.answered + g.n);
    AddRecordSync(s.synced, s.ends, s.arrived, s.answered, s.answered + g.n);
    LoggedGroup(g, s.arrived, s.answered);
    LoggedMem(s.mem, s.lastSequence, g, Upto(s.arrived, s.answered));
    assert SnapshotInv(s'.snapshots, s'.arrived, s'.answered);
  }

  lemma {:induction false} EndsGrow(log: seq<Record>, ends: seq<nat>, arrived: seq<Writer>, covered: nat, i: nat,
                                    j: nat)
    requires LogInv(log, ends, arrived, covered) && i <= j <= |ends|
    ensures EndBefore(ends, i) <= EndBefore(ends, j)
  {
    if i < j {
      EndsGrow(log, ends, arrived, covered, i, j - 1);
      assert RecordIs(log, ends, arrived, j - 1);
    }
  }

  lemma SyncKeepsInv(s: State, s': State)
    requires Inv(s) && Sync(s, s')
    ensures Inv(s')
  {
    EndsGrow(s.log, s.ends, s.arrived, Covered(s.group, s.answered), s.synced, |s.ends|);
  }

  lemma SingleEntry(op: Op, first: nat)
    ensures EntriesFrom([op], first) == {OpEntry(op, first)}
  {
    assert [op][0] == op;
    assert OpEntry([op][0], first + 0) in EntriesFrom([op], first);
  }

  lemma InsertEntry(done: seq<Op>, ops: seq<Op>, i: nat)
    requires i < |ops|
    ensures EntriesFrom(done + ops[..i + 1], 1) ==
            EntriesFrom(done + ops[..i], 1) + {OpEntry(ops[i], |done| + 1 + i)}
  {
    var before := done + ops[..i];
    assert done + ops[..i + 1] == before + [ops[i]];
    EntriesOfConcat(before, [ops[i]], 1);
    assert 1 + |before| == |done| + 1 + i;
    SingleEntry(ops[i], |done| + 1 + i);
  }

  lemma InsertOneMem(mem: set<Entry>, lastSequence: nat, g: Group, done: seq<Op>)
    requires MemInv(mem, lastSequence, Some(g), done) && g.inserted < |g.ops|
    ensures MemInv(mem + {OpEntry(g.ops[g.inserted], lastSequence + 1 + g.inserted)}, lastSequence,
                   Some(g.(inserted := g.inserted + 1)), done)
  {
    InsertEntry(done, g.ops, g.inserted);
  }

  lemma InsertOneGroup(g: Group, arrived: seq<Writer>, answered: nat)
    requires GroupInv(Some(g), arrived, answered) && g.logged && g.inserted < |g.ops|
    ensures GroupInv(Some(g.(inserted := g.inserted + 1)), arrived, answered)
  {
  }

  lemma InsertOneKeepsInv(s: State, s': State)
    requires Inv(s) && InsertOne(s, s')
    ensures Inv(s')
  {
    hide LogInv, SnapshotInv, SyncInv, EntriesFrom;
    InsertOneMem(s.mem, s.lastSequence, s.group.value, Upto(s.arrived, s.answered));
    InsertOneGroup(s.group.value, s.arrived, s.answered);
    assert Covered(s'.group, s'.answered) == Covered(s.group, s.answered);
  }

  lemma FinishMem(mem: set<Entry>, lastSequence: nat, g: Group, done: seq<Op>, all: seq<Op>)
    requires MemInv(mem, lastSequence, Some(g), done) && g.inserted == |g.ops| && all == done + g.ops
    ensures MemInv(mem, lastSequence + |g.ops|, None, all)
  {
    assert g.ops[..|g.ops|] == g.ops && all + [] == all;
  }

  lemma FinishSync(s: State, n: nat)
    requires Inv(s) && LogDone(s) && n == s.answered + s.group.value.n
    ensures SyncInv(s.synced, s.ends, s.arrived, n)
  {
    assert s.queue[0] == s.arrived[s.answered];
    EndsGrow(s.log, s.ends, s.arrived, n, s.synced, |s.ends|);
  }

  lemma FinishKeepsInv(s: State, s': State)
    requires Inv(s) && Finish(s, s')
    ensures Inv(s')
  {
    hide LogInv, SnapshotInv, SyncInv, EntriesFrom;
    var g, n := s.group.value, s.answered + s.group.value.n;
    FinishMem(s.mem, s.lastSequence, g, Upto(s.arrived, s.answered), Upto(s.arrived, n));
    assert s'.queue == s.arrived[n..];
    MoreAnswered(s.snapshots, s.arrived, s.answered, n);
    FinishSync(s, n);
  }

  lemma GetSnapshotKeepsInv(s: State, s': State)
    requires Inv(s) && GetSnapshot(s, s')
    ensures Inv(s')
  {
    assert Whole(s.arrived, s.answered, s.lastSequence, s.answered);
  }

  lemma NextKeepsInv(s: State, s': State, step: Step)
    requires Inv(s) && Next(s, s', step)
    ensures Inv(s')
  {
    match step
    case ArriveStep(w) => ArriveKeepsInv(s, s', w);
    case AnswerEmptyStep => AnswerEmptyKeepsInv(s, s');
    case StartGroupStep(n) => StartGroupKeepsInv(s, s', n);
    case AddRecordStep => AddRecordKeepsInv(s, s');
    case SyncStep => SyncKeepsInv(s, s');
    case InsertOneStep => InsertOneKeepsInv(s, s');
    case FinishStep => FinishKeepsInv(s, s');
    case GetSnapshotStep => GetSnapshotKeepsInv(s, s');
    case StutterStep =>
  }

  // ---------- Runs ----------

  ghost predicate Run(states: seq<State>, steps: seq<Step>) {
    && |states| == |steps| + 1 && states[0] == Start()
    && forall i {:trigger steps[i]} :: 0 <= i < |steps| ==> Next(states[i], states[i + 1], steps[i])
  }

  lemma {:induction false} RunKeepsInv(states: seq<State>, steps: seq<Step>, i: nat)
    requires Run(states, steps) && i < |states|
    ensures Inv(states[i])
  {
    if i == 0 {
      InvAtStart();
    } else {
      RunKeepsInv(states, steps, i - 1);
      NextKeepsInv(states[i - 1], states[i], steps[i - 1]);
    }
  }

  /** At every moment of every run, the memtable holds the answered batches in the order in which their writers
      queued up, once each and numbered without gaps, and possibly the beginning of the group in progress, whose
      numbers are all above the last sequence number. */
  lemma MemtableIsQueueOrder(states: seq<State>, steps: seq<Step>, i: nat)
    requires Run(states, steps) && i < |states|
    ensures var s := states[i];
            && s.answered <= |s.arrived| && s.lastSequence == |Upto(s.arrived, s.answered)|
            && exists more: seq<Op> :: s.mem == EntriesFrom(Upto(s.arrived, s.answered) + more, 1)
                 && (s.group.None? ==> more == []) && (s.group.Some? ==> more <= s.group.value.ops)
  {
    RunKeepsInv(states, steps, i);
    var s := states[i];
    var more := if s.group.Some? then s.group.value.ops[..s.group.value.inserted] else [];
    assert s.mem == EntriesFrom(Upto(s.arrived, s.answered) + more, 1);
  }

  /** The log holds the same batches in the same order, cut into groups of writers that were next to each
      other in the queue. */
  lemma {:induction false} RecordsInOrder(log: seq<Record>, ends: seq<nat>, arrived: seq<Writer>, covered: nat, n: nat)
    requires LogInv(log, ends, arrived, covered) && n <= |log|
    ensures EndBefore(ends, n) <= |arrived|
    ensures Consecutive(log[..n], 1) && Ops(log[..n]) == Upto(arrived, EndBefore(ends, n))
  {
    if n == 0 {
      assert arrived[..0] == [];
    } else {
      RecordsInOrder(log, ends, arrived, covered, n - 1);
      assert RecordIs(log, ends, arrived, n - 1);
      assert log[..n][..n - 1] == log[..n - 1];
    }
  }

  lemma LogIsQueueOrder(states: seq<State>, steps: seq<Step>, i: nat)
    requires Run(states, steps) && i < |states|
    ensures var s := states[i];
            && Consecutive(s.log, 1)
            && Covered(s.group, s.answered) <= |s.arrived|
            && Ops(s.log) == Upto(s.arrived, Covered(s.group, s.answered))
            && forall r :: 0 <= r < |s.log| ==> RecordIs(s.log, s.ends, s.arrived, r)
  {
    RunKeepsInv(states, steps, i);
    var s := states[i];
    RecordsInOrder(s.log, s.ends, s.arrived, Covered(s.group, s.answered), |s.log|);
    assert s.log[..|s.log|] == s.log;
  }

  /** No writer's batch is in two records, and everyone who was covered and had a batch is in one. */
  lemma InOneRecord(states: seq<State>, steps: seq<Step>, i: nat, w: nat)
    requires Run(states, steps) && i < |states| && w < |states[i].arrived|
    ensures forall q, r :: InRecord(states[i].ends, q, w) && InRecord(states[i].ends, r, w) ==> q == r
    ensures var s := states[i];
            w < Covered(s.group, s.answered) && s.arrived[w].batch.Some? ==> exists r :: InRecord(s.ends, r, w)
  {
    RunKeepsInv(states, steps, i);
    var s := states[i];
    var covered := Covered(s.group, s.answered);
    forall q: nat, r: nat | InRecord(s.ends, q, w) && InRecord(s.ends, r, w) ensures q == r {
      EndsGrow(s.log, s.ends, s.arrived, covered, q + 1, if q < r then r else q + 1);
      EndsGrow(s.log, s.ends, s.arrived, covered, r + 1, if r < q then q else r + 1);
    }
    if w < covered && s.arrived[w].batch.Some? {
      FindRecord(s.ends, w, |s.ends|);
    }
  }

  lemma {:induction false} FindRecord(ends: seq<nat>, w: nat, n: nat)
    requires n <= |ends| && w < EndBefore(ends, n)
    ensures exists r :: InRecord(ends, r, w)
  {
    if w < EndBefore(ends, n - 1) {
      FindRecord(ends, w, n - 1);
    } else {
      assert InRecord(ends, n - 1, w);
    }
  }

  /** Every sync write that was answered is among the operations of the synced part of the log. */
  lemma AnsweredSyncWritesAreSynced(states: seq<State>, steps: seq<Step>, i: nat, w: nat)
    requires Run(states, steps) && i < |states| && w < states[i].answered <= |states[i].arrived|
    requires states[i].arrived[w].sync && states[i].arrived[w].batch.Some?
    ensures var s := states[i];
            s.synced <= |s.log| && Upto(s.arrived, w + 1) <= Ops(s.log[..s.synced])
  {
    RunKeepsInv(states, steps, i);
    var s := states[i];
    RecordsInOrder(s.log, s.ends, s.arrived, Covered(s.group, s.answered), s.synced);
    UptoGrows(s.arrived, w + 1, EndBefore(s.ends, s.synced));
  }

  lemma {:induction false} UptoGrows(arrived: seq<Writer>, n: nat, m: nat)
    requires n <= m <= |arrived|
    ensures Upto(arrived, n) <= Upto(arrived, m)
  {
    if n < m {
      UptoGrows(arrived, n, m - 1);
      OneMore(arrived, m - 1);
    }
  }

  /** A snapshot sees every batch as a whole or not at all, also while a group is being inserted: what it reads
      is the map after the batches of the first so many writers. */
  lemma SnapshotsAreWhole(states: seq<State>, steps: seq<Step>, i: nat, snapshot: nat)
    requires Run(states, steps) && i < |states| && snapshot in states[i].snapshots
    ensures var s := states[i];
            exists n: nat :: n <= s.answered <= |s.arrived| && snapshot == |Upto(s.arrived, n)|
              && forall k :: Read(s.mem, k, snapshot) == ValueAt(MapOf(Upto(s.arrived, n)), k)
  {
    RunKeepsInv(states, steps, i);
    var s := states[i];
    var n :| Whole(s.arrived, s.answered, snapshot, n);
    var more := if s.group.Some? then s.group.value.ops[..s.group.value.inserted] else [];
    var ops := Upto(s.arrived, s.answered) + more;
    UptoGrows(s.arrived, n, s.answered);
    assert ops[..snapshot] == Upto(s.arrived, n);
    forall k ensures Read(s.mem, k, snapshot) == ValueAt(MapOf(Upto(s.arrived, n)), k) {
      ReadIsMap(ops, k, snapshot);
    }
  }
}
