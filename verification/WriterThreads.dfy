/** The threads that call DBImpl::Write (db/db_impl.cc): every one of them may take its next step at any time, and
    only the mutex, the queue and the `done` flags keep them apart. They behave like module GroupCommit. */
module WriterThreads {
  import opened InternalKeys
  import opened Visibility
  import opened History
  import opened WriteQueue
  import G = GroupCommit

  // ---------- Threads ----------

  /** What a leader keeps in local variables: last_sequence as read, last_writer, and the group's updates. */
  datatype Local = Local(base: nat, lastWriter: nat, updates: seq<Op>)

  /** Where a thread is: before the test of the loop that waits; past it, in MakeRoomForWrite; with a group, before
      AddRecord; before Sync; before inserting its next operation; popping writers, with the mutex; behind Write. */
  datatype Pc =
    | Waiting
    | MakingRoom
    | Logging(local: Local)
    | Syncing(local: Local)
    | Inserting(local: Local, inserted: nat)
    | Answering(lastWriter: nat)
    | Returned

  datatype Thread = Thread(writer: Writer, done: bool, pc: Pc)

  /** Threads are numbered in the order in which they got the mutex first. `mutex` is the thread that holds it while
      it pops writers; all other critical sections are single steps. `ends` records, for every log record, the number
      behind the last writer that it covers. */
  datatype System = System(
    threads: seq<Thread>, writers: seq<nat>, mutex: Option<nat>,
    log: seq<Record>, synced: nat,
    mem: set<Entry>, lastSequence: nat, snapshots: set<nat>,
    ends: seq<nat>)

  function Start(): System {
    System([], [], None, [], 0, {}, 0, {}, [])
  }

  function Arrived(threads: seq<Thread>): (ws: seq<Writer>)
    ensures |ws| == |threads| && forall i :: 0 <= i < |ws| ==> ws[i] == threads[i].writer
  {
    seq(|threads|, i requires 0 <= i < |threads| => threads[i].writer)
  }

  /** The writers_ queue. */
  function Queue(threads: seq<Thread>, writers: seq<nat>): (ws: seq<Writer>)
    requires forall i :: 0 <= i < |writers| ==> writers[i] < |threads|
    ensures |ws| == |writers| && forall i :: 0 <= i < |ws| ==> ws[i] == threads[writers[i]].writer
  {
    seq(|writers|, i requires 0 <= i < |writers| => threads[writers[i]].writer)
  }

  // ---------- Steps ----------

  datatype Step =
    | ArriveStep(w: Writer)
    | TestStep(t: nat)
    | BuildGroupStep(t: nat, n: nat)
    | AddRecordStep(t: nat)
    | SyncStep(t: nat)
    | InsertOneStep(t: nat)
    | PublishStep(t: nat)
    | PopStep(t: nat)
    | GetSnapshotStep

  function Moved(s: System, t: nat, pc: Pc): seq<Thread>
    requires t < |s.threads|
  {
    s.threads[t := s.threads[t].(pc := pc)]
  }

  /** Gets the mutex and joins the queue. */
  ghost predicate Arrive(s: System, s': System, w: Writer) {
    && s.mutex.None?
    && s' == s.(threads := s.threads + [Thread(w, false, Waiting)], writers := s.writers + [|s.threads|])
  }

  /** A waiting thread, woken up or not, passes the test of the loop: it returns if its batch was written for it,
      and leads if it is in front. */
  ghost predicate Test(s: System, s': System, t: nat) {
    && t < |s.threads| && s.threads[t].pc.Waiting? && s.mutex.None?
    && (s.threads[t].done || (s.writers != [] && s.writers[0] == t))
    && s' == s.(threads := Moved(s, t, if s.threads[t].done then Returned else MakingRoom))
  }

  /** There is room now: reads the last sequence number, builds a group from the front of the queue, and releases the
      mutex; without a batch, goes on to answer itself. */
  ghost predicate BuildGroup(s: System, s': System, t: nat, n: nat) {
    && t < |s.threads| && s.threads[t].pc.MakingRoom? && s.mutex.None?
    && if s.threads[t].writer.batch.None? then
         s' == s.(threads := Moved(s, t, Answering(t)), mutex := Some(t))
       else
         && (forall i :: 0 <= i < |s.writers| ==> s.writers[i] < |s.threads|) && IsGroup(Queue(s.threads, s.writers), n)
         && var updates := OpsOf(Queue(s.threads, s.writers)[..n]);
            s' == s.(threads := Moved(s, t, Logging(Local(s.lastSequence, s.writers[n - 1], updates))))
  }

  ghost predicate AddRecord(s: System, s': System, t: nat) {
    && t < |s.threads| && s.threads[t].pc.Logging?
    && var l := s.threads[t].pc.local;
       s' == s.(threads := Moved(s, t, Syncing(l)), log := s.log + [Record(l.base + 1, l.updates)],
                ends := s.ends + [l.lastWriter + 1])
  }

  ghost predicate Sync(s: System, s': System, t: nat) {
    && t < |s.threads| && s.threads[t].pc.Syncing?
    && s' == s.(threads := Moved(s, t, Inserting(s.threads[t].pc.local, 0)),
                synced := if s.threads[t].writer.sync then |s.log| else s.synced)
  }

  ghost predicate InsertOne(s: System, s': System, t: nat) {
    && t < |s.threads| && s.threads[t].pc.Inserting?
    && var l, k := s.threads[t].pc.local, s.threads[t].pc.inserted;
       && k < |l.updates|
       && s' == s.(threads := Moved(s, t, Inserting(l, k + 1)), mem := s.mem + {OpEntry(l.updates[k], l.base + 1 + k)})
  }

  /** Gets the mutex back and raises the last sequence number. */
  ghost predicate Publish(s: System, s': System, t: nat) {
    && t < |s.threads| && s.threads[t].pc.Inserting? && s.mutex.None?
    && var l := s.threads[t].pc.local;
       && s.threads[t].pc.inserted == |l.updates|
       && s' == s.(threads := Moved(s, t, Answering(l.lastWriter)), mutex := Some(t),
                   lastSequence := l.base + |l.updates|)
  }

  /** Pops one writer and tells it, unless it is the leader itself; behind the last one, releases the mutex. */
  ghost predicate Pop(s: System, s': System, t: nat) {
    && t < |s.threads| && s.threads[t].pc.Answering? && s.writers != [] && s.writers[0] < |s.threads|
    && var ready := s.writers[0];
       var told := if ready == t then s else s.(threads := s.threads[ready := s.threads[ready].(done := true)]);
       s' == if ready == s.threads[t].pc.lastWriter
             then told.(threads := Moved(told, t, Returned), writers := s.writers[1..], mutex := None)
             else told.(writers := s.writers[1..])
  }

  ghost predicate GetSnapshot(s: System, s': System) {
    s.mutex.None? && s' == s.(snapshots := s.snapshots + {s.lastSequence})
  }

  ghost predicate Next(s: System, s': System, step: Step) {
    match step
    case ArriveStep(w) => Arrive(s, s', w)
    case TestStep(t) => Test(s, s', t)
    case BuildGroupStep(t, n) => BuildGroup(s, s', t, n)
    case AddRecordStep(t) => AddRecord(s, s', t)
    case SyncStep(t) => Sync(s, s', t)
    case InsertOneStep(t) => InsertOne(s, s', t)
    case PublishStep(t) => Publish(s, s', t)
    case PopStep(t) => Pop(s, s', t)
    case GetSnapshotStep => GetSnapshot(s, s')
  }

  ghost predicate Run(states: seq<System>, steps: seq<Step>) {
    && |states| == |steps| + 1 && states[0] == Start()
    && forall i {:trigger steps[i]} :: 0 <= i < |steps| ==> Next(states[i], states[i + 1], steps[i])
  }

  // ---------- What holds between steps ----------

  predicate Leads(th: Thread) {
    !th.pc.Waiting? && !th.pc.Returned?
  }

  /** Thread i, when the first `popped` ones have left the queue: those in the queue still wait for an answer, those
      popped were told so or led their own group, and nobody but `lead` is past the test. */
  predicate ThreadOk(th: Thread, i: nat, popped: nat, lead: Option<nat>) {
    && (lead != Some(i) ==> !Leads(th))
    && (th.done ==> i < popped && lead != Some(i))
    && (i < popped && !th.done ==> th.pc.Returned? || lead == Some(i))
    && (th.pc.Returned? ==> i < popped)
  }

  ghost predicate ThreadsOk(threads: seq<Thread>, popped: nat, lead: Option<nat>) {
    forall i :: 0 <= i < |threads| ==> ThreadOk(threads[i], i, popped, lead)
  }

  predicate QueueOk(threads: seq<Thread>, writers: seq<nat>) {
    && |writers| <= |threads|
    && forall i :: 0 <= i < |writers| ==> writers[i] == |threads| - |writers| + i
  }

  /** The state of the serial protocol that corresponds to the threads: a leader that pops writers has answered
      them all. */
  ghost predicate LeaderIs(s: System, lead: Option<nat>, g: G.State) {
    var popped := |s.threads| - |s.writers|;
    match lead
    case None => s.mutex.None? && g.group.None? && g.answered == popped
    case Some(t) =>
      && t < |s.threads| && Leads(s.threads[t])
      && match s.threads[t].pc
         case Answering(last) =>
           && s.mutex == Some(t) && g.group.None? && t <= last < |s.threads|
           && t <= popped <= last && g.answered == last + 1
         case MakingRoom =>
           s.mutex.None? && t == popped && g.group.None? && g.answered == popped
         case Logging(l) =>
           s.mutex.None? && HasGroup(s, t, popped, l, false, 0, g)
         case Syncing(l) =>
           s.mutex.None? && HasGroup(s, t, popped, l, true, 0, g)
         case Inserting(l, k) =>
           && s.mutex.None? && HasGroup(s, t, popped, l, true, k, g)
           && k <= |l.updates| && (s.threads[t].writer.sync ==> s.synced == |s.log|)
         case _ => true
  }

  ghost predicate HasGroup(s: System, t: nat, popped: int, l: Local, logged: bool, k: nat, g: G.State) {
    && t == popped <= l.lastWriter < |s.threads| && l.base == s.lastSequence && g.answered == t
    && g.group == Some(G.Group(l.lastWriter + 1 - t, l.updates, logged, k))
  }

  ghost predicate Same(s: System, g: G.State) {
    && g.arrived == Arrived(s.threads) && g.answered <= |g.arrived| && g.queue == g.arrived[g.answered..]
    && g.log == s.log && g.synced == s.synced && g.mem == s.mem && g.lastSequence == s.lastSequence
    && g.snapshots == s.snapshots && g.ends == s.ends
  }

  ghost predicate Corresponds(s: System, lead: Option<nat>, g: G.State) {
    && Same(s, g) && QueueOk(s.threads, s.writers)
    && ThreadsOk(s.threads, |s.threads| - |s.writers|, lead) && LeaderIs(s, lead, g)
  }

  // ---------- Every step is one of the serial protocol, or changes nothing there ----------

  lemma MovedArrived(s: System, t: nat, pc: Pc)
    requires t < |s.threads|
    ensures Arrived(Moved(s, t, pc)) == Arrived(s.threads)
  {
  }

  lemma ArriveCorresponds(s: System, s': System, w: Writer, lead: Option<nat>, g: G.State) returns (g': G.State)
    requires Corresponds(s, lead, g) && Arrive(s, s', w)
    ensures G.Next(g, g', G.ArriveStep(w)) && Corresponds(s', lead, g')
  {
    g' := g.(queue := g.queue + [w], arrived := g.arrived + [w]);
    assert Arrived(s'.threads) == g'.arrived;
  }

  /** Only the thread in front, or one whose batch was written for it, gets past the test. */
  lemma TestCorresponds(s: System, s': System, t: nat, lead: Option<nat>, g: G.State) returns (lead': Option<nat>)
    requires Corresponds(s, lead, g) && Test(s, s', t)
    ensures Corresponds(s', lead', g)
  {
    var popped := |s.threads| - |s.writers|;
    assert ThreadOk(s.threads[t], t, popped, lead);
    lead' := if s.threads[t].done then lead else Some(t);
    MovedArrived(s, t, s'.threads[t].pc);
    forall i | 0 <= i < |s'.threads| ensures ThreadOk(s'.threads[i], i, popped, lead') {
      assert ThreadOk(s.threads[i], i, popped, lead);
    }
  }

  lemma OneMoves(s: System, s': System, t: nat, pc: Pc)
    requires QueueOk(s.threads, s.writers) && ThreadsOk(s.threads, |s.threads| - |s.writers|, Some(t))
    requires t < |s.threads| && s'.threads == Moved(s, t, pc) && s'.writers == s.writers && !pc.Returned?
    ensures QueueOk(s'.threads, s'.writers) && ThreadsOk(s'.threads, |s'.threads| - |s'.writers|, Some(t))
    ensures Arrived(s'.threads) == Arrived(s.threads)
  {
    MovedArrived(s, t, pc);
    forall i | 0 <= i < |s'.threads| ensures ThreadOk(s'.threads[i], i, |s.threads| - |s.writers|, Some(t)) {
      assert ThreadOk(s.threads[i], i, |s.threads| - |s.writers|, Some(t));
    }
  }

  /** Whoever is past the test is the leader. */
  lemma IsLeader(s: System, t: nat, lead: Option<nat>, g: G.State)
    requires Corresponds(s, lead, g) && t < |s.threads| && Leads(s.threads[t])
    ensures lead == Some(t)
  {
    assert ThreadOk(s.threads[t], t, |s.threads| - |s.writers|, lead);
  }

  lemma QueueIsRest(s: System, g: G.State)
    requires Same(s, g) && QueueOk(s.threads, s.writers) && g.answered == |s.threads| - |s.writers|
    ensures Queue(s.threads, s.writers) == g.queue
  {
  }

  lemma BuildGroupCorresponds(s: System, s': System, t: nat, n: nat, g: G.State) returns (g': G.State, step: G.Step)
    requires Corresponds(s, Some(t), g) && BuildGroup(s, s', t, n)
    ensures G.Next(g, g', step) && Corresponds(s', Some(t), g') && (step.AnswerEmptyStep? || step.StartGroupStep?)
  {
    QueueIsRest(s, g);
    OneMoves(s, s', t, s'.threads[t].pc);
    assert s.writers != [] && s.writers[0] == t && g.queue[0] == s.threads[t].writer by {
      assert ThreadOk(s.threads[t], t, |s.threads| - |s.writers|, Some(t));
    }
    if s.threads[t].writer.batch.None? {
      g', step := g.(queue := g.queue[1..], answered := g.answered + 1), G.AnswerEmptyStep;
    } else {
      g' := g.(group := Some(G.Group(n, OpsOf(g.queue[..n]), false, 0)));
      step := G.StartGroupStep(n);
      assert s.writers[n - 1] == t + n - 1;
    }
  }

  lemma AddRecordCorresponds(s: System, s': System, t: nat, g: G.State) returns (g': G.State)
    requires Corresponds(s, Some(t), g) && AddRecord(s, s', t)
    ensures G.Next(g, g', G.AddRecordStep) && Corresponds(s', Some(t), g')
  {
    var l := s.threads[t].pc.local;
    OneMoves(s, s', t, Syncing(l));
    g' := g.(log := s'.log, ends := s'.ends, group := Some(g.group.value.(logged := true)));
  }

  lemma SyncCorresponds(s: System, s': System, t: nat, g: G.State) returns (g': G.State, step: G.Step)
    requires Corresponds(s, Some(t), g) && Sync(s, s', t)
    ensures G.Next(g, g', step) && Corresponds(s', Some(t), g') && (step.SyncStep? || step.StutterStep?)
  {
    OneMoves(s, s', t, s'.threads[t].pc);
    if s.threads[t].writer.sync {
      assert g.queue[0] == s.threads[t].writer;
      g', step := g.(synced := |g.log|), G.SyncStep;
    } else {
      g', step := g, G.StutterStep;
    }
  }

  lemma InsertOneCorresponds(s: System, s': System, t: nat, g: G.State) returns (g': G.State)
    requires Corresponds(s, Some(t), g) && InsertOne(s, s', t)
    ensures G.Next(g, g', G.InsertOneStep) && Corresponds(s', Some(t), g')
  {
    OneMoves(s, s', t, s'.threads[t].pc);
    assert g.queue[0] == s.threads[t].writer;
    g' := g.(mem := s'.mem, group := Some(g.group.value.(inserted := g.group.value.inserted + 1)));
  }

  lemma PublishCorresponds(s: System, s': System, t: nat, g: G.State) returns (g': G.State)
    requires Corresponds(s, Some(t), g) && Publish(s, s', t)
    ensures G.Next(g, g', G.FinishStep) && Corresponds(s', Some(t), g')
  {
    OneMoves(s, s', t, s'.threads[t].pc);
    assert g.queue[0] == s.threads[t].writer;
    var n := g.group.value.n;
    g' := g.(lastSequence := s'.lastSequence, queue := g.queue[n..], answered := g.answered + n, group := None);
  }

  /** The writers are popped in the order in which they arrived, the leader first and its followers behind it. */
  lemma PopCorresponds(s: System, s': System, t: nat, g: G.State) returns (lead': Option<nat>)
    requires Corresponds(s, Some(t), g) && Pop(s, s', t)
    ensures Corresponds(s', lead', g)
  {
    var popped, ready := |s.threads| - |s.writers|, s.writers[0];
    assert ready == popped;
    lead' := if ready == s.threads[t].pc.lastWriter then None else Some(t);
    assert Arrived(s'.threads) == Arrived(s.threads);
    forall i | 0 <= i < |s'.threads| ensures ThreadOk(s'.threads[i], i, popped + 1, lead') {
      assert ThreadOk(s.threads[i], i, popped, Some(t));
    }
  }

  lemma GetSnapshotCorresponds(s: System, s': System, lead: Option<nat>, g: G.State) returns (g': G.State)
    requires Corresponds(s, lead, g) && GetSnapshot(s, s')
    ensures G.Next(g, g', G.GetSnapshotStep) && Corresponds(s', lead, g')
  {
    g' := g.(snapshots := s'.snapshots);
  }

  /** What the leader's local variables are in the serial protocol. */
  lemma LeaderHasGroup(s: System, t: nat, g: G.State)
    requires Corresponds(s, Some(t), g) && t < |s.threads|
    requires s.threads[t].pc.Logging? || s.threads[t].pc.Inserting?
    ensures g.group.Some? && g.group.value.ops == s.threads[t].pc.local.updates
    ensures g.group.value.logged == s.threads[t].pc.Inserting? && s.threads[t].pc.local.base == g.lastSequence
  {
  }

  lemma NextCorresponds(s: System, s': System, step: Step, lead: Option<nat>, g: G.State)
    returns (lead': Option<nat>, g': G.State, gstep: G.Step)
    requires Corresponds(s, lead, g) && Next(s, s', step)
    ensures G.Next(g, g', gstep) && Corresponds(s', lead', g')
  {
    lead', g', gstep := lead, g, G.StutterStep;
    match step
    case ArriveStep(w) =>
      g' := ArriveCorresponds(s, s', w, lead, g);
      gstep := G.ArriveStep(w);
    case TestStep(t) =>
      lead' := TestCorresponds(s, s', t, lead, g);
    case BuildGroupStep(t, n) =>
      IsLeader(s, t, lead, g);
      g', gstep := BuildGroupCorresponds(s, s', t, n, g);
    case AddRecordStep(t) =>
      IsLeader(s, t, lead, g);
      g' := AddRecordCorresponds(s, s', t, g);
      gstep := G.AddRecordStep;
    case SyncStep(t) =>
      IsLeader(s, t, lead, g);
      g', gstep := SyncCorresponds(s, s', t, g);
    case InsertOneStep(t) =>
      IsLeader(s, t, lead, g);
      g' := InsertOneCorresponds(s, s', t, g);
      gstep := G.InsertOneStep;
    case PublishStep(t) =>
      IsLeader(s, t, lead, g);
      g' := PublishCorresponds(s, s', t, g);
      gstep := G.FinishStep;
    case PopStep(t) =>
      IsLeader(s, t, lead, g);
      lead' := PopCorresponds(s, s', t, g);
    case GetSnapshotStep =>
      g' := GetSnapshotCorresponds(s, s', lead, g);
      gstep := G.GetSnapshotStep;
  }

  // ---------- Runs ----------

  /** Refinement: every run of the threads is a run of the serial protocol. */
  lemma {:induction false} Refines(states: seq<System>, steps: seq<Step>, n: nat)
    returns (leads: seq<Option<nat>>, gs: seq<G.State>, gsteps: seq<G.Step>)
    requires Run(states, steps) && n < |states|
    ensures G.Run(gs, gsteps) && |leads| == |gs| == n + 1
    ensures forall i :: 0 <= i <= n ==> Corresponds(states[i], leads[i], gs[i])
  {
    if n == 0 {
      leads, gs, gsteps := [None], [G.Start()], [];
    } else {
      leads, gs, gsteps := Refines(states, steps, n - 1);
      var lead, g, gstep := NextCorresponds(states[n - 1], states[n], steps[n - 1], leads[n - 1], gs[n - 1]);
      leads, gs, gsteps := leads + [lead], gs + [g], gsteps + [gstep];
    }
  }

  /** The state of the serial protocol after n steps of the threads, and the leader, if there is one. */
  lemma Serial(states: seq<System>, steps: seq<Step>, n: nat)
    returns (lead: Option<nat>, gs: seq<G.State>, gsteps: seq<G.Step>)
    requires Run(states, steps) && n < |states|
    ensures G.Run(gs, gsteps) && n < |gs| && Corresponds(states[n], lead, gs[n])
  {
    var leads;
    leads, gs, gsteps := Refines(states, steps, n);
    lead := leads[n];
  }

  /** At no moment of any run are two threads past the test: whoever logs, syncs or inserts does so alone. */
  lemma AtMostOneLeader(states: seq<System>, steps: seq<Step>, n: nat, t: nat, u: nat)
    requires Run(states, steps) && n < |states| && t < |states[n].threads| && u < |states[n].threads|
    requires Leads(states[n].threads[t]) && Leads(states[n].threads[u])
    ensures t == u
  {
    var lead, gs, gsteps := Serial(states, steps, n);
    IsLeader(states[n], t, lead, gs[n]);
    IsLeader(states[n], u, lead, gs[n]);
  }

  /** A thread whose batch was written for it never writes: it waits to find out, or has returned. */
  lemma DoneNeverLeads(states: seq<System>, steps: seq<Step>, n: nat, t: nat)
    requires Run(states, steps) && n < |states| && t < |states[n].threads| && states[n].threads[t].done
    ensures states[n].threads[t].pc.Waiting? || states[n].threads[t].pc.Returned?
    ensures t !in states[n].writers
  {
    var lead, gs, gsteps := Serial(states, steps, n);
    assert ThreadOk(states[n].threads[t], t, |states[n].threads| - |states[n].writers|, lead);
  }

  /** How many writers have been answered, or are about to be by the thread that pops them. */
  ghost predicate Answered(s: System, n: nat) {
    && n <= |s.threads|
    && (forall t :: 0 <= t < |s.threads| && (s.threads[t].done || s.threads[t].pc.Returned?) ==> t < n)
    && if exists t :: 0 <= t < |s.threads| && s.threads[t].pc.Answering?
       then exists t :: 0 <= t < |s.threads| && s.threads[t].pc.Answering? && n == s.threads[t].pc.lastWriter + 1
       else n == |s.threads| - |s.writers|
  }

  lemma AnsweredIs(s: System, lead: Option<nat>, g: G.State)
    requires Corresponds(s, lead, g)
    ensures Answered(s, g.answered)
  {
    var popped := |s.threads| - |s.writers|;
    forall t | 0 <= t < |s.threads| && (s.threads[t].done || s.threads[t].pc.Returned?) ensures t < g.answered {
      assert ThreadOk(s.threads[t], t, popped, lead);
    }
    forall t | 0 <= t < |s.threads| && s.threads[t].pc.Answering? ensures lead == Some(t) {
      IsLeader(s, t, lead, g);
    }
  }

  /** The log cuts the queue of all writers that ever arrived into consecutive runs, and each record holds exactly
      the batches of one of them. */
  lemma RecordsCutTheQueue(states: seq<System>, steps: seq<Step>, n: nat, r: nat)
    requires Run(states, steps) && n < |states| && r < |states[n].log|
    ensures var s := states[n];
            && |s.ends| == |s.log| && G.EndBefore(s.ends, r) < s.ends[r] <= |s.threads|
            && s.log[r].ops == OpsOf(Arrived(s.threads)[G.EndBefore(s.ends, r)..s.ends[r]])
            && s.log[r].first == |OpsOf(Arrived(s.threads)[..G.EndBefore(s.ends, r)])| + 1
  {
    var lead, gs, gsteps := Serial(states, steps, n);
    G.LogIsQueueOrder(gs, gsteps, n);
    G.RunKeepsInv(gs, gsteps, n);
    assert G.RecordIs(gs[n].log, gs[n].ends, gs[n].arrived, r);
  }

  /** No batch is logged twice, and every batch that was answered for is logged. */
  lemma InExactlyOneRecord(states: seq<System>, steps: seq<Step>, n: nat, t: nat)
    requires Run(states, steps) && n < |states| && t < |states[n].threads|
    ensures var s := states[n];
            forall q, r :: G.InRecord(s.ends, q, t) && G.InRecord(s.ends, r, t) ==> q == r
    ensures var s := states[n];
            (s.threads[t].done || s.threads[t].pc.Returned?) && s.threads[t].writer.batch.Some?
            ==> exists r :: G.InRecord(s.ends, r, t)
  {
    var lead, gs, gsteps := Serial(states, steps, n);
    G.InOneRecord(gs, gsteps, n, t);
    AnsweredIs(states[n], lead, gs[n]);
  }

  /** The memtable holds the answered batches in the order in which their writers arrived, once each and numbered
      without gaps, and possibly a beginning of the group of the thread that is inserting; the last sequence number
      covers the answered ones only. */
  lemma MemtableIsQueueOrder(states: seq<System>, steps: seq<Step>, n: nat)
    requires Run(states, steps) && n < |states|
    ensures var s := states[n];
            exists a: nat, more: seq<Op> ::
              && Answered(s, a)
              && s.lastSequence == |OpsOf(Arrived(s.threads)[..a])|
              && s.mem == EntriesFrom(OpsOf(Arrived(s.threads)[..a]) + more, 1)
              && (more == [] || exists t :: 0 <= t < |s.threads| && s.threads[t].pc.Inserting?
                                            && more <= s.threads[t].pc.local.updates)
  {
    var lead, gs, gsteps := Serial(states, steps, n);
    G.MemtableIsQueueOrder(gs, gsteps, n);
    G.RunKeepsInv(gs, gsteps, n);
    AnsweredIs(states[n], lead, gs[n]);
    var s, g := states[n], gs[n];
    var more := if g.group.Some? then g.group.value.ops[..g.group.value.inserted] else [];
    var before := OpsOf(Arrived(s.threads)[..g.answered]);
    assert g.mem == EntriesFrom(before + more, 1);
    assert more == [] || s.threads[lead.value].pc.Inserting?;
    assert Answered(s, g.answered) && s.mem == EntriesFrom(before + more, 1);
  }

  /** A sync write whose thread has returned, or will without writing, is in the part of the log that was synced. */
  lemma AnsweredSyncWritesAreSynced(states: seq<System>, steps: seq<Step>, n: nat, t: nat)
    requires Run(states, steps) && n < |states| && t < |states[n].threads|
    requires states[n].threads[t].done || states[n].threads[t].pc.Returned?
    requires states[n].threads[t].writer.sync && states[n].threads[t].writer.batch.Some?
    ensures var s := states[n];
            s.synced <= |s.log| && OpsOf(Arrived(s.threads)[..t + 1]) <= Ops(s.log[..s.synced])
  {
    var lead, gs, gsteps := Serial(states, steps, n);
    G.RunKeepsInv(gs, gsteps, n);
    AnsweredIs(states[n], lead, gs[n]);
    G.AnsweredSyncWritesAreSynced(gs, gsteps, n, t);
  }

  /** A snapshot sees every batch as a whole or not at all, also while another thread inserts its group. */
  lemma SnapshotsAreWhole(states: seq<System>, steps: seq<Step>, n: nat, snapshot: nat)
    requires Run(states, steps) && n < |states| && snapshot in states[n].snapshots
    ensures var s := states[n];
            exists a: nat :: a <= |s.threads| && snapshot == |OpsOf(Arrived(s.threads)[..a])|
              && forall k :: Read(s.mem, k, snapshot) == ValueAt(MapOf(OpsOf(Arrived(s.threads)[..a])), k)
  {
    var lead, gs, gsteps := Serial(states, steps, n);
    G.SnapshotsAreWhole(gs, gsteps, n, snapshot);
    var s, g := states[n], gs[n];
    var a: nat :| a <= g.answered <= |g.arrived| && snapshot == |G.Upto(g.arrived, a)|
                  && forall k :: Read(g.mem, k, snapshot) == ValueAt(MapOf(G.Upto(g.arrived, a)), k);
    assert G.Upto(g.arrived, a) == OpsOf(Arrived(s.threads)[..a]);
  }
}
