/** The threads that write, and the store they write to (db/db_impl.cc): the leader's append to the log and its raising
    of the last sequence number are the store's steps, and everything else of the store, crashes included, may happen
    between any two steps of the threads. */
module ConcurrentStore {
  import opened InternalKeys
  import opened Visibility
  import opened History
  import opened WriteQueue
  import opened Store
  import opened StoreInvariant
  import Coding
  import ConcurrentReads
  import G = GroupCommit
  import R = StoreRuns
  import T = WriterThreads

  /** The threads of the process that has the store open, and the operations that were in it when it was opened; a
      store that is down has no threads. */
  datatype Joint = Joint(threads: T.System, db: Db, before: seq<Op>, down: bool)

  function Created(): Joint {
    Joint(T.Start(), R.CREATED, [], false)
  }

  // ---------- Steps ----------

  datatype Step = ThreadStep(thread: T.Step) | StoreStep(store: R.Step)

  /** The leader's group as it numbers it, from the last sequence number that it read. The threads count from the
      opening of the store. */
  function GroupRecord(c: Joint, l: T.Local): Record {
    Record(|c.before| + l.base + 1, l.updates)
  }

  /** What a step of a thread does to the store. */
  ghost predicate Writes(c: Joint, db': Db, step: T.Step) {
    match step
    case AddRecordStep(t) =>
      && t < |c.threads.threads| && c.threads.threads[t].pc.Logging?
      && var l := c.threads.threads[t].pc.local;
         |c.before| + l.base + |l.updates| < MAX_SEQUENCE && db' == Logged(c.db, GroupRecord(c, l))
    case PublishStep(t) =>
      && t < |c.threads.threads| && c.threads.threads[t].pc.Inserting?
      && var l := c.threads.threads[t].pc.local;
         db' == Inserted(c.db, GroupRecord(c, l)).(lastSequence := |c.before| + l.base + |l.updates|)
    case GetSnapshotStep => TakeSnapshot(c.db, db')
    case _ => db' == c.db
  }

  /** Steps of the store that are no thread's: background work, a switch by a leader that makes room, a crash. */
  ghost predicate Works(c: Joint, c': Joint, step: R.Step) {
    match step
    case Append(_) => false
    case Acknowledge => false
    case Snapshot => false
    case Switch =>
      && !c.down && c.threads.mutex.None?
      && (exists t :: 0 <= t < |c.threads.threads| && c.threads.threads[t].pc.MakingRoom?)
      && c.db.imm.None? && c' == c.(db := Switched(c.db))
    case Reopen(_, _, _, _, _, _) =>
      R.Next(c.db, step, c'.db) && c' == Joint(T.Start(), c'.db, c'.db.history, false)
    case Abandon(_, _, _) =>
      R.Next(c.db, step, c'.db) && c' == Joint(T.Start(), c'.db, c'.db.history, true)
    case _ =>
      !c.down && R.Next(c.db, step, c'.db) && c' == c.(db := c'.db)
  }

  ghost predicate Next(c: Joint, c': Joint, step: Step) {
    match step
    case ThreadStep(st) =>
      && !c.down && T.Next(c.threads, c'.threads, st) && Writes(c, c'.db, st)
      && c' == c.(threads := c'.threads, db := c'.db)
    case StoreStep(st) => Works(c, c', st)
  }

  /** The step of the store that this is, if it is one. */
  function StoreStepOf(c: Joint, step: Step): Option<R.Step> {
    match step
    case StoreStep(st) => Some(st)
    case ThreadStep(AddRecordStep(t)) =>
      if t < |c.threads.threads| && c.threads.threads[t].pc.Logging? then
        Some(R.Append(GroupRecord(c, c.threads.threads[t].pc.local)))
      else None
    case ThreadStep(PublishStep(_)) => Some(R.Acknowledge)
    case ThreadStep(GetSnapshotStep) => Some(R.Snapshot)
    case ThreadStep(_) => None
  }

  ghost predicate Safe(c: Joint, step: Step) {
    step.StoreStep? ==> R.Safe(c.db, step.store)
  }

  // ---------- What holds between steps ----------

  function LoggedGroup(before: seq<Op>, g: G.State): Option<Record> {
    if g.group.Some? && g.group.value.logged then Some(Record(|before| + g.lastSequence + 1, g.group.value.ops))
    else None
  }

  /** The store has what was in it before and the batches that were answered since, and the group that is logged but
      not answered is in flight. */
  ghost predicate Linked(c: Joint, lead: Option<nat>, g: G.State) {
    && T.Corresponds(c.threads, lead, g) && G.Inv(g)
    && c.db.history == c.before + G.Upto(g.arrived, g.answered)
    && c.db.inflight == LoggedGroup(c.before, g)
  }

  ghost predicate IsLinked(c: Joint) {
    exists lead, g :: Linked(c, lead, g)
  }

  ghost predicate JointInv(c: Joint) {
    Inv(c.db) && (!c.down ==> IsLinked(c))
  }

  lemma OpenedIsLinked(db: Db)
    requires db.inflight.None?
    ensures IsLinked(Joint(T.Start(), db, db.history, false))
  {
    G.InvAtStart();
    assert db.history + [] == db.history;
    assert Linked(Joint(T.Start(), db, db.history, false), None, G.Start());
  }

  lemma LastSequences(c: Joint, lead: Option<nat>, g: G.State)
    requires Inv(c.db) && Linked(c, lead, g)
    ensures c.db.lastSequence == |c.before| + g.lastSequence && c.db.logfileNumber in c.db.logs
  {
  }

  // ---------- Steps of threads ----------

  lemma AddRecordLinked(c: Joint, c': Joint, t: nat, lead: Option<nat>, g: G.State)
    requires Inv(c.db) && Linked(c, lead, g) && Next(c, c', ThreadStep(T.AddRecordStep(t)))
    ensures IsLinked(c')
    ensures R.Next(c.db, StoreStepOf(c, ThreadStep(T.AddRecordStep(t))).value, c'.db)
  {
    hide Inv, T.Corresponds, G.Inv, T.AddRecord;
    LastSequences(c, lead, g);
    T.IsLeader(c.threads, t, lead, g) by {
      assert T.Leads(c.threads.threads[t]);
    }
    T.LeaderHasGroup(c.threads, t, g);
    var g' := T.AddRecordCorresponds(c.threads, c'.threads, t, g);
    G.NextKeepsInv(g, g', G.AddRecordStep);
    assert Linked(c', lead, g');
  }

  lemma PublishLinked(c: Joint, c': Joint, t: nat, lead: Option<nat>, g: G.State)
    requires Inv(c.db) && Linked(c, lead, g) && Next(c, c', ThreadStep(T.PublishStep(t)))
    ensures IsLinked(c') && R.Next(c.db, R.Acknowledge, c'.db)
  {
    hide Inv, T.Corresponds, G.Inv, T.Publish, G.Upto;
    LastSequences(c, lead, g);
    T.IsLeader(c.threads, t, lead, g) by {
      assert T.Leads(c.threads.threads[t]);
    }
    T.LeaderHasGroup(c.threads, t, g);
    var g' := T.PublishCorresponds(c.threads, c'.threads, t, g);
    G.NextKeepsInv(g, g', G.FinishStep);
    GroupIsNext(c.before, g);
    assert Linked(c', lead, g');
  }

  lemma GroupIsNext(before: seq<Op>, g: G.State)
    requires G.Inv(g) && g.group.Some?
    ensures var n := g.answered + g.group.value.n;
            n <= |g.arrived| && before + G.Upto(g.arrived, n)
                == before + G.Upto(g.arrived, g.answered) + g.group.value.ops
  {
    Coding.Associate(before, G.Upto(g.arrived, g.answered), g.group.value.ops);
  }

  lemma QueueOf(g: G.State)
    requires G.Inv(g)
    ensures g.answered <= |g.arrived| && g.queue == g.arrived[g.answered..]
  {
  }

  /** Steps that are none of the store's leave what was answered and what is in flight as it is. */
  lemma QuietStep(before: seq<Op>, g: G.State, g': G.State, step: G.Step)
    requires G.Inv(g) && G.Next(g, g', step)
    requires !step.AddRecordStep? && !step.FinishStep?
    ensures G.Inv(g') && G.Upto(g'.arrived, g'.answered) == G.Upto(g.arrived, g.answered)
    ensures LoggedGroup(before, g') == LoggedGroup(before, g)
  {
    hide G.Inv, G.Upto, IsGroup;
    G.NextKeepsInv(g, g', step);
    QueueOf(g);
    match step
    case ArriveStep(w) => G.MoreArrive(g.arrived, w, g.answered);
    case AnswerEmptyStep => EmptyAddsNothing(g.arrived, g.answered);
    case _ =>
  }

  lemma EmptyAddsNothing(arrived: seq<Writer>, n: nat)
    requires n < |arrived| && arrived[n].batch.None?
    ensures G.Upto(arrived, n + 1) == G.Upto(arrived, n)
  {
    OneMore(arrived, n);
  }

  lemma QuietLinked(c: Joint, c': Joint, lead: Option<nat>, g: G.State, lead': Option<nat>, g': G.State, step: G.Step)
    requires Linked(c, lead, g) && G.Next(g, g', step) && T.Corresponds(c'.threads, lead', g')
    requires !step.AddRecordStep? && !step.FinishStep? && c'.before == c.before
    requires c'.db.history == c.db.history && c'.db.inflight == c.db.inflight
    ensures IsLinked(c')
  {
    hide T.Corresponds, G.Next;
    QuietStep(c.before, g, g', step);
    assert Linked(c', lead', g');
  }

  lemma OtherLinked(c: Joint, c': Joint, st: T.Step, lead: Option<nat>, g: G.State)
    requires Linked(c, lead, g) && Next(c, c', ThreadStep(st)) && !st.AddRecordStep? && !st.PublishStep?
    ensures IsLinked(c')
  {
    hide T.Corresponds, G.Inv, T.Arrive, T.Test, T.BuildGroup, T.Sync, T.InsertOne, T.Pop, T.GetSnapshot, Linked,
        IsLinked;
    var lead', g', gstep := QuietCorresponds(c.threads, c'.threads, st, lead, g) by {
      LinkedCorresponds(c, lead, g);
    }
    QuietLinked(c, c', lead, g, lead', g', gstep);
  }

  lemma LinkedCorresponds(c: Joint, lead: Option<nat>, g: G.State)
    requires Linked(c, lead, g)
    ensures T.Corresponds(c.threads, lead, g)
  {
  }

  /** What neither logs nor publishes does neither in the serial protocol. */
  lemma QuietCorresponds(s: T.System, s': T.System, st: T.Step, lead: Option<nat>, g: G.State)
    returns (lead': Option<nat>, g': G.State, gstep: G.Step)
    requires T.Corresponds(s, lead, g) && T.Next(s, s', st) && !st.AddRecordStep? && !st.PublishStep?
    ensures G.Next(g, g', gstep) && T.Corresponds(s', lead', g') && !gstep.AddRecordStep? && !gstep.FinishStep?
  {
    hide T.Corresponds, G.Inv;
    lead', g', gstep := lead, g, G.StutterStep;
    match st
    case ArriveStep(w) =>
      g' := T.ArriveCorresponds(s, s', w, lead, g);
      gstep := G.ArriveStep(w);
    case TestStep(t) =>
      lead' := T.TestCorresponds(s, s', t, lead, g);
    case BuildGroupStep(t, n) =>
      T.IsLeader(s, t, lead, g);
      g', gstep := T.BuildGroupCorresponds(s, s', t, n, g);
    case SyncStep(t) =>
      T.IsLeader(s, t, lead, g);
      g', gstep := T.SyncCorresponds(s, s', t, g);
    case InsertOneStep(t) =>
      T.IsLeader(s, t, lead, g);
      g' := T.InsertOneCorresponds(s, s', t, g);
      gstep := G.InsertOneStep;
    case PopStep(t) =>
      T.IsLeader(s, t, lead, g);
      lead' := T.PopCorresponds(s, s', t, g);
    case GetSnapshotStep =>
      g' := T.GetSnapshotCorresponds(s, s', lead, g);
      gstep := G.GetSnapshotStep;
  }

  // ---------- Steps of the store ----------

  /** A leader that makes room has not logged anything yet. */
  lemma SwitchLinked(c: Joint, c': Joint, lead: Option<nat>, g: G.State)
    requires Linked(c, lead, g) && Works(c, c', R.Switch)
    ensures IsLinked(c') && R.Next(c.db, R.Switch, c'.db)
  {
    var t :| 0 <= t < |c.threads.threads| && c.threads.threads[t].pc.MakingRoom?;
    T.IsLeader(c.threads, t, lead, g);
    assert Linked(c', lead, g);
  }

  lemma BackgroundLeavesHistory(db: Db, db': Db, st: R.Step)
    requires R.Next(db, st, db') && !st.Append? && !st.Acknowledge? && !st.Reopen? && !st.Abandon?
    ensures db'.history == db.history && db'.inflight == db.inflight
  {
  }

  lemma StaysLinked(c: Joint, c': Joint)
    requires IsLinked(c) && c' == c.(db := c'.db)
    requires c'.db.history == c.db.history && c'.db.inflight == c.db.inflight
    ensures IsLinked(c')
  {
    var lead, g := LinkOf(c);
    assert Linked(c', lead, g);
  }

  lemma WorkLinked(c: Joint, c': Joint, st: R.Step)
    requires JointInv(c) && Works(c, c', st)
    ensures R.Next(c.db, st, c'.db) && (!c'.down ==> IsLinked(c'))
  {
    hide Inv, IsLinked;
    match st
    case Reopen(_, _, _, _, _, _) => OpenedIsLinked(c'.db);
    case Switch =>
      var lead, g := LinkOf(c);
      SwitchLinked(c, c', lead, g);
    case _ =>
      if !c'.down {
        BackgroundLeavesHistory(c.db, c'.db, st);
        StaysLinked(c, c');
      }
  }

  // ---------- Every step ----------

  /** Refinement: every step of the threads and the store together is a step of the store, or leaves it alone. */
  lemma NextIsStoreStep(c: Joint, c': Joint, step: Step)
    requires JointInv(c) && Next(c, c', step)
    ensures !c'.down ==> IsLinked(c')
    ensures match StoreStepOf(c, step)
            case Some(st) => R.Next(c.db, st, c'.db)
            case None => c'.db == c.db
  {
    hide Inv, T.Corresponds, G.Inv, IsLinked;
    match step
    case StoreStep(st) => WorkLinked(c, c', st);
    case ThreadStep(st) =>
      var lead, g := LinkOf(c);
      match st {
        case AddRecordStep(t) => AddRecordLinked(c, c', t, lead, g);
        case PublishStep(t) => PublishLinked(c, c', t, lead, g);
        case _ => OtherLinked(c, c', st, lead, g);
      }
  }

  lemma LinkOf(c: Joint) returns (lead: Option<nat>, g: G.State)
    requires IsLinked(c)
    ensures Linked(c, lead, g)
  {
    lead, g :| Linked(c, lead, g);
  }

  lemma NextKeepsInv(c: Joint, c': Joint, step: Step)
    requires JointInv(c) && Next(c, c', step) && Safe(c, step)
    ensures JointInv(c')
  {
    hide Inv, IsLinked, Next;
    NextIsStoreStep(c, c', step);
    if StoreStepOf(c, step).Some? {
      R.StepKeepsInv(c.db, StoreStepOf(c, step).value, c'.db);
    }
  }

  // ---------- Runs ----------

  ghost predicate Run(states: seq<Joint>, steps: seq<Step>) {
    && |states| == |steps| + 1 && states[0] == Created()
    && forall i {:trigger steps[i]} ::
       0 <= i < |steps| ==> Next(states[i], states[i + 1], steps[i]) && Safe(states[i], steps[i])
  }

  lemma {:induction false} RunKeepsInv(states: seq<Joint>, steps: seq<Step>, n: nat)
    requires Run(states, steps) && n < |states|
    ensures JointInv(states[n])
  {
    hide JointInv, Next, Safe;
    if n == 0 {
      CreatedIsJointInv();
    } else {
      RunKeepsInv(states, steps, n - 1);
      assert Next(states[n - 1], states[n], steps[n - 1]) && Safe(states[n - 1], steps[n - 1]);
      NextKeepsInv(states[n - 1], states[n], steps[n - 1]);
    }
  }

  lemma CreatedIsJointInv()
    ensures JointInv(Created())
  {
    hide Inv;
    R.CreatedSatisfiesInv();
    OpenedIsLinked(R.CREATED);
  }

  lemma {:induction false} HistoryGrows(states: seq<Joint>, steps: seq<Step>, i: nat, j: nat)
    requires Run(states, steps) && i <= j < |states|
    ensures states[i].db.history <= states[j].db.history
  {
    hide JointInv, Next, Safe;
    if i < j {
      HistoryGrows(states, steps, i, j - 1);
      RunKeepsInv(states, steps, j - 1);
      assert Next(states[j - 1], states[j], steps[j - 1]);
      NextIsStoreStep(states[j - 1], states[j], steps[j - 1]);
      var st := StoreStepOf(states[j - 1], steps[j - 1]);
      if st.Some? {
        R.HistoryGrows(states[j - 1].db, st.value, states[j].db);
      }
    }
  }

  /** Thread t has returned, or was told that its batch has been written. */
  predicate IsAnswered(c: Joint, t: nat) {
    !c.down && t < |c.threads.threads| && (c.threads.threads[t].done || c.threads.threads[t].pc.Returned?)
  }

  /** The store's operations up to and with those of thread t, since it was opened. */
  function WrittenBy(c: Joint, t: nat): seq<Op>
    requires t < |c.threads.threads|
  {
    c.before + OpsOf(T.Arrived(c.threads.threads)[..t + 1])
  }

  lemma AnsweredIsInHistory(c: Joint, t: nat)
    requires JointInv(c) && IsAnswered(c, t)
    ensures WrittenBy(c, t) <= c.db.history
  {
    hide Inv;
    var lead, g := LinkOf(c);
    T.AnsweredIs(c.threads, lead, g);
    G.UptoGrows(g.arrived, t + 1, g.answered);
  }

  /** No acknowledged write of any thread is lost: in every later state, through any crashes, the store reads as the
      map of an operation sequence that begins with what was in the store when it was opened, the batches of the
      threads that arrived before, and this thread's. */
  lemma AnsweredWritesSurvive(states: seq<Joint>, steps: seq<Step>, i: nat, j: nat, t: nat, k: Key)
    requires Run(states, steps) && i <= j < |states| && IsAnswered(states[i], t)
    ensures WrittenBy(states[i], t) <= states[j].db.history
    ensures var db := states[j].db; Read(Visible(db), k, db.lastSequence) == ValueAt(MapOf(db.history), k)
  {
    hide Run, Visible, Read;
    RunKeepsInv(states, steps, i);
    RunKeepsInv(states, steps, j);
    HistoryGrows(states, steps, i, j);
    AnsweredIsInHistory(states[i], t);
    ReadsTheMap(states[j].db, k);
  }

  lemma ReadsTheMap(db: Db, k: Key)
    requires Inv(db)
    ensures Read(Visible(db), k, db.lastSequence) == ValueAt(MapOf(db.history), k)
  {
    ReadsAreMaps(db, k, db.lastSequence);
    assert db.history[..|db.history|] == db.history;
  }

  // ---------- Reading while a group is inserted ----------

  /** What a leader has inserted of its group. */
  ghost function PartOfGroup(c: Joint): set<Entry> {
    set t, i | 0 <= t < |c.threads.threads| && c.threads.threads[t].pc.Inserting?
               && 0 <= i < c.threads.threads[t].pc.inserted && i < |c.threads.threads[t].pc.local.updates| ::
      OpEntry(c.threads.threads[t].pc.local.updates[i], |c.before| + c.threads.threads[t].pc.local.base + 1 + i)
  }

  lemma InsertingBase(c: Joint, t: nat)
    requires JointInv(c) && !c.down && t < |c.threads.threads| && c.threads.threads[t].pc.Inserting?
    ensures |c.before| + c.threads.threads[t].pc.local.base == c.db.lastSequence
  {
    hide Inv, T.Corresponds, G.Inv;
    var lead, g := LinkOf(c);
    LastSequences(c, lead, g);
    T.IsLeader(c.threads, t, lead, g);
    T.LeaderHasGroup(c.threads, t, g);
  }

  lemma PartIsNewer(c: Joint)
    requires JointInv(c) && !c.down
    ensures forall e :: e in PartOfGroup(c) ==> e.key.sequence > c.db.lastSequence
  {
    hide JointInv;
    forall t | 0 <= t < |c.threads.threads| && c.threads.threads[t].pc.Inserting?
      ensures |c.before| + c.threads.threads[t].pc.local.base == c.db.lastSequence
    {
      InsertingBase(c, t);
    }
  }

  lemma NewerIsUnseen(S: set<Entry>, newer: set<Entry>, k: Key, s: nat)
    requires UniqueSequences(S) && forall e :: e in newer ==> e.key.sequence > s
    ensures Read(S + newer, k, s) == Read(S, k, s)
  {
    forall e ensures IsNewest(S + newer, k, s, e) <==> IsNewest(S, k, s, e) {}
    if e :| IsNewest(S, k, s, e) {
      FindIs(S, k, s, e);
    }
  }

  /** Whoever reads at a sequence number it may hold sees whole batches: the map after as many operations as the number
      says, at every moment of every run, however much of a group is in the memtable already. */
  lemma ReadsBesideWriters(states: seq<Joint>, steps: seq<Step>, n: nat, k: Key, s: nat)
    requires Run(states, steps) && n < |states| && !states[n].down
    requires SmallestSnapshot(states[n].db) <= s <= states[n].db.lastSequence <= |states[n].db.history|
    ensures var c := states[n]; Read(Visible(c.db) + PartOfGroup(c), k, s) == ValueAt(MapOf(c.db.history[..s]), k)
  {
    hide Inv, IsLinked, Run, Visible, Read, PartOfGroup;
    RunKeepsInv(states, steps, n);
    var c := states[n];
    ConcurrentReads.MemtableIsNewest(c.db);
    PartIsNewer(c);
    NewerIsUnseen(Visible(c.db), PartOfGroup(c), k, s);
    ReadsAreMaps(c.db, k, s);
  }
}
