/** One inserter and any number of readers on one skip list, interleaved between single pointer
    stores and loads. */
module SkipListSteps {
  import opened InternalKeys
  import opened Visibility
  import opened SkipLists

  /** An insertion that has linked its node on the levels below `level`; `own` says whether the node's own
      pointer is set on this one. */
  datatype Inserter =
    | Idle
    | Linking(key: IKey, height: nat, prev: seq<Node>, level: nat, own: bool)

  datatype System = System(list: List, inserter: Inserter, readers: seq<Search>)

  function NewList(): System {
    System(Empty(), Idle, [])
  }

  // ---------- Steps ----------

  /** Searches the place of a key that is not in the list and raises max_height_ to its height. */
  ghost predicate StartInsert(s: System, s': System, key: IKey, height: nat) {
    && s.inserter.Idle? && |s.list.levels| == MAX_HEIGHT >= s.list.maxHeight && key !in Keys(s.list)
    && 1 <= height <= MAX_HEIGHT
    && s'.list == s.list.(maxHeight := if height > s.list.maxHeight then height else s.list.maxHeight)
    && s'.inserter.Linking? && s'.inserter == Linking(key, height, s'.inserter.prev, 0, false)
    && |s'.inserter.prev| == MAX_HEIGHT
    && (forall l :: 0 <= l < s.list.maxHeight ==> Precedes(s.list.levels[l], s'.inserter.prev[l], key))
    && (forall l :: s.list.maxHeight <= l < MAX_HEIGHT ==> s'.inserter.prev[l] == Head)
    && s'.readers == s.readers
  }

  ghost predicate Enabled(s: System) {
    var i := s.inserter;
    && i.Linking? && i.level < i.height <= |i.prev| && i.height <= |s.list.levels|
    && i.prev[i.level] in s.list.levels[i.level]
  }

  /** x->NoBarrier_SetNext(i, prev[i]->NoBarrier_Next(i)) */
  ghost predicate SetOwn(s: System, s': System) {
    var i := s.inserter;
    && Enabled(s) && !i.own
    && var links := s.list.levels[i.level];
       s' == s.(list := s.list.(levels := s.list.levels[i.level := links[At(i.key) := links[i.prev[i.level]]]]),
                inserter := i.(own := true))
  }

  /** prev[i]->SetNext(i, x) */
  ghost predicate Link(s: System, s': System) {
    var i := s.inserter;
    && Enabled(s) && i.own
    && var links := s.list.levels[i.level];
       s' == s.(list := s.list.(levels := s.list.levels[i.level := links[i.prev[i.level] := Some(i.key)]]),
                inserter := if i.level + 1 == i.height then Idle else i.(level := i.level + 1, own := false))
  }

  /** A reader starts a search. Its load of max_height_ may return an old value. */
  ghost predicate Begin(s: System, s': System, r: nat, target: Option<IKey>, height: nat) {
    && 1 <= height <= s.list.maxHeight && r <= |s.readers|
    && var search := Searching(target, Head, height - 1);
       s' == s.(readers := if r == |s.readers| then s.readers + [search] else s.readers[r := search])
  }

  /** A reader follows one pointer. */
  ghost predicate Read(s: System, s': System, r: nat) {
    && r < |s.readers| && s.readers[r].Searching? && |s.list.levels| == MAX_HEIGHT && SearchOk(s.list, s.readers[r])
    && s' == s.(readers := s.readers[r := Advance(s.list, s.readers[r])])
  }

  datatype Step =
    | StartInsertStep(key: IKey, height: nat)
    | SetOwnStep
    | LinkStep
    | BeginStep(r: nat, target: Option<IKey>, height: nat)
    | ReadStep(r: nat)

  ghost predicate Next(s: System, s': System, step: Step) {
    match step
    case StartInsertStep(key, height) => StartInsert(s, s', key, height)
    case SetOwnStep => SetOwn(s, s')
    case LinkStep => Link(s, s')
    case BeginStep(r, target, height) => Begin(s, s', r, target, height)
    case ReadStep(r) => Read(s, s', r)
  }

  // ---------- The invariant ----------

  ghost predicate Unlinked(levels: seq<Links>, i: Inserter, l: nat)
    requires i.Linking? && l < |levels| && l < |i.prev|
  {
    Precedes(levels[l], i.prev[l], i.key) && i.key !in Linked(levels[l])
  }

  /** Only linked nodes have pointers, except for the one that is being linked. */
  ghost predicate SettledBut(links: Links, key: IKey) {
    forall k :: At(k) in links ==> k == key || k in Linked(links)
  }

  ghost predicate InserterOk(list: List, i: Inserter)
    requires |list.levels| == MAX_HEIGHT
  {
    match i
    case Idle =>
      forall l :: 0 <= l < MAX_HEIGHT ==> Settled(list.levels[l])
    case Linking(key, height, prev, level, own) =>
      && level < height <= list.maxHeight <= MAX_HEIGHT && |prev| == MAX_HEIGHT
      && (forall l :: level <= l < height ==> Unlinked(list.levels, i, l))
      && (0 < level ==> key in Linked(list.levels[level - 1]))
      && (forall l :: 0 <= l < MAX_HEIGHT && l != level ==> Settled(list.levels[l]))
      && var links := list.levels[level];
         if own then
           && At(key) in links && prev[level] in links && links[At(key)] == links[prev[level]]
           && SettledBut(links, key)
         else Settled(links)
  }

  ghost predicate Inv(s: System) {
    && Ok(s.list) && InserterOk(s.list, s.inserter)
    && forall r :: 0 <= r < |s.readers| ==> SearchOk(s.list, s.readers[r])
  }

  lemma InvAtStart()
    ensures Inv(NewList())
  {
    var links: Links := map[Head := None];
    assert Linked(links) == {};
    forall x | OnLevel(links, x) ensures IsNext(Linked(links), x, links[x]) {
    }
  }

  /** Levels only gain nodes, so whatever a reader stands on stays. */
  ghost predicate Grows(list: List, list': List) {
    && |list.levels| == |list'.levels| == MAX_HEIGHT
    && forall l, x {:trigger OnLevel(list'.levels[l], x)} ::
         0 <= l < MAX_HEIGHT && OnLevel(list.levels[l], x) ==> OnLevel(list'.levels[l], x)
  }

  lemma ReadersStay(s: System, s': System)
    requires Inv(s) && Grows(s.list, s'.list) && s'.readers == s.readers
    ensures forall r :: 0 <= r < |s'.readers| ==> SearchOk(s'.list, s'.readers[r])
  {
    forall r | 0 <= r < |s'.readers| ensures SearchOk(s'.list, s'.readers[r]) {
      assert SearchOk(s.list, s.readers[r]);
    }
  }

  lemma StartInsertKeepsInv(s: System, s': System, key: IKey, height: nat)
    requires Inv(s) && StartInsert(s, s', key, height)
    ensures Inv(s')
  {
    forall l | 0 <= l < MAX_HEIGHT ensures key !in Linked(s.list.levels[l]) {
      OnLowestLevel(s.list.levels, l, key);
    }
    forall l | 0 <= l < height ensures Unlinked(s'.list.levels, s'.inserter, l) {
      if l >= s.list.maxHeight {
        assert OnLevel(s.list.levels[l], Head);
      }
    }
    ReadersStay(s, s');
  }

  /** Replacing a level by one that has gained at most a key of the level below. */
  lemma LevelGains(s: System, s': System, l: nat, links: Links, gained: set<IKey>)
    requires Inv(s) && l < s.list.maxHeight && s'.readers == s.readers
    requires s'.list == s.list.(levels := s.list.levels[l := links])
    requires LevelOk(links) && Linked(links) == Linked(s.list.levels[l]) + gained
    requires forall x :: x in s.list.levels[l] ==> x in links
    requires 0 < l ==> gained <= Linked(s.list.levels[l - 1])
    ensures Ok(s'.list)
    ensures forall r :: 0 <= r < |s'.readers| ==> SearchOk(s'.list, s'.readers[r])
  {
    GainsStayOk(s.list, l, links, gained);
    ReadersStay(s, s');
  }

  lemma SetOwnKeepsInv(s: System, s': System)
    requires Inv(s) && SetOwn(s, s')
    ensures Inv(s')
  {
    var i := s.inserter;
    var links := s.list.levels[i.level];
    var after := links[At(i.key) := links[i.prev[i.level]]];
    assert Unlinked(s.list.levels, i, i.level);
    OwnPointer(links, i.prev[i.level], i.key);
    LevelGains(s, s', i.level, after, {});
    InserterAfter(s.list, i, s'.list, s'.inserter, after);
  }

  /** What an insertion knows about the levels above does not change with a store to its current level. */
  lemma InserterAfter(list: List, i: Inserter, list': List, i': Inserter, links: Links)
    requires |list.levels| == MAX_HEIGHT && InserterOk(list, i) && i.Linking?
    requires list' == list.(levels := list.levels[i.level := links])
    requires if i.own then SettledBut(list.levels[i.level], i.key) && Settled(links) && i.key in Linked(links)
             else SettledBut(links, i.key) && Precedes(links, i.prev[i.level], i.key) && i.key !in Linked(links)
                  && At(i.key) in links && links[At(i.key)] == links[i.prev[i.level]]
    requires if !i.own then i' == i.(own := true)
             else i' == if i.level + 1 == i.height then Idle else i.(level := i.level + 1, own := false)
    ensures InserterOk(list', i')
  {
    if i'.Linking? {
      forall l | i'.level <= l < i'.height ensures Unlinked(list'.levels, i', l) {
        assert Unlinked(list.levels, i, l);
      }
    }
  }

  lemma LinkKeepsInv(s: System, s': System)
    requires Inv(s) && Link(s, s')
    ensures Inv(s')
  {
    var i := s.inserter;
    var links := s.list.levels[i.level];
    var after := links[i.prev[i.level] := Some(i.key)];
    assert Unlinked(s.list.levels, i, i.level);
    Publish(links, i.prev[i.level], i.key);
    LevelGains(s, s', i.level, after, {i.key});
    InserterAfter(s.list, i, s'.list, s'.inserter, after);
  }

  lemma NextKeepsInv(s: System, s': System, step: Step)
    requires Inv(s) && Next(s, s', step)
    ensures Inv(s')
  {
    match step
    case StartInsertStep(key, height) => StartInsertKeepsInv(s, s', key, height);
    case SetOwnStep => SetOwnKeepsInv(s, s');
    case LinkStep => LinkKeepsInv(s, s');
    case BeginStep(r, target, height) =>
      assert OnLevel(s.list.levels[height - 1], Head);
    case ReadStep(r) => AdvanceIsRight(s.list, s.readers[r]);
  }

  // ---------- Runs ----------

  /** A key enters the list with the store that links it on the lowest level, and no key ever leaves it. */
  lemma KeysGrow(s: System, s': System, step: Step)
    requires Inv(s) && Next(s, s', step)
    ensures |s'.list.levels| == MAX_HEIGHT
    ensures Keys(s'.list) == Keys(s.list) + if step.LinkStep? && s.inserter.level == 0 then {s.inserter.key} else {}
  {
    NextKeepsInv(s, s', step);
    if step.SetOwnStep? || step.LinkStep? {
      var i := s.inserter;
      assert Unlinked(s.list.levels, i, i.level);
      if step.SetOwnStep? {
        OwnPointer(s.list.levels[i.level], i.prev[i.level], i.key);
      } else {
        Publish(s.list.levels[i.level], i.prev[i.level], i.key);
      }
    }
  }

  ghost predicate Run(states: seq<System>, steps: seq<Step>) {
    && |states| == |steps| + 1 && states[0] == NewList()
    && forall n {:trigger steps[n]} :: 0 <= n < |steps| ==> Next(states[n], states[n + 1], steps[n])
  }

  lemma {:induction false} RunKeepsInv(states: seq<System>, steps: seq<Step>, n: nat)
    requires Run(states, steps) && n < |states|
    ensures Inv(states[n])
  {
    if n == 0 {
      InvAtStart();
    } else {
      RunKeepsInv(states, steps, n - 1);
      NextKeepsInv(states[n - 1], states[n], steps[n - 1]);
    }
  }

  lemma {:induction false} KeysStay(states: seq<System>, steps: seq<Step>, i: nat, j: nat)
    requires Run(states, steps) && i <= j < |states|
    ensures |states[i].list.levels| == |states[j].list.levels| == MAX_HEIGHT
    ensures Keys(states[i].list) <= Keys(states[j].list)
  {
    hide Next, Keys;
    RunKeepsInv(states, steps, j);
    if i < j {
      KeysStay(states, steps, i, j - 1);
      RunKeepsInv(states, steps, j - 1);
      KeysGrow(states[j - 1], states[j], steps[j - 1]);
    }
  }

  /** From its start at step i on, before step j, reader r has not started another search. */
  ghost predicate SearchesFrom(steps: seq<Step>, i: nat, j: nat, r: nat, target: Option<IKey>) {
    && i < j <= |steps| && steps[i].BeginStep? && steps[i].r == r && steps[i].target == target
    && forall n :: i < n < j ==> !(steps[n].BeginStep? && steps[n].r == r)
  }

  lemma {:induction false} SameTarget(
    states: seq<System>, steps: seq<Step>, i: nat, j: nat, r: nat, target: Option<IKey>)
    requires Run(states, steps) && SearchesFrom(steps, i, j, r, target)
    ensures r < |states[j].readers| && !states[j].readers[r].Resting? && states[j].readers[r].target == target
  {
    if i + 1 < j {
      SameTarget(states, steps, i, j - 1, r, target);
    }
    assert Next(states[j - 1], states[j], steps[j - 1]);
  }

  /** A search that starts at step i and ends at step j, whatever the inserter and the other readers do
      meanwhile, finds the place of its target among the keys of the list at the moment of its last read.
      In particular it does not miss a key that was in the list when it started. */
  lemma ConcurrentSearch(states: seq<System>, steps: seq<Step>, i: nat, j: nat, r: nat, target: Option<IKey>)
    requires Run(states, steps) && SearchesFrom(steps, i, j, r, target)
    requires j < |steps| && steps[j] == ReadStep(r) && states[j + 1].readers[r].Stopped?
    ensures |states[i].list.levels| == |states[j].list.levels| == MAX_HEIGHT
    ensures var found := states[j + 1].readers[r];
            && IsPlace(Keys(states[j].list), target, found.at, found.next)
            && forall k :: k in Keys(states[i].list) ==>
                 if Short(k, target) then found.at.At? && !Less(found.at.key, k)
                 else found.next.Some? && !Less(k, found.next.value)
  {
    SameTarget(states, steps, i, j, r, target);
    RunKeepsInv(states, steps, j);
    assert Next(states[j], states[j + 1], steps[j]);
    AdvanceIsRight(states[j].list, states[j].readers[r]);
    KeysStay(states, steps, i, j);
  }

  /** At every moment of every run, following the pointers of a level from the head visits exactly the keys
      linked there, in increasing order, and every key of a level is also on the level below. */
  lemma LevelsAreSortedSublists(states: seq<System>, steps: seq<Step>, n: nat, l: nat)
    requires Run(states, steps) && n < |states| && l < MAX_HEIGHT
    ensures |states[n].list.levels| == MAX_HEIGHT
    ensures var links := states[n].list.levels[l];
            && LevelOk(links) && OnLevel(links, Head)
            && Increasing(Walk(links, Head))
            && (forall k :: k in Walk(links, Head) <==> k in Linked(links))
            && (0 < l ==> Linked(links) <= Linked(states[n].list.levels[l - 1]))
  {
    RunKeepsInv(states, steps, n);
    WalkVisitsAll(states[n].list.levels[l], Head);
  }
}
