/** Running a compaction (db/version_set.cc, class Compaction; db/db_impl.cc, DoCompactionWork). */
module CompactionWork {
  import opened InternalKeys
  import opened Visibility
  import opened Versions
  import opened CompactionRules

  ghost predicate SortedLevels(v: Version) {
    forall l :: 1 <= l < NUM_LEVELS ==> AllWellFormed(v[l]) && LevelSorted(v[l])
  }

  ghost predicate Covered(files: seq<File>, k: Key) {
    exists f :: f in files && f.smallest.user <= k <= f.largest.user
  }

  /** The files behind a level's cursor end before the last key that was asked about. */
  ghost predicate Behind(files: seq<File>, cursor: nat, lastKey: Option<Key>) {
    && cursor <= |files|
    && forall i :: 0 <= i < cursor ==> lastKey.Some? && files[i].largest.user < lastKey.value
  }

  /** How far the entries have come among the grandparents, and how much of them the current output overlaps. */
  datatype Overlapped = Overlapped(index: nat, seenKey: bool, bytes: nat)

  /** Past the grandparents that end before the key. */
  function Passed(grandparents: seq<File>, o: Overlapped, key: IKey): Overlapped
    decreases |grandparents| - o.index
  {
    if o.index < |grandparents| && Less(grandparents[o.index].largest, key) then
      Passed(grandparents, Overlapped(o.index + 1, o.seenKey,
                                      o.bytes + if o.seenKey then grandparents[o.index].size else 0), key)
    else o.(seenKey := true)
  }

  class Compaction {
    const level: nat
    const version: Version
    const grandparents: seq<File>
    const maxOverlap: nat
    const levelPtrs: array<nat>
    var grandparentIndex: nat
    var seenKey: bool
    var overlappedBytes: nat
    ghost var lastKey: Option<Key>

    constructor (level: nat, version: Version, grandparents: seq<File>, maxOverlap: nat)
      requires SortedLevels(version) && level + 1 < NUM_LEVELS
      ensures Valid() && fresh(levelPtrs) && lastKey == None
      ensures this.level == level && this.version == version && this.grandparents == grandparents
      ensures this.maxOverlap == maxOverlap && Overlap() == Overlapped(0, false, 0)
    {
      this.level, this.version, this.grandparents, this.maxOverlap := level, version, grandparents, maxOverlap;
      levelPtrs := new nat[NUM_LEVELS](_ => 0);
      grandparentIndex, seenKey, overlappedBytes := 0, false, 0;
      lastKey := None;
    }

    ghost predicate Valid()
      reads this, levelPtrs
    {
      && level + 1 < NUM_LEVELS
      && levelPtrs.Length == NUM_LEVELS
      && SortedLevels(version)
      && grandparentIndex <= |grandparents|
      && forall l :: level + 2 <= l < NUM_LEVELS ==> Behind(version[l], levelPtrs[l], lastKey)
    }

    function Overlap(): Overlapped
      reads this
    {
      Overlapped(grandparentIndex, seenKey, overlappedBytes)
    }

    /** The cursors only move forward, and still answer exactly, because keys arrive in order. */
    method IsBaseLevelForKey(k: Key) returns (r: bool)
      requires Valid() && (lastKey.Some? ==> lastKey.value <= k)
      modifies this`lastKey, levelPtrs
      ensures Valid() && lastKey == Some(k)
      ensures r <==> BaseLevel(version, level, k)
    {
      forall l | level + 2 <= l < NUM_LEVELS ensures Behind(version[l], levelPtrs[l], Some(k)) {
        assert Behind(version[l], levelPtrs[l], lastKey);
      }
      lastKey := Some(k);
      for l := level + 2 to NUM_LEVELS
        invariant Valid() && lastKey == Some(k)
        invariant forall m :: level + 2 <= m < l ==> !Covered(version[m], k)
      {
        var covered := Advance(l, k);
        if covered {
          var f :| f in version[l] && f.smallest.user <= k <= f.largest.user;
          return false;
        }
      }
      assert forall l, f :: level + 2 <= l < NUM_LEVELS && f in version[l] ==> !Covered(version[l], k);
      return true;
    }

    method Advance(l: nat, k: Key) returns (covered: bool)
      requires Valid() && level + 2 <= l < NUM_LEVELS && lastKey == Some(k)
      modifies levelPtrs
      ensures Valid()
      ensures covered <==> Covered(version[l], k)
    {
      var files := version[l];
      assert Behind(files, levelPtrs[l], lastKey);
      while levelPtrs[l] < |files|
        invariant Valid()
        invariant Behind(files, levelPtrs[l], lastKey)
        decreases |files| - levelPtrs[l]
      {
        var f := files[levelPtrs[l]];
        if k <= f.largest.user {
          LaterFilesStartLater(files, levelPtrs[l], k);
          return k >= f.smallest.user;
        }
        levelPtrs[l] := levelPtrs[l] + 1;
      }
      return false;
    }

    /** Whether to start a new output file: the current one would overlap too much of level + 2. */
    method ShouldStopBefore(key: IKey) returns (stop: bool)
      requires Valid()
      modifies this`grandparentIndex, this`seenKey, this`overlappedBytes
      ensures Valid() && seenKey
      ensures old(grandparentIndex) <= grandparentIndex
      ensures forall i :: old(grandparentIndex) <= i < grandparentIndex ==> Less(grandparents[i].largest, key)
      ensures grandparentIndex < |grandparents| ==> !Less(grandparents[grandparentIndex].largest, key)
      ensures var overlap := old(overlappedBytes) +
                             if old(seenKey) then TotalSize(grandparents[old(grandparentIndex)..grandparentIndex])
                             else 0;
              (stop <==> overlap > maxOverlap) && overlappedBytes == if stop then 0 else overlap
      ensures var passed := Passed(grandparents, old(Overlap()), key);
              (stop <==> passed.bytes > maxOverlap) && Overlap() == if stop then passed.(bytes := 0) else passed
    {
      ghost var first := grandparentIndex;
      while grandparentIndex < |grandparents| && Less(grandparents[grandparentIndex].largest, key)
        invariant first <= grandparentIndex <= |grandparents| && seenKey == old(seenKey)
        invariant Passed(grandparents, Overlap(), key) == Passed(grandparents, old(Overlap()), key)
        invariant forall i :: first <= i < grandparentIndex ==> Less(grandparents[i].largest, key)
        invariant overlappedBytes == old(overlappedBytes) +
                                     if seenKey then TotalSize(grandparents[first..grandparentIndex]) else 0
      {
        TotalSizeOfOneMore(grandparents, first, grandparentIndex);
        if seenKey {
          overlappedBytes := overlappedBytes + grandparents[grandparentIndex].size;
        }
        grandparentIndex := grandparentIndex + 1;
      }
      seenKey := true;
      stop := overlappedBytes > maxOverlap;
      if stop {
        overlappedBytes := 0;
      }
    }
  }

  function TotalSize(files: seq<File>): nat {
    if files == [] then 0 else files[0].size + TotalSize(files[1..])
  }

  lemma {:induction false} TotalSizeOfOneMore(files: seq<File>, lo: nat, hi: nat)
    requires lo <= hi < |files|
    ensures TotalSize(files[lo..hi + 1]) == TotalSize(files[lo..hi]) + files[hi].size
    decreases hi - lo
  {
    if lo < hi {
      TotalSizeOfOneMore(files, lo + 1, hi);
      assert files[lo..hi + 1][1..] == files[lo + 1..hi + 1] && files[lo..hi][1..] == files[lo + 1..hi];
    }
  }

  lemma LaterFilesStartLater(files: seq<File>, i: nat, k: Key)
    requires AllWellFormed(files) && LevelSorted(files) && i < |files|
    requires forall j :: 0 <= j < i ==> files[j].largest.user < k
    requires k <= files[i].largest.user
    ensures Covered(files, k) <==> k >= files[i].smallest.user
  {
    assert files[i] in files;
    forall j | i < j < |files| ensures files[i].smallest.user <= files[j].smallest.user {
      InOrder(files, i, j);
    }
  }

  // ---------- Dropping entries ----------

  ghost function EntrySet(es: seq<Entry>): set<Entry> {
    set e | e in es
  }

  ghost function BaseKeys(c: Compaction): iset<Key> {
    iset k | BaseLevel(c.version, c.level, k)
  }

  /** What the loop remembers between two entries: the previous entry's user key and sequence number. */
  datatype Tracker = Tracker(hasKey: bool, userKey: Key, lastSequence: nat)

  ghost predicate Tracks(t: Tracker, input: seq<Entry>, i: nat)
    requires i <= |input|
  {
    if i == 0 then !t.hasKey
    else t.hasKey && t.userKey == input[i - 1].key.user && t.lastSequence == input[i - 1].key.sequence
  }

  /** last_sequence_for_key as rule (A) tests it. */
  function LastSequenceForKey(t: Tracker, k: Key): nat {
    if !t.hasKey || k != t.userKey then MAX_SEQUENCE else t.lastSequence
  }

  /** The entry just before decides whether any newer entry of the user key hides this one. */
  lemma PreviousEntryDecides(input: seq<Entry>, i: nat, t: Tracker, snapshot: nat)
    requires Sorted(input) && UniqueSequences(EntrySet(input)) && i < |input| && Tracks(t, input, i)
    requires snapshot < MAX_SEQUENCE
    ensures LastSequenceForKey(t, input[i].key.user) <= snapshot <==> Hidden(EntrySet(input), snapshot, input[i])
  {
    var e, I := input[i], EntrySet(input);
    if LastSequenceForKey(t, e.key.user) <= snapshot {
      var p := input[i - 1];
      assert p in I && e in I && Less(p.key, e.key);
      assert p.key.sequence > e.key.sequence;
    } else {
      assert forall j :: i < j < |input| ==> Less(e.key, input[j].key);
      forall j | 0 <= j < |input| && input[j].key.user == e.key.user && input[j].key.sequence > e.key.sequence
        ensures input[j].key.sequence > snapshot
      {
        assert j < i - 1 ==> Less(input[j].key, input[i - 1].key);
        assert i > 0 ==> Less(input[i - 1].key, e.key);
      }
    }
  }

  method Decide(c: Compaction, input: seq<Entry>, i: nat, t: Tracker, snapshot: nat) returns (drop: bool)
    requires c.Valid() && Sorted(input) && UniqueSequences(EntrySet(input)) && i < |input| && Tracks(t, input, i)
    requires snapshot < MAX_SEQUENCE
    requires c.lastKey.Some? ==> c.lastKey.value <= input[i].key.user
    modifies c`lastKey, c.levelPtrs
    ensures c.Valid() && (c.lastKey.Some? ==> c.lastKey.value <= input[i].key.user)
    ensures drop <==> Dropped(EntrySet(input), snapshot, BaseKeys(c), input[i])
  {
    var e := input[i];
    PreviousEntryDecides(input, i, t, snapshot);
    drop := false;
    if LastSequenceForKey(t, e.key.user) <= snapshot {
      drop := true;
    } else if e.key.kind.Deletion? && e.key.sequence <= snapshot {
      drop := c.IsBaseLevelForKey(e.key.user);
    }
  }

  // ---------- Building outputs ----------

  /** Finished tables, and the entries of the table being built, in key order. */
  ghost predicate Built(outputs: seq<File>, current: seq<Entry>) {
    && AllWellFormed(outputs) && LevelSorted(outputs)
    && Sorted(current)
    && (forall e :: e in current ==> e.key.sequence <= MAX_SEQUENCE)
    && (current != [] ==> forall f :: f in outputs ==> Less(f.largest, current[0].key))
  }

  ghost predicate Ahead(outputs: seq<File>, current: seq<Entry>, key: IKey) {
    && (forall f :: f in outputs ==> Less(f.largest, key))
    && (forall e :: e in current ==> Less(e.key, key))
  }

  function FinishedFile(current: seq<Entry>, number: nat, size: nat): File
    requires current != []
  {
    File(number, size, current[0].key, current[|current| - 1].key, current)
  }

  lemma FinishKeeps(outputs: seq<File>, current: seq<Entry>, number: nat, size: nat)
    requires current != [] && Built(outputs, current)
    ensures var outputs' := outputs + [FinishedFile(current, number, size)];
            && Built(outputs', [])
            && Contents(outputs') == Contents(outputs) + EntrySet(current)
            && forall key :: Ahead(outputs, current, key) ==> Ahead(outputs', [], key)
  {
    assert current[|current| - 1] in current;
  }

  lemma AddKeeps(outputs: seq<File>, current: seq<Entry>, e: Entry)
    requires Built(outputs, current) && Ahead(outputs, current, e.key) && e.key.sequence <= MAX_SEQUENCE
    ensures Built(outputs, current + [e])
    ensures EntrySet(current + [e]) == EntrySet(current) + {e}
    ensures forall key :: Less(e.key, key) ==> Ahead(outputs, current + [e], key)
  {
    assert forall i :: 0 <= i < |current| ==> current[i] in current;
  }

  /** The table writer: reports how large the table file is once it holds these entries. */
  type SizeOf = seq<Entry> -> nat

  ghost predicate OneMoreTable(before: seq<File>, after: seq<File>, entries: seq<Entry>, size: nat) {
    && |after| == |before| + 1 && after[..|before|] == before
    && after[|before|].entries == entries && after[|before|].size == size
  }

  class CompactionState {
    var outputs: seq<File>
    var current: seq<Entry>
    var nextNumber: nat
    const firstNumber: nat
    const sizeOf: SizeOf
    const maxOutputFileSize: nat

    ghost predicate Valid()
      reads this
    {
      && Built(outputs, current)
      && nextNumber == firstNumber + |outputs| + (if current == [] then 0 else 1)
      && forall i :: 0 <= i < |outputs| ==> outputs[i].number == firstNumber + i
    }

    ghost function Written(): set<Entry>
      reads this
    {
      Contents(outputs) + EntrySet(current)
    }

    constructor (firstNumber: nat, sizeOf: SizeOf, maxOutputFileSize: nat)
      ensures Valid() && outputs == [] && current == [] && this.firstNumber == firstNumber
      ensures this.sizeOf == sizeOf && this.maxOutputFileSize == maxOutputFileSize
    {
      this.firstNumber, this.sizeOf, this.maxOutputFileSize := firstNumber, sizeOf, maxOutputFileSize;
      outputs, current, nextNumber := [], [], firstNumber;
    }

    method FinishOutputFile()
      requires Valid() && current != []
      modifies this
      ensures OneMoreTable(old(outputs), outputs, old(current), sizeOf(old(current)))
      ensures Valid() && current == [] && Written() == old(Written())
      ensures forall key :: old(Ahead(outputs, current, key)) ==> Ahead(outputs, current, key)
    {
      FinishKeeps(outputs, current, nextNumber - 1, sizeOf(current));
      outputs := outputs + [FinishedFile(current, nextNumber - 1, sizeOf(current))];
      current := [];
    }

    /** Opens an output file if necessary, adds the entry, and closes the file if it is big enough. */
    method Add(e: Entry)
      requires Valid() && Ahead(outputs, current, e.key) && e.key.sequence <= MAX_SEQUENCE
      modifies this
      ensures Valid() && Written() == old(Written()) + {e}
      ensures var more := old(current) + [e];
              if sizeOf(more) < maxOutputFileSize then current == more && outputs == old(outputs)
              else current == [] && OneMoreTable(old(outputs), outputs, more, sizeOf(more))
      ensures forall key :: Less(e.key, key) ==> Ahead(outputs, current, key)
    {
      if current == [] {
        nextNumber := nextNumber + 1;
      }
      AddKeeps(outputs, current, e);
      current := current + [e];
      if sizeOf(current) >= maxOutputFileSize {
        FinishOutputFile();
      }
    }
  }

  ghost function KeptOf(input: seq<Entry>, upTo: nat, snapshot: nat, base: iset<Key>): set<Entry>
    requires upTo <= |input|
  {
    set e | e in input[..upTo] && !Dropped(EntrySet(input), snapshot, base, e)
  }

  // ---------- Where the outputs are cut ----------

  datatype CutRule = CutRule(grandparents: seq<File>, maxOverlap: nat, sizeOf: SizeOf, maxSize: nat)

  /** The contents of the outputs so far, the last of them unfinished. */
  datatype Cutting = Cutting(done: seq<seq<Entry>>, current: seq<Entry>, overlap: Overlapped)

  function Ended(k: Cutting): Cutting {
    if k.current == [] then k else Cutting(k.done + [k.current], [], k.overlap)
  }

  /** The output before an entry ends if it overlaps too much. */
  function BeforeEntry(rule: CutRule, k: Cutting, e: Entry): Cutting {
    var passed := Passed(rule.grandparents, k.overlap, e.key);
    if passed.bytes > rule.maxOverlap then Ended(k).(overlap := passed.(bytes := 0)) else k.(overlap := passed)
  }

  /** One more entry; the output with it ends if it is full. */
  function CutNext(rule: CutRule, k: Cutting, e: Entry, dropped: bool): Cutting {
    var before := BeforeEntry(rule, k, e);
    if dropped then before
    else
      var with := before.(current := before.current + [e]);
      if rule.sizeOf(with.current) >= rule.maxSize then Ended(with) else with
  }

  ghost function CutTo(rule: CutRule, input: seq<Entry>, n: nat, snapshot: nat, base: iset<Key>): Cutting
    requires n <= |input|
  {
    if n == 0 then Cutting([], [], Overlapped(0, false, 0))
    else CutNext(rule, CutTo(rule, input, n - 1, snapshot, base), input[n - 1],
                 Dropped(EntrySet(input), snapshot, base, input[n - 1]))
  }

  /** The contents of the output tables. */
  ghost function CutInto(rule: CutRule, input: seq<Entry>, snapshot: nat, base: iset<Key>): seq<seq<Entry>> {
    Ended(CutTo(rule, input, |input|, snapshot, base)).done
  }

  ghost predicate AreTables(outputs: seq<File>, contents: seq<seq<Entry>>, sizeOf: SizeOf) {
    |outputs| == |contents| && forall i ::
        0 <= i < |outputs| ==> outputs[i].entries == contents[i] && outputs[i].size == sizeOf(contents[i])
  }

  ghost function RuleOf(c: Compaction, state: CompactionState): CutRule {
    CutRule(c.grandparents, c.maxOverlap, state.sizeOf, state.maxOutputFileSize)
  }

  ghost predicate IsCut(c: Compaction, state: CompactionState, k: Cutting)
    reads c, state
  {
    AreTables(state.outputs, k.done, state.sizeOf) && state.current == k.current && c.Overlap() == k.overlap
  }

  method EndIfOverlapping(c: Compaction, state: CompactionState, e: Entry, ghost k: Cutting)
    requires c.Valid() && state.Valid() && IsCut(c, state, k)
    modifies c`grandparentIndex, c`seenKey, c`overlappedBytes, state
    ensures c.Valid() && state.Valid() && state.Written() == old(state.Written())
    ensures IsCut(c, state, BeforeEntry(RuleOf(c, state), k, e))
    ensures forall key :: old(Ahead(state.outputs, state.current, key)) ==> Ahead(state.outputs, state.current, key)
  {
    var stop := c.ShouldStopBefore(e.key);
    if stop && state.current != [] {
      state.FinishOutputFile();
    }
  }

  method HandleEntry(c: Compaction, state: CompactionState, input: seq<Entry>, i: nat, t: Tracker, snapshot: nat,
                     ghost k: Cutting)
    requires c.Valid() && state.Valid() && IsCut(c, state, k)
    requires Sorted(input) && UniqueSequences(EntrySet(input)) && i < |input| && Tracks(t, input, i)
    requires input[i].key.sequence <= MAX_SEQUENCE && snapshot < MAX_SEQUENCE
    requires c.lastKey.Some? ==> c.lastKey.value <= input[i].key.user
    requires state.Written() == KeptOf(input, i, snapshot, BaseKeys(c))
    requires Ahead(state.outputs, state.current, input[i].key)
    modifies c, c.levelPtrs, state
    ensures c.Valid() && state.Valid()
    ensures IsCut(c, state, CutNext(RuleOf(c, state), k, input[i],
                                    Dropped(EntrySet(input), snapshot, BaseKeys(c), input[i])))
    ensures c.lastKey.Some? ==> c.lastKey.value <= input[i].key.user
    ensures state.Written() == KeptOf(input, i + 1, snapshot, BaseKeys(c))
    ensures forall key :: Less(input[i].key, key) ==> Ahead(state.outputs, state.current, key)
  {
    hide KeptOf, Tracks, EntrySet, Sorted, UniqueSequences, Dropped, Contents, Passed;
    var e := input[i];
    EndIfOverlapping(c, state, e, k);
    var drop := Decide(c, input, i, t, snapshot);
    KeptOfOneMore(input, i, snapshot, BaseKeys(c));
    if !drop {
      state.Add(e);
    } else {
      StaysAhead(state.outputs, state.current, e.key);
    }
  }

  lemma StaysAhead(outputs: seq<File>, current: seq<Entry>, key: IKey)
    requires Ahead(outputs, current, key)
    ensures forall k :: Less(key, k) ==> Ahead(outputs, current, k)
  {
  }

  lemma KeptOfOneMore(input: seq<Entry>, i: nat, snapshot: nat, base: iset<Key>)
    requires i < |input|
    ensures KeptOf(input, i + 1, snapshot, base) ==
            KeptOf(input, i, snapshot, base) +
            if Dropped(EntrySet(input), snapshot, base, input[i]) then {} else {input[i]}
  {
    assert input[..i + 1] == input[..i] + [input[i]];
  }

  /** DBImpl::DoCompactionWork over the merged input entries. */
  method DoCompactionWork(c: Compaction, state: CompactionState, input: seq<Entry>, snapshot: nat)
    requires c.Valid() && c.lastKey == None
    requires state.Valid() && state.outputs == [] && state.current == [] && c.Overlap() == Overlapped(0, false, 0)
    requires Sorted(input) && UniqueSequences(EntrySet(input))
    requires forall e :: e in input ==> e.key.sequence <= MAX_SEQUENCE
    requires snapshot < MAX_SEQUENCE
    modifies c, c.levelPtrs, state
    ensures AllWellFormed(state.outputs) && LevelSorted(state.outputs)
    ensures Contents(state.outputs) == Kept(EntrySet(input), snapshot, BaseKeys(c))
    ensures forall i :: 0 <= i < |state.outputs| ==> state.outputs[i].number == state.firstNumber + i
    ensures state.nextNumber == state.firstNumber + |state.outputs|
    ensures AreTables(state.outputs, CutInto(RuleOf(c, state), input, snapshot, BaseKeys(c)), state.sizeOf)
  {
    hide UniqueSequences, Dropped, Passed, CutNext, AllWellFormed, BaseLevel;
    var t := Tracker(false, 0.0, MAX_SEQUENCE);
    for i := 0 to |input|
      invariant c.Valid() && state.Valid()
      invariant IsCut(c, state, CutTo(RuleOf(c, state), input, i, snapshot, BaseKeys(c)))
      invariant Tracks(t, input, i)
      invariant c.lastKey.Some? ==> i > 0 && c.lastKey.value <= input[i - 1].key.user
      invariant state.Written() == KeptOf(input, i, snapshot, BaseKeys(c))
      invariant i < |input| ==> Ahead(state.outputs, state.current, input[i].key)
    {
      assert i > 0 ==> Less(input[i - 1].key, input[i].key);
      assert i + 1 < |input| ==> Less(input[i].key, input[i + 1].key);
      HandleEntry(c, state, input, i, t, snapshot, CutTo(RuleOf(c, state), input, i, snapshot, BaseKeys(c)));
      t := Tracker(true, input[i].key.user, input[i].key.sequence);
    }
    assert input[..|input|] == input;
    if state.current != [] {
      state.FinishOutputFile();
    }
  }
}
