/** Choosing the inputs of a compaction (db/version_set.cc: PickCompaction, CompactRange, SetupOtherInputs). */
module CompactionPicking {
  import opened InternalKeys
  import opened Visibility
  import opened Versions
  import opened Overlap
  import opened CompactionWork

  datatype Plan = Plan(level: nat, inputs0: seq<File>, inputs1: seq<File>, grandparents: seq<File>)

  // ---------- The range of a set of files ----------

  ghost predicate IsRange(files: seq<File>, smallest: IKey, largest: IKey) {
    && (exists f :: f in files && f.smallest == smallest)
    && (exists f :: f in files && f.largest == largest)
    && forall f :: f in files ==> !Less(f.smallest, smallest) && !Less(largest, f.largest)
  }

  /** The user keys that the files span. */
  ghost predicate IsUserRange(files: seq<File>, lo: Key, hi: Key) {
    && (exists f :: f in files && f.smallest.user == lo)
    && (exists f :: f in files && f.largest.user == hi)
    && forall f :: f in files ==> lo <= f.smallest.user && f.largest.user <= hi
  }

  method GetRange(inputs: seq<File>) returns (smallest: IKey, largest: IKey)
    requires inputs != []
    ensures IsRange(inputs, smallest, largest)
    ensures IsUserRange(inputs, smallest.user, largest.user)
  {
    smallest, largest := inputs[0].smallest, inputs[0].largest;
    assert inputs[..1] == [inputs[0]];
    for i := 1 to |inputs|
      invariant IsRange(inputs[..i], smallest, largest)
    {
      var f := inputs[i];
      OneMoreInRange(inputs, i, smallest, largest);
      if Less(f.smallest, smallest) {
        smallest := f.smallest;
      }
      if Less(largest, f.largest) {
        largest := f.largest;
      }
    }
    assert inputs[..|inputs|] == inputs;
  }

  lemma OneMoreInRange(inputs: seq<File>, i: nat, smallest: IKey, largest: IKey)
    requires 0 < i < |inputs| && IsRange(inputs[..i], smallest, largest)
    ensures var f := inputs[i];
            IsRange(inputs[..i + 1], if Less(f.smallest, smallest) then f.smallest else smallest,
                    if Less(largest, f.largest) then f.largest else largest)
  {
    var f := inputs[i];
    assert inputs[..i + 1] == inputs[..i] + [f];
    var a :| a in inputs[..i] && a.smallest == smallest;
    var b :| b in inputs[..i] && b.largest == largest;
    assert a in inputs[..i + 1] && b in inputs[..i + 1] && f in inputs[..i + 1];
    forall g | g in inputs[..i + 1]
      ensures !Less(g.smallest, if Less(f.smallest, smallest) then f.smallest else smallest)
      ensures !Less(if Less(largest, f.largest) then f.largest else largest, g.largest)
    {
      assert g in inputs[..i] || g == f;
    }
  }

  // ---------- What every plan satisfies ----------

  /** A file that is left out shares no user key with the span of one that is taken. */
  ghost predicate LeavesNothingTouching(files: seq<File>, inputs: seq<File>) {
    forall f, g :: f in files && f !in inputs && g in inputs
                   ==> f.largest.user < g.smallest.user || g.largest.user < f.smallest.user
  }

  /** The inputs of the upper level leave out no level-0 file they touch, and the inputs of the
      lower level are exactly the files that touch the upper ones. */
  ghost predicate ValidPlan(v: Version, p: Plan) {
    && p.level + 1 < NUM_LEVELS
    && p.inputs0 != []
    && (forall f :: f in p.inputs0 ==> f in v[p.level])
    && (p.level == 0 ==> LeavesNothingTouching(v[0], p.inputs0))
    && exists lo, hi :: IsUserRange(p.inputs0, lo, hi)
                        && p.inputs1 == Overlapping(v[p.level + 1], Some(lo), Some(hi))
  }

  // ---------- Which plan is made ----------

  /** What GetOverlappingInputs selects for the user keys that some files span. */
  ghost predicate SelectsFor(span: seq<File>, files: seq<File>, level: nat, selected: seq<File>) {
    exists lo, hi :: IsUserRange(span, lo, hi) && Selects(files, level, Some(lo), Some(hi), selected)
  }

  /** Whether the files of the upper level give way to more of them. */
  ghost predicate Grows(v: Version, level: nat, inputs0: seq<File>, inputs1: seq<File>, wider: seq<File>, limit: nat)
    requires level + 1 < NUM_LEVELS
  {
    && |wider| > |inputs0|
    && TotalSize(inputs1) + TotalSize(wider) < limit
    && exists touched :: SelectsFor(wider, v[level + 1], level + 1, touched) && |touched| == |inputs1|
  }

  ghost predicate IsGrown(v: Version, level: nat, inputs0: seq<File>, inputs1: seq<File>, chosen: seq<File>, limit: nat)
    requires level + 1 < NUM_LEVELS
  {
    if inputs1 == [] then
      chosen == inputs0
    else
      exists wider ::
        && SelectsFor(inputs0 + inputs1, v[level], level, wider)
        && chosen == if Grows(v, level, inputs0, inputs1, wider, limit) then wider else inputs0
  }

  /** A compaction that starts from one file: in level 0, those it touches come along. */
  ghost predicate StartsFrom(v: Version, level: nat, first: File, inputs0: seq<File>)
    requires level < NUM_LEVELS
  {
    if level == 0 then SelectsFor([first], v[0], 0, inputs0) else inputs0 == [first]
  }

  /** A manual compaction: all the files in the range or, below level 0, the shortest run of them
      that reaches the size limit. */
  ghost predicate StartsFromRange(files: seq<File>, level: nat, begin: Option<Key>, end: Option<Key>,
                                  inputs0: seq<File>, limit: nat) {
    exists all ::
      && Selects(files, level, begin, end, all)
      && inputs0 != [] && inputs0 <= all
      && (inputs0 == all || (level > 0 && TotalSize(inputs0) >= limit))
      && (level > 0 ==> |inputs0| == 1 || TotalSize(inputs0[..|inputs0| - 1]) < limit)
  }

  /** The plan that a compaction of inputs0 leads to. */
  ghost predicate IsSetUp(v: Version, level: nat, inputs0: seq<File>, p: Plan, limit: nat) {
    && p.level == level && level + 1 < NUM_LEVELS
    && SelectsFor(inputs0, v[level + 1], level + 1, p.inputs1)
    && IsGrown(v, level, inputs0, p.inputs1, p.inputs0, limit)
    && SelectsFor(p.inputs0, v[level + 1], level + 1, p.inputs1)
    && if level + 2 < NUM_LEVELS then SelectsFor(p.inputs0 + p.inputs1, v[level + 2], level + 2, p.grandparents)
       else p.grandparents == []
  }

  /** Level-0 files that GetOverlappingInputs left out do not touch the ones it took. */
  lemma HullLeavesNothingTouching(files: seq<File>, begin: Option<Key>, end: Option<Key>,
                                  lo: Option<Key>, hi: Option<Key>)
    requires IsHull(files, begin, end, lo, hi)
    ensures LeavesNothingTouching(files, Overlapping(files, lo, hi))
  {
    OverlappingMembers(files, lo, hi);
    var inputs := Overlapping(files, lo, hi);
    forall f, g | f in files && f !in inputs && g in inputs
      ensures f.largest.user < g.smallest.user || g.largest.user < f.smallest.user
    {
      assert !Overlaps(f, lo, hi) && Inside(g, lo, hi);
    }
  }

  /** A wider range touches at least the same files; if it touches no more, it touches the same ones. */
  lemma {:induction false} WiderTouchesMore(files: seq<File>, lo: Key, hi: Key, lo': Key, hi': Key)
    requires lo' <= lo && hi <= hi'
    ensures |Overlapping(files, Some(lo), Some(hi))| <= |Overlapping(files, Some(lo'), Some(hi'))|
    ensures |Overlapping(files, Some(lo), Some(hi))| == |Overlapping(files, Some(lo'), Some(hi'))|
            ==> Overlapping(files, Some(lo), Some(hi)) == Overlapping(files, Some(lo'), Some(hi'))
  {
    if files != [] {
      WiderTouchesMore(files[..|files| - 1], lo, hi, lo', hi');
    }
  }

  lemma RangesNest(part: seq<File>, all: seq<File>, lo: Key, hi: Key, lo': Key, hi': Key)
    requires IsUserRange(part, lo, hi) && IsUserRange(all, lo', hi') && forall f :: f in part ==> f in all
    ensures lo' <= lo && hi <= hi'
  {
  }

  // ---------- Where a compaction is due ----------

  const L0_COMPACTION_TRIGGER := 4

  /** The size that a level should not exceed: 10 MB, and ten times as much with every level below the first. */
  function MaxBytesForLevel(level: nat): (max: real)
    ensures max > 0.0
  {
    if level <= 1 then 10485760.0 else 10.0 * MaxBytesForLevel(level - 1)
  }

  /** How full a level is; level 0 counts its files. */
  function Score(v: Version, level: nat): (score: real)
    requires level < NUM_LEVELS
    ensures score >= 0.0
    ensures score >= 1.0 ==> v[level] != []
  {
    if level == 0 then |v[0]| as real / L0_COMPACTION_TRIGGER as real
    else
      assert TotalSize(v[level]) == 0 ==> TotalSize(v[level]) as real / MaxBytesForLevel(level) == 0.0;
      TotalSize(v[level]) as real / MaxBytesForLevel(level)
  }

  /** The first of the fullest levels, without the last one. */
  ghost predicate IsFullest(v: Version, level: int) {
    && 0 <= level && level + 1 < NUM_LEVELS
    && (forall l :: 0 <= l < NUM_LEVELS - 1 ==> Score(v, l) <= Score(v, level))
    && (forall l :: 0 <= l < level ==> Score(v, l) < Score(v, level))
  }

  /** A compaction for size is due exactly if there are four level-0 files, or another level but the last has reached
      its size: 10 MB for level 1, and ten times that of the level above for every other. */
  lemma DueExactly(v: Version, level: nat)
    requires IsFullest(v, level)
    ensures Score(v, level) >= 1.0 <==>
            || |v[0]| >= 4
            || TotalSize(v[1]) >= 10_485_760
            || TotalSize(v[2]) >= 104_857_600
            || TotalSize(v[3]) >= 1_048_576_000
            || TotalSize(v[4]) >= 10_485_760_000
            || TotalSize(v[5]) >= 104_857_600_000
  {
    LevelLimits();
    assert Score(v, level) >= 1.0 <==> exists l :: 0 <= l < NUM_LEVELS - 1 && Score(v, l) >= 1.0;
    assert Score(v, 0) >= 1.0 <==> |v[0]| >= 4;
    forall l | 1 <= l < NUM_LEVELS - 1
      ensures Score(v, l) >= 1.0 <==> TotalSize(v[l]) as real >= MaxBytesForLevel(l)
    {
      FullAt(TotalSize(v[l]) as real, MaxBytesForLevel(l));
    }
  }

  lemma FullAt(size: real, max: real)
    requires max > 0.0
    ensures size / max >= 1.0 <==> size >= max
  {
    assert size == (size / max) * max;
  }

  lemma LevelLimits()
    ensures MaxBytesForLevel(1) == 10_485_760.0 && MaxBytesForLevel(2) == 104_857_600.0
    ensures MaxBytesForLevel(3) == 1_048_576_000.0 && MaxBytesForLevel(4) == 10_485_760_000.0
    ensures MaxBytesForLevel(5) == 104_857_600_000.0
  {
    assert MaxBytesForLevel(2) == 10.0 * MaxBytesForLevel(1);
    assert MaxBytesForLevel(3) == 10.0 * MaxBytesForLevel(2);
    assert MaxBytesForLevel(4) == 10.0 * MaxBytesForLevel(3);
    assert MaxBytesForLevel(5) == 10.0 * MaxBytesForLevel(4);
  }

  /** The first file past the compaction pointer of a level, or the first file of the level. */
  ghost predicate IsNext(files: seq<File>, pointer: Option<IKey>, f: File) {
    exists i :: 0 <= i < |files| && files[i] == f &&
      if pointer.None? || Less(pointer.value, f.largest) then
        forall j :: 0 <= j < i ==> pointer.Some? && !Less(pointer.value, files[j].largest)
      else
        i == 0 && forall j :: 0 <= j < |files| ==> !Less(pointer.value, files[j].largest)
  }

  type Pointers = ps: seq<Option<IKey>> | |ps| == NUM_LEVELS witness [None, None, None, None, None, None, None]

  /** The first file to compact: compactions for size come before those for seeks. */
  ghost predicate StartsAt(v: Version, pointers: Pointers, charged: Option<Visit>, level: nat, first: File) {
    && level + 1 < NUM_LEVELS
    && exists top: nat :: IsFullest(v, top) &&
         if Score(v, top) >= 1.0 then level == top && IsNext(v[level], pointers[level], first)
         else charged == Some(Visit(first, level))
  }

  /** The plans that PickCompaction makes. */
  ghost predicate Picks(v: Version, pointers: Pointers, charged: Option<Visit>, maxFileSize: nat, p: Plan) {
    exists level: nat, first, inputs0 ::
      && StartsAt(v, pointers, charged, level, first)
      && StartsFrom(v, level, first, inputs0)
      && IsSetUp(v, level, inputs0, p, 25 * maxFileSize)
  }

  /** The plans of a manual compaction. */
  ghost predicate PicksRange(v: Version, level: nat, begin: Option<Key>, end: Option<Key>, maxFileSize: nat, p: Plan) {
    level + 1 < NUM_LEVELS && exists inputs0 ::
      && StartsFromRange(v[level], level, begin, end, inputs0, maxFileSize)
      && IsSetUp(v, level, inputs0, p, 25 * maxFileSize)
  }

  /** The next compaction of the plan's level goes on behind its inputs. */
  ghost predicate PointsPast(pointers: Pointers, p: Plan, pointers': Pointers) {
    exists smallest, largest :: IsRange(p.inputs0, smallest, largest) && p.level < NUM_LEVELS
                                && pointers' == pointers[p.level := Some(largest)]
  }

  class VersionSet {
    var current: Version
    var compactPointer: Pointers
    /** Of the current version: where it is fullest, and a file that was sought too often. */
    var compactionLevel: int
    var compactionScore: real
    var fileToCompact: Option<Visit>
    /** allowed_seeks of the files that were charged. */
    var allowedSeeks: map<nat, int>
    const maxFileSize: nat

    ghost predicate Valid()
      reads this
    {
      FilesOk() && Finalized() && (fileToCompact.Some? ==> IsCompactable(fileToCompact.value))
    }

    ghost predicate FilesOk()
      reads this
    {
      forall l :: 0 <= l < NUM_LEVELS ==> AllWellFormed(current[l])
    }

    /** A file of the current version in a level with another one below it. */
    ghost predicate IsCompactable(visit: Visit)
      reads this
    {
      visit.level + 1 < NUM_LEVELS && visit.file in current[visit.level]
    }

    ghost predicate Finalized()
      reads this
    {
      IsFullest(current, compactionLevel) && compactionScore == Score(current, compactionLevel)
    }

    /** Finalize and AppendVersion: v becomes current, and nothing was sought in it yet. */
    method Install(v: Version)
      requires forall l :: 0 <= l < NUM_LEVELS ==> AllWellFormed(v[l])
      modifies this
      ensures Valid() && current == v && compactPointer == old(compactPointer) && fileToCompact.None?
    {
      current, fileToCompact := v, None;
      Finalize();
    }

    method Finalize()
      modifies this`compactionLevel, this`compactionScore
      ensures Finalized()
    {
      compactionLevel, compactionScore := -1, -1.0;
      for level := 0 to NUM_LEVELS - 1
        invariant -1 <= compactionLevel < level || level == 0
        invariant level == 0 ==> compactionLevel == -1 && compactionScore == -1.0
        invariant level > 0 ==> compactionLevel >= 0 && compactionScore == Score(current, compactionLevel)
        invariant forall l :: 0 <= l < level ==> Score(current, l) <= compactionScore
        invariant forall l :: 0 <= l < compactionLevel ==> Score(current, l) < compactionScore
      {
        var score := Score(current, level);
        if score > compactionScore {
          compactionLevel, compactionScore := level, score;
        }
      }
    }

    /** A file may be sought once for every 16 KB, and at least 100 times, before that is charged to it. */
    function AllowedSeeks(f: File): (n: int)
      reads this
      ensures f.number !in allowedSeeks ==> n >= 100 && f.size < (n + 1) * 16384 && (n == 100 || n * 16384 <= f.size)
    {
      if f.number in allowedSeeks then allowedSeeks[f.number]
      else if f.size / 16384 < 100 then 100 else f.size / 16384
    }

    /** UpdateStats: the file that a lookup or a sample charged may become the one to compact. */
    method UpdateStats(charged: Option<Visit>) returns (due: bool)
      requires Valid() && (charged.Some? ==> IsCompactable(charged.value))
      modifies this`allowedSeeks, this`fileToCompact
      ensures Valid()
      ensures due <==> charged.Some? && old(AllowedSeeks(charged.value.file)) <= 1 && old(fileToCompact).None?
      ensures fileToCompact == if due then charged else old(fileToCompact)
      ensures charged.Some? ==> AllowedSeeks(charged.value.file) == old(AllowedSeeks(charged.value.file)) - 1
      ensures forall f: File ::
              charged.None? || f.number != charged.value.file.number ==> AllowedSeeks(f) == old(AllowedSeeks(f))
    {
      due := false;
      if charged.Some? {
        var f := charged.value.file;
        var left := AllowedSeeks(f) - 1;
        allowedSeeks := allowedSeeks[f.number := left];
        if left <= 0 && fileToCompact.None? {
          fileToCompact := charged;
          due := true;
        }
      }
    }

    /** DBImpl::Get and DBIter::ParseKey: lookups and samples charge files. One becomes due exactly if none was due yet
        and it was charged for the last of the seeks that it is allowed. */
    method GetAndCharge(k: Key, s: nat) returns (r: Lookup, due: bool)
      requires Valid() && Ok(current)
      modifies this`allowedSeeks, this`fileToCompact
      ensures Valid() && r == Find(All(current), k, s)
      ensures due <==> old(fileToCompact).None?
                       && exists c :: IsCharged(current, k, s, c) && old(AllowedSeeks(c.file)) <= 1
      ensures if due then fileToCompact.Some? && IsCharged(current, k, s, fileToCompact.value)
              else fileToCompact == old(fileToCompact)
      ensures forall c :: IsCharged(current, k, s, c) ==> AllowedSeeks(c.file) == old(AllowedSeeks(c.file)) - 1
    {
      hide IsCharged, Ok;
      var charged;
      r, charged := Versions.Get(current, k, s);
      if charged.Some? {
        ChargedByLookup(k, s, charged.value);
      }
      due := UpdateStats(charged);
    }

    lemma ChargedByLookup(k: Key, s: nat, c: Visit)
      requires IsCharged(current, k, s, c)
      ensures IsCompactable(c)
    {
      ChargedIsNotLast(current, SeekKey(k, s), c);
    }

    method SampleAndCharge(key: IKey) returns (due: bool)
      requires Valid() && Ok(current)
      modifies this`allowedSeeks, this`fileToCompact
      ensures Valid()
      ensures due <==> old(fileToCompact).None?
                       && exists c :: IsFirstOfMore(current, key, c) && old(AllowedSeeks(c.file)) <= 1
      ensures if due then fileToCompact.Some? && IsFirstOfMore(current, key, fileToCompact.value)
              else fileToCompact == old(fileToCompact)
      ensures forall c :: IsFirstOfMore(current, key, c) ==> AllowedSeeks(c.file) == old(AllowedSeeks(c.file)) - 1
    {
      var charged := Versions.RecordReadSample(current, key);
      if charged.Some? {
        ChargedIsNotLast(current, key, charged.value);
      }
      hide IsFirstOfMore, Ok;
      due := UpdateStats(charged);
    }

    /** inputs0, possibly grown to more files of its level that need no more files of the next one. */
    method SetupOtherInputs(level: nat, inputs0: seq<File>) returns (p: Plan)
      requires FilesOk() && level + 1 < NUM_LEVELS && inputs0 != []
      requires forall f :: f in inputs0 ==> f in current[level]
      requires level == 0 ==> LeavesNothingTouching(current[0], inputs0)
      modifies this`compactPointer
      ensures FilesOk() && ValidPlan(current, p)
      ensures IsSetUp(current, level, inputs0, p, 25 * maxFileSize)
      ensures forall f :: f in inputs0 ==> f in p.inputs0
      ensures PointsPast(old(compactPointer), p, compactPointer)
    {
      hide ValidPlan, IsGrown, SelectsFor, IsRange, IsUserRange, AllWellFormed;
      var largest;
      p, largest := ChooseInputs(level, inputs0);
      ghost var chosen := p;
      if level + 2 < NUM_LEVELS {
        var grandparents := Grandparents(p);
        p := p.(grandparents := grandparents);
      }
      SamePlanOtherwise(current, chosen, p);
      compactPointer := compactPointer[level := Some(largest)];
    }

    method Grandparents(p: Plan) returns (grandparents: seq<File>)
      requires FilesOk() && p.level + 2 < NUM_LEVELS && ValidPlan(current, p)
      ensures SelectsFor(p.inputs0 + p.inputs1, current[p.level + 2], p.level + 2, grandparents)
    {
      var level := p.level;
      var allStart, allLimit := GetRange(p.inputs0 + p.inputs1);
      ghost var lo, hi;
      grandparents, lo, hi := GetOverlappingInputs(current[level + 2], level + 2, Some(allStart.user),
                                                   Some(allLimit.user));
      SelectedFor(p.inputs0 + p.inputs1, current[level + 2], level + 2, allStart.user, allLimit.user, grandparents);
    }

    lemma SamePlanOtherwise(v: Version, p: Plan, p': Plan)
      requires ValidPlan(v, p) && p' == p.(grandparents := p'.grandparents)
      ensures ValidPlan(v, p')
    {
    }

    method ChooseInputs(level: nat, inputs0: seq<File>) returns (p: Plan, largest: IKey)
      requires FilesOk() && level + 1 < NUM_LEVELS && inputs0 != []
      requires forall f :: f in inputs0 ==> f in current[level]
      requires level == 0 ==> LeavesNothingTouching(current[0], inputs0)
      ensures ValidPlan(current, p) && p.level == level && p.grandparents == []
      ensures SelectsFor(inputs0, current[level + 1], level + 1, p.inputs1)
      ensures SelectsFor(p.inputs0, current[level + 1], level + 1, p.inputs1)
      ensures IsGrown(current, level, inputs0, p.inputs1, p.inputs0, 25 * maxFileSize)
      ensures forall f :: f in inputs0 ==> f in p.inputs0
      ensures exists smallest :: IsRange(p.inputs0, smallest, largest)
    {
      var smallest;
      smallest, largest := GetRange(inputs0);
      var inputs1, _, _ := GetOverlappingInputs(current[level + 1], level + 1, Some(smallest.user), Some(largest.user));
      SelectedFor(inputs0, current[level + 1], level + 1, smallest.user, largest.user, inputs1);
      p := Plan(level, inputs0, inputs1, []);
      if inputs1 != [] {
        var grown, _, limit := Grow(level, inputs0, inputs1, smallest, largest);
        if grown.Some? {
          p, largest := grown.value, limit;
        }
      }
    }

    /** More files of the upper level, as long as they touch no further file of the lower one
        and the compaction stays below 25 files in size. */
    method Grow(level: nat, inputs0: seq<File>, inputs1: seq<File>, smallest: IKey, largest: IKey)
      returns (r: Option<Plan>, start: IKey, limit: IKey)
      requires FilesOk() && level + 1 < NUM_LEVELS && inputs0 != []
      requires forall f :: f in inputs0 ==> f in current[level]
      requires IsUserRange(inputs0, smallest.user, largest.user)
      requires inputs1 == Overlapping(current[level + 1], Some(smallest.user), Some(largest.user))
      ensures r.Some? ==>
                && ValidPlan(current, r.value) && r.value.level == level && r.value.grandparents == []
                && r.value.inputs1 == inputs1
                && (forall f :: f in inputs0 ==> f in r.value.inputs0)
                && SelectsFor(r.value.inputs0, current[level + 1], level + 1, inputs1)
                && IsRange(r.value.inputs0, start, limit)
      ensures inputs1 != [] ==>
                IsGrown(current, level, inputs0, inputs1, if r.Some? then r.value.inputs0 else inputs0,
                        25 * maxFileSize)
    {
      r, start, limit := None, smallest, largest;
      var expanded0 := FilesInSpan(level, inputs0, inputs1);
      if |expanded0| > |inputs0| &&
         TotalSize(inputs1) + TotalSize(expanded0) < 25 * maxFileSize
      {
        start, limit := GetRange(expanded0);
        var expanded1, _, _ := GetOverlappingInputs(current[level + 1], level + 1, Some(start.user), Some(limit.user));
        RangesNest(inputs0, expanded0, smallest.user, largest.user, start.user, limit.user);
        WiderTouchesMore(current[level + 1], smallest.user, largest.user, start.user, limit.user);
        SelectedFor(expanded0, current[level + 1], level + 1, start.user, limit.user, expanded1);
        GrowsExactly(current, level, inputs0, inputs1, expanded0, expanded1, 25 * maxFileSize);
        if |expanded1| == |inputs1| {
          r := Some(Plan(level, expanded0, expanded1, []));
        }
      }
    }

    /** All files of the level that touch the span of both sets of inputs. */
    method FilesInSpan(level: nat, inputs0: seq<File>, inputs1: seq<File>) returns (expanded0: seq<File>)
      requires FilesOk() && level < NUM_LEVELS && inputs0 != []
      requires forall f :: f in inputs0 ==> f in current[level]
      ensures forall f :: f in inputs0 ==> f in expanded0
      ensures forall f :: f in expanded0 ==> f in current[level]
      ensures level == 0 ==> LeavesNothingTouching(current[0], expanded0)
      ensures SelectsFor(inputs0 + inputs1, current[level], level, expanded0)
    {
      var allStart, allLimit := GetRange(inputs0 + inputs1);
      ghost var lo, hi;
      expanded0, lo, hi := GetOverlappingInputs(current[level], level, Some(allStart.user), Some(allLimit.user));
      OverlappingMembers(current[level], lo, hi);
      forall f | f in inputs0 ensures f in expanded0 {
        TouchesOwnRange(inputs0 + inputs1, f, allStart.user, allLimit.user);
      }
      if level == 0 {
        HullLeavesNothingTouching(current[0], Some(allStart.user), Some(allLimit.user), lo, hi);
      }
    }

    lemma TouchesOwnRange(files: seq<File>, f: File, lo: Key, hi: Key)
      requires f in files && IsUserRange(files, lo, hi) && WellFormed(f)
      ensures Overlaps(f, Some(lo), Some(hi))
    {
      BoundsInOrder(f);
    }

    lemma SelectedFor(span: seq<File>, files: seq<File>, level: nat, lo: Key, hi: Key, selected: seq<File>)
      requires IsUserRange(span, lo, hi) && level > 0 && selected == Overlapping(files, Some(lo), Some(hi))
      ensures SelectsFor(span, files, level, selected)
    {
      assert Selects(files, level, Some(lo), Some(hi), selected);
    }

    /** Below level 0 the selection is a function of the span. */
    lemma OnlySelected(span: seq<File>, files: seq<File>, level: nat, selected: seq<File>)
      requires level > 0 && SelectsFor(span, files, level, selected)
      ensures forall other :: SelectsFor(span, files, level, other) ==> other == selected
    {
      var lo, hi :| IsUserRange(span, lo, hi) && Selects(files, level, Some(lo), Some(hi), selected);
      OnlyRange(span, lo, hi);
    }

    lemma GrowsExactly(v: Version, level: nat, inputs0: seq<File>, inputs1: seq<File>, wider: seq<File>,
                       touched: seq<File>, limit: nat)
      requires level + 1 < NUM_LEVELS && SelectsFor(wider, v[level + 1], level + 1, touched)
      requires |wider| > |inputs0| && TotalSize(inputs1) + TotalSize(wider) < limit
      ensures Grows(v, level, inputs0, inputs1, wider, limit) <==> |touched| == |inputs1|
    {
      OnlySelected(wider, v[level + 1], level + 1, touched);
    }

    lemma OnlyRange(files: seq<File>, lo: Key, hi: Key)
      requires IsUserRange(files, lo, hi)
      ensures forall l, h :: IsUserRange(files, l, h) ==> l == lo && h == hi
    {
      forall l, h | IsUserRange(files, l, h) ensures l == lo && h == hi {
        RangesNest(files, files, lo, hi, l, h);
        RangesNest(files, files, l, h, lo, hi);
      }
    }

    method FirstAfterPointer(level: nat) returns (f: File)
      requires FilesOk() && level < NUM_LEVELS && current[level] != []
      ensures f in current[level] && IsNext(current[level], compactPointer[level], f)
    {
      var files, pointer := current[level], compactPointer[level];
      for i := 0 to |files|
        invariant forall j :: 0 <= j < i ==> pointer.Some? && !Less(pointer.value, files[j].largest)
      {
        if pointer.None? || Less(pointer.value, files[i].largest) {
          return files[i];
        }
      }
      return files[0];
    }

    method PickCompaction() returns (r: Option<Plan>)
      requires Valid()
      modifies this`compactPointer
      ensures Valid() && (r.None? <==> compactionScore < 1.0 && fileToCompact.None?)
      ensures r.Some? ==> ValidPlan(current, r.value)
                          && Picks(current, old(compactPointer), fileToCompact, maxFileSize, r.value)
                          && PointsPast(old(compactPointer), r.value, compactPointer)
    {
      var level: nat;
      var first: File;
      if compactionScore >= 1.0 {
        level := compactionLevel;
        first := FirstAfterPointer(level);
      } else if fileToCompact.Some? {
        level, first := fileToCompact.value.level, fileToCompact.value.file;
      } else {
        return None;
      }
      assert StartsAt(current, compactPointer, fileToCompact, level, first);
      var p := CompactFrom(level, first);
      r := Some(p);
    }

    method CompactFrom(level: nat, first: File) returns (p: Plan)
      requires FilesOk() && level + 1 < NUM_LEVELS && first in current[level]
      modifies this`compactPointer
      ensures FilesOk() && ValidPlan(current, p)
      ensures exists inputs0 :: StartsFrom(current, level, first, inputs0)
                                && IsSetUp(current, level, inputs0, p, 25 * maxFileSize)
      ensures PointsPast(old(compactPointer), p, compactPointer)
    {
      var inputs0 := [first];
      if level == 0 {
        inputs0 := TouchingInLevelZero(first);
      }
      assert StartsFrom(current, level, first, inputs0);
      p := SetupOtherInputs(level, inputs0);
    }

    /** Level-0 files overlap each other, so all those that touch the picked one come along. */
    method TouchingInLevelZero(first: File) returns (inputs: seq<File>)
      requires FilesOk() && first in current[0]
      ensures first in inputs && forall f :: f in inputs ==> f in current[0]
      ensures SelectsFor([first], current[0], 0, inputs)
      ensures LeavesNothingTouching(current[0], inputs)
    {
      var smallest, largest := GetRange([first]);
      ghost var lo, hi;
      inputs, lo, hi := GetOverlappingInputs(current[0], 0, Some(smallest.user), Some(largest.user));
      OverlappingMembers(current[0], lo, hi);
      TouchesOwnRange([first], first, smallest.user, largest.user);
      HullLeavesNothingTouching(current[0], Some(smallest.user), Some(largest.user), lo, hi);
    }

    /** DBImpl::CompactRange: manual compactions are run for the levels below the one that is returned, the deepest
        level with files in the range. */
    method LevelsToCompact(begin: Option<Key>, end: Option<Key>) returns (maxLevel: nat)
      requires Ok(current)
      ensures 1 <= maxLevel < NUM_LEVELS
      ensures maxLevel == 1 || exists f :: f in current[maxLevel] && Overlaps(f, begin, end)
      ensures forall l, f :: maxLevel < l < NUM_LEVELS && f in current[l] ==> !Overlaps(f, begin, end)
    {
      maxLevel := 1;
      for level := 1 to NUM_LEVELS
        invariant 1 <= maxLevel < NUM_LEVELS
        invariant maxLevel == 1 || exists f :: f in current[maxLevel] && Overlaps(f, begin, end)
        invariant forall l, f :: maxLevel < l < level && f in current[l] ==> !Overlaps(f, begin, end)
      {
        var overlaps := SomeFileOverlapsRange(true, current[level], begin, end);
        if overlaps {
          maxLevel := level;
        }
      }
    }

    /** A manual compaction of [begin, end] at the level: nothing to do, or a prefix of the files
        in the range that is not too large (all of them in level 0). */
    method CompactRange(level: nat, begin: Option<Key>, end: Option<Key>) returns (r: Option<Plan>)
      requires FilesOk() && level + 1 < NUM_LEVELS
      modifies this`compactPointer
      ensures FilesOk() && (r.Some? ==> ValidPlan(current, r.value))
      ensures r.Some? ==> PicksRange(current, level, begin, end, maxFileSize, r.value)
                          && PointsPast(old(compactPointer), r.value, compactPointer)
      ensures r.None? <==> forall f :: f in current[level] ==> !Overlaps(f, begin, end)
    {
      ghost var lo, hi;
      var inputs;
      inputs, lo, hi := GetOverlappingInputs(current[level], level, begin, end);
      OverlappingMembers(current[level], lo, hi);
      if inputs == [] {
        NothingTouches(current[level], level, begin, end, lo, hi);
        return None;
      }
      if level == 0 {
        HullLeavesNothingTouching(current[0], begin, end, lo, hi);
      } else {
        assert inputs[0] in inputs;
        inputs := LimitSize(inputs);
      }
      assert StartsFromRange(current[level], level, begin, end, inputs, maxFileSize);
      SomethingTouches(current[level], level, begin, end, lo, hi);
      var p := SetupOtherInputs(level, inputs);
      r := Some(p);
    }

    lemma NothingTouches(files: seq<File>, level: nat, begin: Option<Key>, end: Option<Key>, lo: Option<Key>,
                         hi: Option<Key>)
      requires Overlapping(files, lo, hi) == []
      requires if level == 0 then IsHull(files, begin, end, lo, hi) else lo == begin && hi == end
      ensures forall f :: f in files ==> !Overlaps(f, begin, end)
    {
      OverlappingMembers(files, lo, hi);
      forall f | f in files ensures !Overlaps(f, begin, end) {
        assert f !in Overlapping(files, lo, hi);
      }
    }

    /** Had no file touched the range, the range would be its own hull. */
    lemma SomethingTouches(files: seq<File>, level: nat, begin: Option<Key>, end: Option<Key>, lo: Option<Key>,
                           hi: Option<Key>)
      requires Overlapping(files, lo, hi) != []
      requires if level == 0 then IsHull(files, begin, end, lo, hi) else lo == begin && hi == end
      ensures exists f :: f in files && Overlaps(f, begin, end)
    {
      OverlappingMembers(files, lo, hi);
      var g := Overlapping(files, lo, hi)[0];
      assert g in Overlapping(files, lo, hi);
      if forall f :: f in files ==> !Overlaps(f, begin, end) {
        assert Closed(files, begin, end);
        assert Contains(begin, end, lo, hi);
        assert Overlaps(g, begin, end);
      }
    }

    method LimitSize(inputs: seq<File>) returns (r: seq<File>)
      requires inputs != []
      ensures r != [] && r <= inputs
      ensures TotalSize(r[..|r| - 1]) < maxFileSize || |r| == 1
      ensures r == inputs || TotalSize(r) >= maxFileSize
    {
      var total := 0;
      for i := 0 to |inputs|
        invariant total == TotalSize(inputs[..i]) && (i > 0 ==> total < maxFileSize)
      {
        assert inputs[0..i + 1] == inputs[..i + 1] && inputs[0..i] == inputs[..i];
        TotalSizeOfOneMore(inputs, 0, i);
        total := total + inputs[i].size;
        if total >= maxFileSize {
          r := inputs[..i + 1];
          assert r[..|r| - 1] == inputs[..i];
          return;
        }
      }
      r := inputs;
      TotalSizeOfOneMore(inputs, 0, |inputs| - 1);
      assert inputs[0..|inputs|] == inputs && inputs[0..|inputs| - 1] == inputs[..|inputs| - 1];
      assert inputs[..|inputs|] == inputs;
    }
  }
}
