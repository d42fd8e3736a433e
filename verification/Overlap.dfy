/** Which files a key range touches (db/version_set.cc): the overlap test, the inputs a
    compaction collects, and the level a flushed memtable is placed at. */
module Overlap {
  import opened InternalKeys
  import opened Visibility
  import opened Versions

  // A missing bound (a null pointer in the source) is unbounded.

  predicate AfterFile(k: Option<Key>, f: File) {
    k.Some? && k.value > f.largest.user
  }

  predicate BeforeFile(k: Option<Key>, f: File) {
    k.Some? && k.value < f.smallest.user
  }

  predicate Overlaps(f: File, lo: Option<Key>, hi: Option<Key>) {
    !AfterFile(lo, f) && !BeforeFile(hi, f)
  }

  function Overlapping(files: seq<File>, lo: Option<Key>, hi: Option<Key>): seq<File> {
    if files == [] then []
    else
      var rest := Overlapping(files[..|files| - 1], lo, hi);
      var f := files[|files| - 1];
      if Overlaps(f, lo, hi) then rest + [f] else rest
  }

  lemma {:induction false} OverlappingMembers(files: seq<File>, lo: Option<Key>, hi: Option<Key>)
    ensures forall f :: f in Overlapping(files, lo, hi) <==> f in files && Overlaps(f, lo, hi)
  {
    if files != [] {
      OverlappingMembers(files[..|files| - 1], lo, hi);
      assert files == files[..|files| - 1] + [files[|files| - 1]];
    }
  }

  // ---------- SomeFileOverlapsRange ----------

  /** One lookup suffices for a sorted level: the first file that does not end before the range. */
  method SomeFileOverlapsRange(disjointSorted: bool, files: seq<File>, lo: Option<Key>, hi: Option<Key>)
    returns (r: bool)
    requires AllWellFormed(files)
    requires disjointSorted ==> LevelSorted(files)
    ensures r <==> exists f :: f in files && Overlaps(f, lo, hi)
  {
    if !disjointSorted {
      for i := 0 to |files|
        invariant forall j :: 0 <= j < i ==> !Overlaps(files[j], lo, hi)
      {
        if !(AfterFile(lo, files[i]) || BeforeFile(hi, files[i])) {
          assert files[i] in files;
          return true;
        }
      }
      return false;
    }
    var index := 0;
    if lo.Some? {
      index := FindFile(files, SeekKey(lo.value, MAX_SEQUENCE));
    }
    FirstCandidateDecides(files, lo, hi, index);
    if index >= |files| {
      return false;
    }
    r := !BeforeFile(hi, files[index]);
  }

  lemma FirstCandidateDecides(files: seq<File>, lo: Option<Key>, hi: Option<Key>, index: nat)
    requires AllWellFormed(files) && LevelSorted(files)
    requires if lo.Some? then SplitsAt(files, SeekKey(lo.value, MAX_SEQUENCE), index) else index == 0
    ensures (exists f :: f in files && Overlaps(f, lo, hi)) <==> index < |files| && !BeforeFile(hi, files[index])
  {
    forall i | 0 <= i < |files| ensures AfterFile(lo, files[i]) <==> i < index {
      if lo.Some? {
        assert files[i] in files;
        LastIsWithin(files[i]);
        SeekKeySplits(files[i].largest, lo.value, MAX_SEQUENCE);
      }
    }
    if index < |files| {
      assert files[index] in files;
      forall i | index <= i < |files| && Overlaps(files[i], lo, hi) ensures !BeforeFile(hi, files[index]) {
        if index < i {
          InOrder(files, index, i);
        }
      }
    }
  }

  lemma LastIsWithin(f: File)
    requires WellFormed(f)
    ensures f.largest.sequence <= MAX_SEQUENCE
  {
    assert f.entries[|f.entries| - 1] in f.entries;
  }

  // ---------- GetOverlappingInputs ----------

  /** f does not reach past the bounds that exist. */
  predicate Inside(f: File, lo: Option<Key>, hi: Option<Key>) {
    && (lo.Some? ==> lo.value <= f.smallest.user)
    && (hi.Some? ==> f.largest.user <= hi.value)
  }

  /** Every file that touches the range lies inside it. */
  ghost predicate Closed(files: seq<File>, lo: Option<Key>, hi: Option<Key>) {
    forall f :: f in files && Overlaps(f, lo, hi) ==> Inside(f, lo, hi)
  }

  /** [lo, hi] contains [lo', hi'], and is unbounded on the same sides. */
  predicate Contains(lo: Option<Key>, hi: Option<Key>, lo': Option<Key>, hi': Option<Key>) {
    && lo.Some? == lo'.Some? && (lo.Some? ==> lo.value <= lo'.value)
    && hi.Some? == hi'.Some? && (hi.Some? ==> hi'.value <= hi.value)
  }

  /** [lo, hi] is the least closed range around [begin, end]. */
  ghost predicate IsHull(files: seq<File>, begin: Option<Key>, end: Option<Key>, lo: Option<Key>, hi: Option<Key>) {
    && Contains(lo, hi, begin, end)
    && Closed(files, lo, hi)
    && forall l, h :: Contains(l, h, begin, end) && Closed(files, l, h) ==> Contains(l, h, lo, hi)
  }

  /** What GetOverlappingInputs selects of the files of a level. */
  ghost predicate Selects(files: seq<File>, level: nat, begin: Option<Key>, end: Option<Key>, selected: seq<File>) {
    exists lo, hi ::
      && selected == Overlapping(files, lo, hi)
      && if level == 0 then IsHull(files, begin, end, lo, hi) else lo == begin && hi == end
  }

  /** The files of `level` that touch [begin, end]; in level 0, where files overlap each other,
      the range is widened to its hull first, restarting whenever a file sticks out. */
  method GetOverlappingInputs(files: seq<File>, level: nat, begin: Option<Key>, end: Option<Key>)
    returns (inputs: seq<File>, ghost lo: Option<Key>, ghost hi: Option<Key>)
    requires AllWellFormed(files)
    ensures Selects(files, level, begin, end, inputs)
    ensures inputs == Overlapping(files, lo, hi)
    ensures level > 0 ==> lo == begin && hi == end
    ensures level == 0 ==> IsHull(files, begin, end, lo, hi)
  {
    inputs := [];
    var userBegin, userEnd := begin, end;
    var i := 0;
    while i < |files|
      invariant 0 <= i <= |files|
      invariant inputs == Overlapping(files[..i], userBegin, userEnd)
      invariant level > 0 ==> userBegin == begin && userEnd == end
      invariant Contains(userBegin, userEnd, begin, end)
      invariant level == 0 ==> Closed(files[..i], userBegin, userEnd)
      invariant forall l, h :: Contains(l, h, begin, end) && Closed(files, l, h) ==> Contains(l, h, userBegin, userEnd)
      decreases StickingOutLeft(files, userBegin), StickingOutRight(files, userEnd), |files| - i
    {
      var f := files[i];
      assert f in files;
      BoundsInOrder(f);
      assert files[..i + 1][..i] == files[..i] && files[..i + 1] == files[..i] + [f];
      i := i + 1;
      if begin.Some? && f.largest.user < userBegin.value {
      } else if end.Some? && f.smallest.user > userEnd.value {
      } else {
        inputs := inputs + [f];
        if level == 0 {
          if begin.Some? && f.smallest.user < userBegin.value {
            WidensEnoughAndNoFurther(files, f, begin, end, userBegin, userEnd);
            assert i - 1 in StickingOutLeft(files, userBegin) - StickingOutLeft(files, Some(f.smallest.user));
            userBegin := Some(f.smallest.user);
            inputs := [];
            i := 0;
          } else if end.Some? && f.largest.user > userEnd.value {
            WidensEnoughAndNoFurther(files, f, begin, end, userBegin, userEnd);
            assert i - 1 in StickingOutRight(files, userEnd) - StickingOutRight(files, Some(f.largest.user));
            userEnd := Some(f.largest.user);
            inputs := [];
            i := 0;
          }
        }
      }
    }
    assert files[..i] == files;
    lo, hi := userBegin, userEnd;
  }

  ghost function StickingOutLeft(files: seq<File>, lo: Option<Key>): set<nat> {
    set j: nat | j < |files| && lo.Some? && files[j].smallest.user < lo.value
  }

  ghost function StickingOutRight(files: seq<File>, hi: Option<Key>): set<nat> {
    set j: nat | j < |files| && hi.Some? && hi.value < files[j].largest.user
  }

  /** A closed range around the current one must contain any file that touches the current one. */
  lemma WidensEnoughAndNoFurther(files: seq<File>, f: File, begin: Option<Key>, end: Option<Key>,
                                 lo: Option<Key>, hi: Option<Key>)
    requires f in files && Overlaps(f, lo, hi)
    requires forall l, h :: Contains(l, h, begin, end) && Closed(files, l, h) ==> Contains(l, h, lo, hi)
    ensures forall l, h :: Contains(l, h, begin, end) && Closed(files, l, h) ==> Inside(f, l, h)
  {
    forall l, h | Contains(l, h, begin, end) && Closed(files, l, h) ensures Inside(f, l, h) {
      assert Contains(l, h, lo, hi);
      assert Overlaps(f, l, h);
    }
  }
}
