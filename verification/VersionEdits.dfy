/** Version edits and the builder that applies them (db/version_set.cc, class Builder). */
module VersionEdits {
  import opened InternalKeys
  import opened Visibility
  import opened Versions

  datatype NewFile = NewFile(level: nat, file: File)

  datatype Edit = Edit(
    logNumber: Option<nat>,
    prevLogNumber: Option<nat>,
    nextFileNumber: Option<nat>,
    lastSequence: Option<nat>,
    deleted: set<(nat, nat)>,
    added: seq<NewFile>)

  // ---------- File order ----------

  /** BySmallestKey: smallest key first, ties broken by number. */
  predicate BySmallest(f: File, g: File) {
    Less(f.smallest, g.smallest) || (f.smallest == g.smallest && f.number < g.number)
  }

  lemma BySmallestIsTotal(f: File, g: File, h: File)
    ensures !BySmallest(f, f)
    ensures BySmallest(f, g) && BySmallest(g, h) ==> BySmallest(f, h)
    ensures f.number != g.number ==> BySmallest(f, g) || BySmallest(g, f)
  {
    CompareIsTotalOrder(f.smallest, g.smallest, h.smallest);
    CompareIsTotalOrder(g.smallest, f.smallest, h.smallest);
    CompareIsTotalOrder(f.smallest, f.smallest, h.smallest);
    CompareIsTotalOrder(g.smallest, h.smallest, h.smallest);
  }

  ghost predicate Ascending(files: seq<File>) {
    forall i, j :: 0 <= i < j < |files| ==> BySmallest(files[i], files[j])
  }

  /** Ascending sequences are determined by their members. */
  lemma {:induction false} AscendingIsUnique(a: seq<File>, b: seq<File>)
    requires Ascending(a) && Ascending(b)
    requires forall f :: f in a <==> f in b
    ensures a == b
  {
    assert (a != [] ==> a[0] in a) && (b != [] ==> b[0] in b);
    if a != [] && b != [] {
      HeadIsLeast(a, b[0]);
      HeadIsLeast(b, a[0]);
      BySmallestIsTotal(a[0], b[0], a[0]);
      TailMembers(a);
      TailMembers(b);
      AscendingIsUnique(a[1..], b[1..]);
      assert a == [a[0]] + a[1..] && b == [b[0]] + b[1..];
    }
  }

  lemma HeadIsLeast(a: seq<File>, f: File)
    requires Ascending(a) && f in a
    ensures a[0] == f || BySmallest(a[0], f)
  {
  }

  lemma TailMembers(a: seq<File>)
    requires Ascending(a) && a != []
    ensures forall f :: f in a[1..] <==> f in a && f != a[0]
  {
    BySmallestIsTotal(a[0], a[0], a[0]);
    forall i | 1 <= i < |a| ensures a[i] != a[0] {
      assert BySmallest(a[0], a[i]);
    }
    assert a == [a[0]] + a[1..];
  }

  // ---------- What a sequence of edits means ----------

  /** The files of one level. */
  type FileSet = set<File>

  function DeletedIn(deleted: set<(nat, nat)>, level: nat): set<nat> {
    set d | d in deleted && d.0 == level :: d.1
  }

  function DeletedAt(e: Edit, level: nat): set<nat> {
    DeletedIn(e.deleted, level)
  }

  function AddedIn(added: seq<NewFile>, level: nat): set<File> {
    set n | n in added && n.level == level :: n.file
  }

  function AddedAt(e: Edit, level: nat): set<File> {
    AddedIn(e.added, level)
  }

  /** One edit: the deleted numbers go, the new files come. */
  function After(files: set<File>, e: Edit, level: nat): set<File> {
    (set f | f in files && f.number !in DeletedAt(e, level)) + AddedAt(e, level)
  }

  function AfterAll(files: set<File>, edits: seq<Edit>, level: nat): set<File>
  {
    if edits == [] then files
    else After(AfterAll(files, edits[..|edits| - 1], level), edits[|edits| - 1], level)
  }

  ghost function Numbers(files: set<File>): set<nat> {
    set f | f in files :: f.number
  }

  /** Every file that was ever at the level. */
  function Ever(files: set<File>, edits: seq<Edit>, level: nat): set<File> {
    if edits == [] then files
    else Ever(files, edits[..|edits| - 1], level) + AddedAt(edits[|edits| - 1], level)
  }

  /** No edit adds a number that was at the level before. */
  ghost predicate NeverReadded(files: set<File>, edits: seq<Edit>, level: nat) {
    forall i :: 0 <= i < |edits| ==>
      Numbers(Ever(files, edits[..i], level)) !! Numbers(AddedAt(edits[i], level))
  }

  // ---------- The builder ----------

  function InsertBySmallest(f: File, files: seq<File>): (r: seq<File>)
    ensures forall g :: g in r ==> g == f || g in files
    ensures forall g :: g in files ==> g in r
    ensures Ascending(files) ==> Ascending(r)
    ensures (forall g :: g in files ==> g.number != f.number) ==> f in r
  {
    if files == [] || BySmallest(f, files[0]) then
      BySmallestBefore(f, files);
      [f] + files
    else if !BySmallest(files[0], f) then files
    else
      var rest := InsertBySmallest(f, files[1..]);
      BySmallestBefore(files[0], rest);
      assert files == [files[0]] + files[1..];
      assert Ascending(files) ==> forall g :: g in files[1..] ==> BySmallest(files[0], g);
      [files[0]] + rest
  }

  lemma BySmallestBefore(f: File, files: seq<File>)
    ensures files != [] && Ascending(files) && BySmallest(f, files[0]) ==> forall g :: g in files ==> BySmallest(f, g)
  {
    if files != [] && Ascending(files) && BySmallest(f, files[0]) {
      forall i | 0 <= i < |files| ensures BySmallest(f, files[i]) {
        BySmallestIsTotal(f, files[0], files[i]);
      }
    }
  }

  ghost function Members(files: seq<File>): set<File> {
    set f | f in files
  }

  ghost predicate AllBefore(files: seq<File>, f: File) {
    forall g :: g in files ==> BySmallest(g, f)
  }

  ghost predicate Survivors(r: seq<File>, files: set<File>, deleted: set<nat>) {
    forall f :: f in r <==> f in files && f.number !in deleted
  }

  function MaybeAddFile(r: seq<File>, f: File, deleted: set<nat>): seq<File> {
    if f.number in deleted then r else r + [f]
  }

  lemma AddOne(r: seq<File>, f: File, done: set<File>, deleted: set<nat>)
    requires Ascending(r) && AllBefore(r, f) && Survivors(r, done, deleted)
    ensures Ascending(MaybeAddFile(r, f, deleted))
    ensures Survivors(MaybeAddFile(r, f, deleted), done + {f}, deleted)
  {
    var r' := MaybeAddFile(r, f, deleted);
    assert forall i :: 0 <= i < |r| ==> r[i] in r;
    assert r' == r || forall g :: g in r' <==> g in r || g == f;
  }

  lemma StillBefore(r: seq<File>, f: File, g: File, deleted: set<nat>)
    requires AllBefore(r, f) && BySmallest(f, g)
    ensures AllBefore(r, g) && AllBefore(MaybeAddFile(r, f, deleted), g)
  {
    forall h | h in r ensures BySmallest(h, g) {
      BySmallestIsTotal(h, f, g);
    }
  }

  lemma NextMember(files: seq<File>, i: nat)
    requires i < |files|
    ensures Members(files[..i + 1]) == Members(files[..i]) + {files[i]} && files[i] in files
  {
    assert files[..i + 1] == files[..i] + [files[i]];
  }

  /** VersionSet::Builder::SaveTo for one level: the files of the base version and the added ones
      merged in key order, without the deleted ones. */
  method SaveLevel(base: seq<File>, added: seq<File>, deleted: set<nat>) returns (r: seq<File>)
    requires Ascending(base) && Ascending(added)
    requires forall f, g :: f in base && g in added ==> f.number != g.number
    ensures Ascending(r)
    ensures Survivors(r, Members(base) + Members(added), deleted)
  {
    r := [];
    var b := 0;
    ghost var done: set<File> := {};
    for a := 0 to |added|
      invariant 0 <= b <= |base| && done == Members(base[..b]) + Members(added[..a])
      invariant Ascending(r) && Survivors(r, done, deleted)
      invariant b < |base| ==> AllBefore(r, base[b])
      invariant a < |added| ==> AllBefore(r, added[a])
    {
      var next := added[a];
      NextMember(added, a);
      b, r, done := CopyUpTo(base, b, next, r, Members(added[..a]), deleted);
      if b < |base| { StillBefore(r, next, base[b], deleted); }
      if a + 1 < |added| { StillBefore(r, next, added[a + 1], deleted); }
      AddOne(r, next, done, deleted);
      r, done := MaybeAddFile(r, next, deleted), done + {next};
    }
    assert added[..|added|] == added;
    r := CopyRest(base, b, r, Members(added), deleted);
  }

  lemma CopyOne(base: seq<File>, b: nat, r: seq<File>, others: set<File>, deleted: set<nat>)
    requires Ascending(base) && b < |base|
    requires Ascending(r) && AllBefore(r, base[b]) && Survivors(r, Members(base[..b]) + others, deleted)
    ensures Ascending(MaybeAddFile(r, base[b], deleted))
    ensures Survivors(MaybeAddFile(r, base[b], deleted), Members(base[..b + 1]) + others, deleted)
    ensures b + 1 < |base| ==> AllBefore(MaybeAddFile(r, base[b], deleted), base[b + 1])
  {
    NextMember(base, b);
    AddOne(r, base[b], Members(base[..b]) + others, deleted);
    assert Members(base[..b]) + others + {base[b]} == Members(base[..b + 1]) + others;
    if b + 1 < |base| { StillBefore(r, base[b], base[b + 1], deleted); }
  }

  lemma BeforeNext(f: File, next: File, r: seq<File>, deleted: set<nat>)
    requires f.number != next.number && !BySmallest(next, f) && AllBefore(r, next)
    ensures AllBefore(MaybeAddFile(r, f, deleted), next)
  {
    BySmallestIsTotal(f, next, next);
  }

  /** Adds the base files up to std::upper_bound of the next added file. */
  method CopyUpTo(base: seq<File>, start: nat, next: File, r0: seq<File>, ghost others: set<File>, deleted: set<nat>)
    returns (b: nat, r: seq<File>, ghost done: set<File>)
    requires Ascending(base) && start <= |base| && forall f :: f in base ==> f.number != next.number
    requires Ascending(r0) && AllBefore(r0, next) && (start < |base| ==> AllBefore(r0, base[start]))
    requires Survivors(r0, Members(base[..start]) + others, deleted)
    ensures start <= b <= |base| && (b < |base| ==> BySmallest(next, base[b]))
    ensures done == Members(base[..b]) + others
    ensures Ascending(r) && AllBefore(r, next) && Survivors(r, done, deleted)
  {
    b, r := start, r0;
    while b < |base| && !BySmallest(next, base[b])
      invariant start <= b <= |base|
      invariant Ascending(r) && AllBefore(r, next) && Survivors(r, Members(base[..b]) + others, deleted)
      invariant b < |base| ==> AllBefore(r, base[b])
    {
      BeforeNext(base[b], next, r, deleted);
      CopyOne(base, b, r, others, deleted);
      b, r := b + 1, MaybeAddFile(r, base[b], deleted);
    }
    done := Members(base[..b]) + others;
  }

  method CopyRest(base: seq<File>, start: nat, r0: seq<File>, ghost others: set<File>, deleted: set<nat>)
    returns (r: seq<File>)
    requires Ascending(base) && start <= |base|
    requires Ascending(r0) && (start < |base| ==> AllBefore(r0, base[start]))
    requires Survivors(r0, Members(base[..start]) + others, deleted)
    ensures Ascending(r) && Survivors(r, Members(base) + others, deleted)
  {
    var b := start;
    r := r0;
    while b < |base|
      invariant start <= b <= |base|
      invariant Ascending(r) && Survivors(r, Members(base[..b]) + others, deleted)
      invariant b < |base| ==> AllBefore(r, base[b])
    {
      CopyOne(base, b, r, others, deleted);
      b, r := b + 1, MaybeAddFile(r, base[b], deleted);
    }
    assert base[..|base|] == base;
  }

  /** What the builder's deleted_files_ holds after the edits: a file that is added is no longer deleted. */
  function Pending(edits: seq<Edit>, level: nat): set<nat> {
    if edits == [] then {}
    else
      var e := edits[|edits| - 1];
      Pending(edits[..|edits| - 1], level) + DeletedAt(e, level) - (set f | f in AddedAt(e, level) :: f.number)
  }

  /** Deleting once at the end is the same as deleting edit by edit. */
  lemma {:induction false} DeleteAtTheEnd(files: set<File>, edits: seq<Edit>, level: nat)
    requires NeverReadded(files, edits, level)
    ensures AfterAll(files, edits, level) ==
            set f | f in Ever(files, edits, level) && f.number !in Pending(edits, level)
  {
    if edits != [] {
      var n := |edits| - 1;
      var before, e := edits[..n], edits[n];
      assert forall i :: 0 <= i < n ==> before[..i] == edits[..i];
      DeleteAtTheEnd(files, before, level);
      var earlier := Ever(files, before, level);
      assert Numbers(earlier) !! Numbers(AddedAt(e, level));
      assert forall f :: f in earlier ==> f.number in Numbers(earlier);
      assert forall f :: f in AddedAt(e, level) ==> f.number in Numbers(AddedAt(e, level));
    }
  }

  ghost predicate DistinctNumbers(added: seq<NewFile>) {
    forall i, j :: 0 <= i < j < |added| && added[i].level == added[j].level
                   ==> added[i].file.number != added[j].file.number
  }

  /** The version v' is v with one edit applied, every level in key order. */
  ghost predicate Installs(v: Version, e: Edit, v': Version) {
    forall l :: 0 <= l < NUM_LEVELS ==> Ascending(v'[l]) && Members(v'[l]) == After(Members(v[l]), e, l)
  }

  class Builder {
    const base: Version
    var deleted: seq<set<nat>>
    var added: seq<seq<File>>
    ghost var edits: seq<Edit>

    ghost predicate ValidAt(l: nat)
      requires |deleted| == |added| == NUM_LEVELS && l < NUM_LEVELS
      reads this
    {
      && deleted[l] == Pending(edits, l)
      && Members(base[l]) + Members(added[l]) == Ever(Members(base[l]), edits, l)
      && Ascending(base[l]) && Ascending(added[l])
      && Numbers(Members(base[l])) !! Numbers(Members(added[l]))
      && NeverReadded(Members(base[l]), edits, l)
    }

    ghost predicate Valid()
      reads this
    {
      |deleted| == |added| == NUM_LEVELS && forall l :: 0 <= l < NUM_LEVELS ==> ValidAt(l)
    }

    constructor (v: Version)
      requires forall l :: 0 <= l < NUM_LEVELS ==> Ascending(v[l])
      ensures Valid() && base == v && edits == []
    {
      base := v;
      deleted := seq(NUM_LEVELS, _ => {});
      added := seq(NUM_LEVELS, _ => []);
      edits := [];
    }

    method DeleteFiles(del: set<(nat, nat)>)
      requires |deleted| == NUM_LEVELS && forall d :: d in del ==> d.0 < NUM_LEVELS
      modifies this`deleted
      ensures |deleted| == NUM_LEVELS
      ensures forall l :: 0 <= l < NUM_LEVELS ==> deleted[l] == old(deleted[l]) + DeletedIn(del, l)
    {
      var todo := del;
      while todo != {}
        invariant todo <= del && |deleted| == NUM_LEVELS
        invariant forall l :: 0 <= l < NUM_LEVELS ==> deleted[l] == old(deleted[l]) + DeletedIn(del - todo, l)
        decreases todo
      {
        var d :| d in todo;
        assert del - (todo - {d}) == (del - todo) + {d};
        OneMoreDeleted(del - todo, d);
        deleted := deleted[d.0 := deleted[d.0] + {d.1}];
        todo := todo - {d};
      }
      assert del - todo == del;
    }

    method AddFile(l: nat, f: File)
      requires |deleted| == |added| == NUM_LEVELS && l < NUM_LEVELS
      requires Ascending(added[l]) && forall g :: g in added[l] ==> g.number != f.number
      modifies this`deleted, this`added
      ensures |deleted| == |added| == NUM_LEVELS
      ensures deleted[l] == old(deleted[l]) - {f.number} && Members(added[l]) == old(Members(added[l])) + {f}
      ensures Ascending(added[l])
      ensures forall m :: 0 <= m < NUM_LEVELS && m != l ==> deleted[m] == old(deleted[m]) && added[m] == old(added[m])
    {
      deleted := deleted[l := deleted[l] - {f.number}];
      added := added[l := InsertBySmallest(f, added[l])];
    }

    method AddFiles(fs: seq<NewFile>)
      requires |deleted| == |added| == NUM_LEVELS && DistinctNumbers(fs) && forall n :: n in fs ==> n.level < NUM_LEVELS
      requires forall l :: 0 <= l < NUM_LEVELS ==>
                 Ascending(added[l]) && Numbers(Members(added[l])) !! Numbers(AddedIn(fs, l))
      modifies this`deleted, this`added
      ensures |deleted| == |added| == NUM_LEVELS
      ensures forall l :: 0 <= l < NUM_LEVELS ==>
                && deleted[l] == old(deleted[l]) - Numbers(AddedIn(fs, l))
                && Members(added[l]) == old(Members(added[l])) + AddedIn(fs, l)
                && Ascending(added[l])
    {
      for i := 0 to |fs|
        invariant |deleted| == |added| == NUM_LEVELS
        invariant forall l :: 0 <= l < NUM_LEVELS ==>
                    && deleted[l] == old(deleted[l]) - Numbers(AddedIn(fs[..i], l))
                    && Members(added[l]) == old(Members(added[l])) + AddedIn(fs[..i], l)
                    && Ascending(added[l])
      {
        assert fs[i] in fs;
        OneMore(fs, i);
        FreshNumber(fs, i, old(added[fs[i].level]), added[fs[i].level]);
        AddFile(fs[i].level, fs[i].file);
      }
      assert fs[..|fs|] == fs;
    }

    /** VersionSet::Builder::Apply. */
    method Apply(e: Edit)
      requires Valid()
      requires DistinctNumbers(e.added) && (forall n :: n in e.added ==> n.level < NUM_LEVELS)
      requires forall d :: d in e.deleted ==> d.0 < NUM_LEVELS
      requires forall l :: 0 <= l < NUM_LEVELS ==> NeverReadded(Members(base[l]), edits + [e], l)
      modifies this
      ensures Valid() && edits == old(edits) + [e]
    {
      forall l | 0 <= l < NUM_LEVELS
        ensures Numbers(Ever(Members(base[l]), edits, l)) !! Numbers(AddedAt(e, l))
        ensures Ascending(added[l]) && Numbers(Members(added[l])) !! Numbers(AddedAt(e, l))
      {
        assert ValidAt(l);
        LastIsNew(Members(base[l]), edits, e, l);
        NumbersOfPart(Members(added[l]), Ever(Members(base[l]), edits, l));
      }
      DeleteFiles(e.deleted);
      AddFiles(e.added);
      edits := edits + [e];
      forall l | 0 <= l < NUM_LEVELS ensures ValidAt(l) {
        assert edits[..|edits| - 1] == old(edits);
        assert old(ValidAt(l));
        NumbersOfUnion(old(Members(added[l])), AddedAt(e, l));
        NumbersOfPart(Members(base[l]), Ever(Members(base[l]), old(edits), l));
      }
    }

    /** VersionSet::Builder::SaveTo. */
    method SaveTo() returns (v: Version)
      requires Valid()
      ensures forall l :: 0 <= l < NUM_LEVELS ==>
                Ascending(v[l]) && Members(v[l]) == AfterAll(Members(base[l]), edits, l)
    {
      var levels: seq<seq<File>> := [];
      for l := 0 to NUM_LEVELS
        invariant |levels| == l
        invariant forall m :: 0 <= m < l ==>
                    Ascending(levels[m]) && Members(levels[m]) == AfterAll(Members(base[m]), edits, m)
      {
        assert ValidAt(l);
        assert forall f :: f in base[l] ==> f.number in Numbers(Members(base[l]));
        assert forall f :: f in added[l] ==> f.number in Numbers(Members(added[l]));
        var files := SaveLevel(base[l], added[l], deleted[l]);
        DeleteAtTheEnd(Members(base[l]), edits, l);
        levels := levels + [files];
      }
      v := levels;
    }
  }

  lemma OneMoreDeleted(done: set<(nat, nat)>, d: (nat, nat))
    ensures forall l :: DeletedIn(done + {d}, l) == DeletedIn(done, l) + if d.0 == l then {d.1} else {}
  {
  }

  lemma OneMore(fs: seq<NewFile>, i: nat)
    requires i < |fs|
    ensures AddedIn(fs[..i + 1], fs[i].level) == AddedIn(fs[..i], fs[i].level) + {fs[i].file}
    ensures Numbers(AddedIn(fs[..i + 1], fs[i].level)) == Numbers(AddedIn(fs[..i], fs[i].level)) + {fs[i].file.number}
    ensures forall l :: l != fs[i].level ==> AddedIn(fs[..i + 1], l) == AddedIn(fs[..i], l)
  {
    assert fs[..i + 1] == fs[..i] + [fs[i]];
    NumbersOfUnion(AddedIn(fs[..i], fs[i].level), {fs[i].file});
  }

  lemma FreshNumber(fs: seq<NewFile>, i: nat, before: seq<File>, now: seq<File>)
    requires i < |fs| && DistinctNumbers(fs)
    requires Numbers(Members(before)) !! Numbers(AddedIn(fs, fs[i].level))
    requires Members(now) == Members(before) + AddedIn(fs[..i], fs[i].level)
    ensures forall g :: g in now ==> g.number != fs[i].file.number
  {
    assert fs[i] in fs && fs[i].file in AddedIn(fs, fs[i].level);
    assert fs[i].file.number in Numbers(AddedIn(fs, fs[i].level));
    forall g | g in now ensures g.number != fs[i].file.number {
      assert g in Members(now);
      if g in Members(before) {
        assert g.number in Numbers(Members(before));
      }
    }
  }

  lemma LastIsNew(files: set<File>, edits: seq<Edit>, e: Edit, level: nat)
    requires NeverReadded(files, edits + [e], level)
    ensures Numbers(Ever(files, edits, level)) !! Numbers(AddedAt(e, level))
    ensures NeverReadded(files, edits, level)
  {
    var all := edits + [e];
    assert all[..|edits|] == edits && all[|edits|] == e;
    assert forall i :: 0 <= i < |edits| ==> all[..i] == edits[..i] && all[i] == edits[i];
  }

  lemma NumbersOfPart(a: set<File>, b: set<File>)
    requires a <= b
    ensures Numbers(a) <= Numbers(b)
  {
  }

  lemma NumbersOfUnion(a: set<File>, b: set<File>)
    ensures Numbers(a + b) == Numbers(a) + Numbers(b)
  {
  }

  /** Replay: applying all the edits through one builder gives the version that installing
      them one at a time arrives at. */
  lemma {:induction false} ReplayIsStepwise(versions: seq<Version>, edits: seq<Edit>, replayed: Version)
    requires |versions| == |edits| + 1
    requires forall l :: 0 <= l < NUM_LEVELS ==> Ascending(versions[0][l])
    requires forall i :: 0 <= i < |edits| ==> Installs(versions[i], edits[i], versions[i + 1])
    requires forall l :: 0 <= l < NUM_LEVELS ==>
               Ascending(replayed[l]) && Members(replayed[l]) == AfterAll(Members(versions[0][l]), edits, l)
    ensures replayed == versions[|edits|]
  {
    forall l | 0 <= l < NUM_LEVELS ensures replayed[l] == versions[|edits|][l] {
      StepwiseMembers(versions, edits, l);
      if edits != [] {
        assert Installs(versions[|edits| - 1], edits[|edits| - 1], versions[|edits|]);
      }
      assert forall f :: f in replayed[l] <==> f in Members(replayed[l]);
      assert forall f :: f in versions[|edits|][l] <==> f in Members(versions[|edits|][l]);
      AscendingIsUnique(replayed[l], versions[|edits|][l]);
    }
  }

  lemma {:induction false} StepwiseMembers(versions: seq<Version>, edits: seq<Edit>, l: nat)
    requires |versions| == |edits| + 1 && l < NUM_LEVELS
    requires forall i :: 0 <= i < |edits| ==> Installs(versions[i], edits[i], versions[i + 1])
    ensures Members(versions[|edits|][l]) == AfterAll(Members(versions[0][l]), edits, l)
  {
    if edits != [] {
      var n := |edits| - 1;
      StepwiseMembers(versions[..n + 1], edits[..n], l);
      assert Installs(versions[n], edits[n], versions[n + 1]);
    }
  }
}
