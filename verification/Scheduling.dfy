/** Which of the store's steps one process takes, given how it picks levels, inputs and output files
    (db/db_impl.cc, BackgroundCompaction; db/version_set.cc, PickCompaction). */
module Scheduling {
  import opened InternalKeys
  import opened Visibility
  import opened Versions
  import opened CompactionWork
  import opened CompactionPicking
  import opened CompactionSafety
  import opened Flush
  import opened Store
  import opened StoreRuns

  /** Options::max_file_size, and how large a table of some entries is. */
  datatype Sizes = Sizes(maxFileSize: nat, sizeOf: SizeOf)

  const NO_POINTERS: Pointers := [None, None, None, None, None, None, None]

  function CutsOf(p: Plan, sizes: Sizes): CutRule {
    CutRule(p.grandparents, 10 * sizes.maxFileSize, sizes.sizeOf, sizes.maxFileSize)
  }

  /** The output tables are those of the drop loop over the merged inputs. */
  ghost predicate CompactsInto(db: Db, p: Plan, outputs: seq<File>, sizes: Sizes) {
    exists input ::
      && Sorted(input) && EntrySet(input) == InputEntries(p)
      && AreTables(outputs, CutInto(CutsOf(p, sizes), input, SmallestSnapshot(db), DropBase(db.version, p)),
                   sizes.sizeOf)
  }

  /** Compaction::IsTrivialMove. */
  predicate IsTrivialMove(p: Plan, sizes: Sizes) {
    |p.inputs0| == 1 && p.inputs1 == [] && TotalSize(p.grandparents) <= 10 * sizes.maxFileSize
  }

  /** The background thread's own plan; no lookup has charged a file. */
  ghost predicate PicksItself(db: Db, pointers: Pointers, p: Plan, sizes: Sizes) {
    Picks(db.version, pointers, None, sizes.maxFileSize, p)
  }

  ghost predicate IsManual(db: Db, p: Plan, sizes: Sizes) {
    exists begin, end :: PicksRange(db.version, p.level, begin, end, sizes.maxFileSize, p)
  }

  /** Flushes go to the level that is picked for them, compactions and moves are those that the background thread
      picks or is asked for, and only its own are moves. */
  ghost predicate CodeTakes(db: Db, pointers: Pointers, step: Step, pointers': Pointers, sizes: Sizes) {
    match step
    case Flushed(files, level, _) =>
      && pointers' == pointers
      && forall f :: f in files ==>
           IsPickedLevel(db.version, f.smallest.user, f.largest.user, sizes.maxFileSize, level)
               && f.size == sizes.sizeOf(f.entries)
    case Compacted(p, outputs, _) =>
      && ((PicksItself(db, pointers, p, sizes) && !IsTrivialMove(p, sizes)) || IsManual(db, p, sizes))
      && CompactsInto(db, p, outputs, sizes)
      && PointsPast(pointers, p, pointers')
    case Moved(p, _) =>
      PicksItself(db, pointers, p, sizes) && IsTrivialMove(p, sizes) && PointsPast(pointers, p, pointers')
    case Reopen(_, _, _, _, _, _) => false
    case Abandon(_, _, _) => false
    case _ => pointers' == pointers
  }

  /** A run of one process on a new database. */
  ghost predicate IsCodeRun(dbs: seq<Db>, steps: seq<Step>, pointers: seq<Pointers>, sizes: Sizes) {
    && IsRun(dbs, steps) && |pointers| == |dbs| && pointers[0] == NO_POINTERS
    && forall i :: 0 <= i < |steps| ==> CodeTakes(dbs[i], pointers[i], steps[i], pointers[i + 1], sizes)
  }

  lemma OneMoreCodeStep(dbs: seq<Db>, steps: seq<Step>, pointers: seq<Pointers>, sizes: Sizes, step: Step, db: Db,
                        pointers': Pointers)
    requires IsCodeRun(dbs, steps, pointers, sizes)
    requires Next(dbs[|steps|], step, db) && CodeTakes(dbs[|steps|], pointers[|steps|], step, pointers', sizes)
    ensures IsCodeRun(dbs + [db], steps + [step], pointers + [pointers'], sizes)
  {
    hide Next, CodeTakes;
    var ds, ss, ps := dbs + [db], steps + [step], pointers + [pointers'];
    forall i | 0 <= i < |ss| ensures Next(ds[i], ss[i], ds[i + 1]) && CodeTakes(ds[i], ps[i], ss[i], ps[i + 1], sizes) {
      if i < |steps| {
        assert ds[i] == dbs[i] && ds[i + 1] == dbs[i + 1] && ss[i] == steps[i] && ps[i] == pointers[i]
               && ps[i + 1] == pointers[i + 1];
      }
    }
  }

  ghost predicate CodeReaches(sizes: Sizes, db: Db, pointers: Pointers) {
    exists dbs, steps, ps :: IsCodeRun(dbs, steps, ps, sizes) && dbs[|steps|] == db && ps[|steps|] == pointers
  }

  lemma CodeReachesCreated(sizes: Sizes)
    ensures CodeReaches(sizes, CREATED, NO_POINTERS)
  {
    var steps: seq<Step> := [];
    assert IsCodeRun([CREATED], steps, [NO_POINTERS], sizes);
  }

  lemma CodeReachesNext(sizes: Sizes, db: Db, pointers: Pointers, step: Step, db': Db, pointers': Pointers)
    requires CodeReaches(sizes, db, pointers) && Next(db, step, db') && CodeTakes(db, pointers, step, pointers', sizes)
    ensures CodeReaches(sizes, db', pointers')
  {
    hide Next, CodeTakes;
    var dbs, steps, ps :| IsCodeRun(dbs, steps, ps, sizes) && dbs[|steps|] == db && ps[|steps|] == pointers;
    OneMoreCodeStep(dbs, steps, ps, sizes, step, db', pointers');
    assert (dbs + [db'])[|steps + [step]|] == db' && (ps + [pointers'])[|steps + [step]|] == pointers';
  }
}
