/** Internal iterators (include/leveldb/iterator.h): a position in sorted entries, or no position. */
module Cursors {
  import opened InternalKeys
  import opened Versions

  class Cursor {
    const entries: seq<Entry>
    /** Not valid at -1 (before the first entry) and at |entries| (past the last one). */
    var pos: int

    ghost predicate Ok()
      reads this
    {
      Sorted(entries) && -1 <= pos <= |entries|
    }

    predicate Valid()
      reads this
    {
      0 <= pos < |entries|
    }

    function Current(): Entry
      requires Valid()
      reads this
    {
      entries[pos]
    }

    constructor (entries: seq<Entry>)
      requires Sorted(entries)
      ensures Ok() && this.entries == entries && pos == |entries|
    {
      this.entries, pos := entries, |entries|;
    }

    method Seek(target: IKey)
      requires Ok()
      modifies this
      ensures Ok() && pos == LowerBound(entries, target)
    {
      pos := LowerBound(entries, target);
    }

    method SeekToFirst()
      requires Ok()
      modifies this
      ensures Ok() && pos == 0
    {
      pos := 0;
    }

    method SeekToLast()
      requires Ok()
      modifies this
      ensures Ok() && pos == |entries| - 1
    {
      pos := |entries| - 1;
    }

    method Next()
      requires Ok() && Valid()
      modifies this
      ensures Ok() && pos == old(pos) + 1
    {
      pos := pos + 1;
    }

    method Prev()
      requires Ok() && Valid()
      modifies this
      ensures Ok() && pos == old(pos) - 1
    {
      pos := pos - 1;
    }
  }
}
