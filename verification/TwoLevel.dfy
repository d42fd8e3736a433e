/** Iterating over all entries of a table (table/two_level_iterator.cc). */
module TwoLevel {
  import opened Coding
  import opened BlockFormat
  import opened BlockReader
  import opened TableFormat
  import opened TableContent
  import opened TableSearch
  import opened TableReading

  lemma PlaceInTable(o: Order, blocks: seq<seq<KV>>, index: seq<KV>, seps: seq<Bytes>, handles: seq<Handle>,
                     target: Bytes, j: nat, q: nat)
    requires Sound(o, blocks, seps) && |seps| == |blocks| && IndexIs(index, seps, handles)
    requires IsLowerBound(index, o.key, target, j)
    requires if j < |blocks| then IsLowerBound(blocks[j], o.key, target, q) else q == 0
    ensures j <= |blocks| && IsLowerBound(Flat(blocks), o.key, target, Start(blocks, j) + q)
    ensures j == |blocks| ==> Start(blocks, j) == |Flat(blocks)|
  {
    IndexKeys(index, seps, handles);
    TargetIsLowerBound(o, blocks, seps, target, j, q);
    StartAtEnd(blocks);
  }

  class TwoLevelIterator {
    const table: Table
    var indexIter: Iter
    /** None, or an iterator over the data block with this handle. */
    var dataIter: Iter?
    var dataBlockHandle: Bytes
    /** Which data block that is. */
    ghost var current: nat

    ghost function Blocks(): seq<seq<KV>>
    {
      table.Blocks()
    }

    ghost function All(): seq<KV>
    {
      Flat(Blocks())
    }

    ghost predicate IndexOk()
      reads this, indexIter
    {
      indexIter.Ok() && |table.t.index.entries| == |Blocks()| && indexIter.im == table.t.index
          && indexIter.rank == table.order.key
    }

    /** The data iterator is one over data block j. */
    ghost predicate DataAt(j: nat)
      reads this, dataIter
    {
      && dataIter != null && dataIter.Ok() && j < |table.t.ims| && j < |table.t.handles|
      && dataIter.im == table.t.ims[j]
      && dataIter.rank == table.order.key && dataBlockHandle == HandleBytes(table.t.handles[j])
    }

    ghost predicate Parts()
      reads this, indexIter, dataIter
    {
      IndexOk() && indexIter != dataIter && (dataIter != null ==> DataAt(current))
    }

    /** Standing at entry p, or, if p is their number, nowhere. */
    ghost predicate At(p: nat)
      reads this, indexIter, dataIter
    {
      && Parts()
      && if dataIter == null then p == |All()|
         else && current == indexIter.pos && DataAt(current) && dataIter.pos < |Blocks()[indexIter.pos]|
              && p == Start(Blocks(), indexIter.pos) + dataIter.pos
    }

    /** Like At(p), but the data iterator may have run off the end of its block. */
    ghost predicate Forward(p: nat)
      reads this, indexIter, dataIter
    {
      && Parts()
      && if indexIter.pos == |Blocks()| then dataIter == null && p == |All()|
         else current == indexIter.pos && DataAt(current) && p == Start(Blocks(), indexIter.pos) + dataIter.pos
    }

    /** Like At(p), but the data iterator may have run off the beginning of its block. */
    ghost predicate Backward(p: nat)
      reads this, indexIter, dataIter
    {
      && Parts()
      && if indexIter.pos == |Blocks()| then dataIter == null && p == |All()|
         else && current == indexIter.pos && DataAt(current)
              && var start := Start(Blocks(), indexIter.pos);
                 if dataIter.pos < |Blocks()[indexIter.pos]| then p == start + dataIter.pos
                 else p == if start == 0 then |All()| else start - 1
    }

    predicate Valid()
      requires dataIter != null ==> dataIter.Ok()
      reads this, dataIter
    {
      dataIter != null && dataIter.Valid()
    }

    lemma ValidIsInside(p: nat)
      requires At(p)
      ensures Valid() <==> p < |All()|
    {
      if dataIter != null {
        FlatAt(Blocks(), indexIter.pos, dataIter.pos);
      }
    }

    constructor (table: Table)
      requires table.Valid()
      ensures At(|All()|) && this.table == table && fresh(indexIter) && dataIter == null
    {
      this.table := table;
      indexIter := new Iter(table.indexBlock, table.order.key, table.t.index);
      dataIter, dataBlockHandle, current := null, [], 0;
      new;
      BlockCount();
    }

    lemma BlockCount()
      requires table.Valid()
      ensures |table.t.index.entries| == |Blocks()| == |table.t.handles| == |table.t.ims|
      ensures forall j :: 0 <= j < |Blocks()| ==> Blocks()[j] == table.t.ims[j].entries != []
      ensures forall j {:trigger table.t.handles[j]} :: 0 <= j < |Blocks()| ==>
                table.t.index.entries[j].value == HandleBytes(table.t.handles[j])
      ensures forall i, j :: 0 <= i < j < |Blocks()| ==> table.t.handles[i].offset < table.t.handles[j].offset
    {
      IndexKeys(table.t.index.entries, table.t.seps, table.t.handles);
      forall j | 0 <= j < |Blocks()| ensures Blocks()[j] != [] {
        assert DataBlock(table.order, Blocks()[j]);
      }
    }

    /** A handle names one block. */
    lemma SameHandle(i: nat, j: nat)
      requires table.Valid() && i < |table.t.handles| && j < |table.t.handles|
      requires HandleBytes(table.t.handles[i]) == HandleBytes(table.t.handles[j])
      ensures i == j
    {
      var a, b := table.t.handles[i], table.t.handles[j];
      table.BlockOf(i);
      table.BlockOf(j);
      HandleRoundTrip(a, []);
      HandleRoundTrip(b, []);
      assert a.offset == b.offset;
      BlockCount();
    }

    /** Opens the data block at the index position, unless it is open already. */
    method InitDataBlock()
      requires table.Valid() && Parts()
      modifies this`dataIter, this`dataBlockHandle, this`current
      ensures Parts() && (dataIter == old(dataIter) || dataIter == null || fresh(dataIter))
      ensures if indexIter.pos == |Blocks()| then dataIter == null else current == indexIter.pos && DataAt(current)
    {
      BlockCount();
      if !indexIter.Valid() {
        dataIter := null;
        return;
      }
      ghost var j := indexIter.pos;
      var handle := indexIter.Value();
      if dataIter != null && handle == dataBlockHandle {
        SameHandle(current, j);
      } else {
        table.BlockOf(j);
        var iter := table.BlockReader(handle, table.t.handles[j], table.t.ims[j]);
        dataBlockHandle := handle;
        dataIter := iter;
        current := j;
      }
    }

    /** Skips to the next block while the current one has no entry left. */
    method SkipEmptyDataBlocksForward(ghost p: nat)
      requires table.Valid() && Forward(p)
      modifies this, indexIter, dataIter
      ensures At(p) && indexIter == old(indexIter)
      ensures dataIter == old(dataIter) || dataIter == null || fresh(dataIter)
    {
      BlockCount();
      while dataIter == null || !dataIter.Valid()
        invariant Forward(p) && indexIter == old(indexIter)
        invariant dataIter == old(dataIter) || dataIter == null || fresh(dataIter)
        decreases |Blocks()| - indexIter.pos, if dataIter == null then 0 else 1
      {
        if !indexIter.Valid() {
          dataIter := null;
          return;
        }
        NextBlock(p);
      }
    }

    /** One turn of the loop: on to the next block. */
    method NextBlock(ghost p: nat)
      requires table.Valid() && Forward(p) && indexIter.pos < |Blocks()| && !dataIter.Valid()
      modifies this, indexIter, dataIter
      ensures Forward(p) && indexIter == old(indexIter) && indexIter.pos == old(indexIter.pos) + 1
      ensures dataIter == old(dataIter) || dataIter == null || fresh(dataIter)
    {
      BlockCount();
      ghost var j := indexIter.pos;
      FlatAt(Blocks(), j, 0);
      StartAtEnd(Blocks());
      indexIter.Next();
      InitDataBlock();
      DataToFirst();
    }

    method DataToFirst()
      requires Parts()
      modifies dataIter
      ensures Parts() && (dataIter != null ==> dataIter.pos == 0)
    {
      if dataIter != null {
        dataIter.SeekToFirst();
      }
    }

    method DataToLast()
      requires Parts()
      modifies dataIter
      ensures Parts() && (dataIter != null ==> dataIter.pos == |dataIter.im.entries| - 1 || dataIter.im.entries == [])
    {
      if dataIter != null {
        dataIter.SeekToLast();
      }
    }

    /** Where an index position and a position in its block lead. */
    lemma Leads(target: Bytes, j: nat, q: nat)
      requires table.Valid() && IsLowerBound(table.t.index.entries, table.order.key, target, j)
      requires if j < |Blocks()| then IsLowerBound(Blocks()[j], table.order.key, target, q) else q == 0
      ensures j <= |Blocks()| && IsLowerBound(All(), table.order.key, target, Start(Blocks(), j) + q)
      ensures j == |Blocks()| ==> Start(Blocks(), j) == |All()|
    {
      PlaceInTable(table.order, Blocks(), table.t.index.entries, table.t.seps, table.t.handles, target, j, q);
    }

    method SeekIndex(target: Bytes)
      requires table.Valid() && Parts()
      modifies this, indexIter
      ensures Parts() && IsLowerBound(table.t.index.entries, table.order.key, target, indexIter.pos)
      ensures if indexIter.pos == |Blocks()| then dataIter == null else current == indexIter.pos && dataIter != null
      ensures indexIter == old(indexIter) && (dataIter == old(dataIter) || dataIter == null || fresh(dataIter))
    {
      indexIter.Seek(target);
      InitDataBlock();
    }

    method SeekBoth(target: Bytes) returns (ghost p: nat)
      requires table.Valid() && Parts()
      modifies this, indexIter, dataIter
      ensures Forward(p) && IsLowerBound(All(), table.order.key, target, p)
      ensures indexIter == old(indexIter) && (dataIter == old(dataIter) || dataIter == null || fresh(dataIter))
    {
      SeekIndex(target);
      p := SeekData(target);
    }

    method DataSeek(target: Bytes)
      requires Parts()
      modifies dataIter
      ensures Parts()
      ensures dataIter != null ==> IsLowerBound(dataIter.im.entries, table.order.key, target, dataIter.pos)
    {
      if dataIter != null {
        dataIter.Seek(target);
      }
    }

    method SeekData(target: Bytes) returns (ghost p: nat)
      requires table.Valid() && Parts() && IsLowerBound(table.t.index.entries, table.order.key, target, indexIter.pos)
      requires if indexIter.pos == |Blocks()| then dataIter == null else current == indexIter.pos && dataIter != null
      modifies dataIter
      ensures Forward(p) && IsLowerBound(All(), table.order.key, target, p)
    {
      DataSeek(target);
      p := Start(Blocks(), indexIter.pos) + if dataIter != null then dataIter.pos else 0;
      Placed(target);
    }

    /** The position after both iterators have sought the target. */
    lemma Placed(target: Bytes)
      requires table.Valid() && Parts() && IsLowerBound(table.t.index.entries, table.order.key, target, indexIter.pos)
      requires if indexIter.pos == |Blocks()| then dataIter == null else current == indexIter.pos && dataIter != null
      requires dataIter != null ==> IsLowerBound(dataIter.im.entries, table.order.key, target, dataIter.pos)
      ensures var p := Start(Blocks(), indexIter.pos) + if dataIter != null then dataIter.pos else 0;
              Forward(p) && IsLowerBound(All(), table.order.key, target, p)
    {
      Leads(target, indexIter.pos, if dataIter != null then dataIter.pos else 0);
    }

    method Seek(target: Bytes) returns (ghost p: nat)
      requires table.Valid() && Parts()
      modifies this, indexIter, dataIter
      ensures At(p) && IsLowerBound(All(), table.order.key, target, p)
      ensures indexIter == old(indexIter) && (dataIter == old(dataIter) || dataIter == null || fresh(dataIter))
    {
      p := SeekBoth(target);
      SkipEmptyDataBlocksForward(p);
    }

    method SeekToFirst()
      requires table.Valid() && Parts()
      modifies this, indexIter, dataIter
      ensures At(0)
      ensures indexIter == old(indexIter) && (dataIter == old(dataIter) || dataIter == null || fresh(dataIter))
    {
      indexIter.SeekToFirst();
      InitDataBlock();
      DataToFirst();
      FirstStart();
      SkipEmptyDataBlocksForward(0);
    }

    lemma FirstStart()
      ensures Start(Blocks(), 0) == 0 && (Blocks() == [] ==> All() == [])
    {
    }

    method Next(ghost p: nat)
      requires table.Valid() && At(p) && Valid()
      modifies this, indexIter, dataIter
      ensures At(p + 1)
      ensures indexIter == old(indexIter) && (dataIter == old(dataIter) || dataIter == null || fresh(dataIter))
    {
      dataIter.Next();
      SkipEmptyDataBlocksForward(p + 1);
    }

    /** Skips to the block before while the current one has no entry left. */
    method SkipEmptyDataBlocksBackward(ghost p: nat)
      requires table.Valid() && Backward(p)
      modifies this, indexIter, dataIter
      ensures At(p) && indexIter == old(indexIter)
      ensures dataIter == old(dataIter) || dataIter == null || fresh(dataIter)
    {
      while dataIter == null || !dataIter.Valid()
        invariant Backward(p) && indexIter == old(indexIter)
        invariant dataIter == old(dataIter) || dataIter == null || fresh(dataIter)
        decreases if indexIter.pos == |Blocks()| then 0 else indexIter.pos + 1, if dataIter == null then 0 else 1
      {
        if !indexIter.Valid() {
          dataIter := null;
          return;
        }
        PrevBlock(p);
      }
    }

    /** One turn of the loop: back to the block before. */
    method PrevBlock(ghost p: nat)
      requires table.Valid() && Backward(p) && indexIter.pos < |Blocks()| && !dataIter.Valid()
      modifies this, indexIter, dataIter
      ensures Backward(p) && indexIter == old(indexIter)
      ensures indexIter.pos == if old(indexIter.pos) == 0 then |Blocks()| else old(indexIter.pos) - 1
      ensures dataIter == old(dataIter) || dataIter == null || fresh(dataIter)
    {
      hide Flat, Start, Backward, Table.Valid;
      ghost var j := indexIter.pos;
      OffTheFront(p);
      BeforeStart(j);
      indexIter.Prev();
      InitDataBlock();
      DataToLast();
      InTheBlockBefore(p, j);
    }

    /** The data iterator has run off the beginning of its block. */
    lemma OffTheFront(p: nat)
      requires table.Valid() && Backward(p) && indexIter.pos < |Blocks()| && !dataIter.Valid()
      ensures p == if Start(Blocks(), indexIter.pos) == 0 then |All()| else Start(Blocks(), indexIter.pos) - 1
      ensures IndexOk() && Parts() && dataIter.Ok()
    {
      hide Flat, Start;
    }

    /** At the last entry of the block before block j, or nowhere if j is the first one. */
    lemma InTheBlockBefore(p: nat, j: nat)
      requires table.Valid() && Parts() && j < |Blocks()|
      requires p == if Start(Blocks(), j) == 0 then |All()| else Start(Blocks(), j) - 1
      requires indexIter.pos == if j == 0 then |Blocks()| else j - 1
      requires if j == 0 then dataIter == null
               else
                 && current == j - 1 && DataAt(j - 1) && Blocks()[j - 1] != []
                 && (dataIter.pos == |dataIter.im.entries| - 1 || dataIter.im.entries == [])
      requires Start(Blocks(), j) == 0 <==> j == 0
      requires 0 < j ==> Start(Blocks(), j) == Start(Blocks(), j - 1) + |Blocks()[j - 1]|
      ensures Backward(p)
    {
      hide Flat, Start;
    }

    /** The entry before the start of block j is the last one of the block before. */
    lemma BeforeStart(j: nat)
      requires table.Valid() && j < |Blocks()|
      ensures Start(Blocks(), j) == 0 <==> j == 0
      ensures 0 < j ==> Blocks()[j - 1] != [] && Start(Blocks(), j) == Start(Blocks(), j - 1) + |Blocks()[j - 1]|
    {
      BlockCount();
      if 0 < j {
        FlatAt(Blocks(), j - 1, 0);
      }
    }

    method SeekBothLast() returns (ghost p: nat)
      requires table.Valid() && Parts()
      modifies this, indexIter, dataIter
      ensures Backward(p) && p == if All() == [] then 0 else |All()| - 1
      ensures indexIter == old(indexIter) && (dataIter == old(dataIter) || dataIter == null || fresh(dataIter))
    {
      LastStart();
      indexIter.SeekToLast();
      InitDataBlock();
      DataToLast();
      p := if All() == [] then 0 else |All()| - 1;
      ghost var j := indexIter.pos;
      if dataIter == null {
        assert Blocks() == [];
      } else {
        assert j == |Blocks()| - 1 && dataIter.im.entries == Blocks()[j];
        assert dataIter.pos < |Blocks()[j]| && p == Start(Blocks(), j) + dataIter.pos;
      }
    }

    method SeekToLast()
      requires table.Valid() && Parts()
      modifies this, indexIter, dataIter
      ensures At(if All() == [] then 0 else |All()| - 1)
      ensures indexIter == old(indexIter) && (dataIter == old(dataIter) || dataIter == null || fresh(dataIter))
    {
      ghost var p := SeekBothLast();
      SkipEmptyDataBlocksBackward(p);
    }

    lemma LastStart()
      requires table.Valid()
      ensures Blocks() == [] <==> All() == []
      ensures var n := |Blocks()|;
              0 < n ==> Blocks()[n - 1] != [] && Start(Blocks(), n - 1) + |Blocks()[n - 1]| == |All()|
    {
      var n := |Blocks()|;
      BlockCount();
      StartAtEnd(Blocks());
      if 0 < n {
        FlatAt(Blocks(), n - 1, 0);
      }
    }

    method Prev(ghost p: nat)
      requires table.Valid() && At(p) && Valid()
      modifies this, indexIter, dataIter
      ensures At(if p == 0 then |All()| else p - 1)
      ensures indexIter == old(indexIter) && (dataIter == old(dataIter) || dataIter == null || fresh(dataIter))
    {
      BeforeStart(indexIter.pos);
      dataIter.Prev();
      SkipEmptyDataBlocksBackward(if p == 0 then |All()| else p - 1);
    }

    /** The key and the value where the iterator stands. */
    method Entry(ghost p: nat) returns (e: KV)
      requires At(p) && Valid()
      ensures p < |All()| && e == All()[p]
    {
      FlatAt(Blocks(), indexIter.pos, dataIter.pos);
      e := KV(dataIter.key, dataIter.Value());
    }
  }
}
