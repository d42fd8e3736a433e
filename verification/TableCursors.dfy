/** The iterator over a table file (db/table_cache.cc, NewIterator; table/table.cc, Table::NewIterator) as an internal
    iterator: on the bytes of a table of internal keys it moves as a cursor over the entries these stand for. */
module TableCursors {
  import opened Coding
  import opened InternalKeys
  import opened Versions
  import opened BlockFormat
  import opened BlockReader
  import opened TableContent
  import opened TableSearch
  import opened TableReading
  import opened TwoLevel
  import opened Bytewise

  /** InternalKeyComparator over the bytewise order of user keys. */
  const INTERNAL_ORDER := Order(InternalRank, UserRank)

  predicate IsInternalKey(b: Bytes) {
    |b| >= 8 && ExtractTag(b) % 256 <= 1
  }

  predicate AreInternalKeys(kvs: seq<KV>) {
    forall i :: 0 <= i < |kvs| ==> IsInternalKey(kvs[i].key)
  }

  function EntryOf(kv: KV): Entry {
    Entry(KeyOf(kv.key), kv.value)
  }

  function EntriesOf(kvs: seq<KV>): (es: seq<Entry>)
    ensures |es| == |kvs| && forall i :: 0 <= i < |es| ==> es[i] == EntryOf(kvs[i])
  {
    seq(|kvs|, i requires 0 <= i < |kvs| => EntryOf(kvs[i]))
  }

  /** An entry's key is what the bytes of its key stand for, and its value is kept as it is. */
  lemma EntriesKeepValues(kvs: seq<KV>, i: nat)
    requires i < |kvs|
    ensures EntriesOf(kvs)[i] == Entry(KeyOf(kvs[i].key), kvs[i].value)
  {
  }

  lemma RankIsOrder(a: Bytes, b: Bytes)
    requires IsInternalKey(a) && IsInternalKey(b)
    ensures InternalRank(a) < InternalRank(b) <==> Less(KeyOf(a), KeyOf(b))
  {
    KeyOfKeepsOrder(a, b);
    InternalRankEmbeds(a, b);
  }

  lemma SameLowerBound(kvs: seq<KV>, target: Bytes, p: nat)
    requires AreInternalKeys(kvs) && IsInternalKey(target) && IsLowerBound(kvs, InternalRank, target, p)
    ensures LowerBound(EntriesOf(kvs), KeyOf(target)) == p
  {
    var es, k := EntriesOf(kvs), KeyOf(target);
    forall i | 0 <= i < |kvs| ensures InternalRank(kvs[i].key) < InternalRank(target) <==> Less(es[i].key, k) {
      RankIsOrder(kvs[i].key, target);
    }
    var b := LowerBound(es, k);
    assert b < |es| ==> !Less(es[b].key, k);
  }

  /** The entries of a table ascend across its blocks. */
  lemma FlatAscends(o: Order, blocks: seq<seq<KV>>, seps: seq<Bytes>)
    requires Sound(o, blocks, seps) && |seps| == |blocks|
    ensures Ascending(Flat(blocks), o.key)
  {
    var all := Flat(blocks);
    forall p, q | 0 <= p < q < |all| ensures o.key(all[p].key) < o.key(all[q].key) {
      var i, n := InSomeBlock(blocks, p);
      var j, m := InSomeBlock(blocks, q);
      FlatAt(blocks, i, n);
      FlatAt(blocks, j, m);
      if j < i {
        StartsGrow(blocks, j, i);
      }
      InBlockOrder(o, blocks, seps, i, n, j, m);
    }
  }

  lemma InBlockOrder(o: Order, blocks: seq<seq<KV>>, seps: seq<Bytes>, i: nat, n: nat, j: nat, m: nat)
    requires Sound(o, blocks, seps) && |seps| == |blocks|
    requires i <= j < |blocks| && n < |blocks[i]| && m < |blocks[j]| && (i == j ==> n < m)
    ensures o.key(blocks[i][n].key) < o.key(blocks[j][m].key)
  {
    assert DataBlock(o, blocks[i]) && DataBlock(o, blocks[j]);
    if i < j {
      AtMostLast(o, blocks[i], n);
      AtMostLast(o, blocks[j], m);
      assert SeparatorIs(o, blocks, seps, i) && SeparatorIs(o, blocks, seps, j - 1);
      if i < j - 1 {
        SeparatorsAscend(o, blocks, seps, i, j - 1);
      }
    }
  }

  lemma TableIsSorted(table: Table)
    requires table.Holds() && table.order == INTERNAL_ORDER && AreInternalKeys(Flat(table.Blocks()))
    ensures Sorted(EntriesOf(Flat(table.Blocks())))
  {
    var kvs := Flat(table.Blocks());
    FlatAscends(table.order, table.Blocks(), table.t.seps);
    forall i, j | 0 <= i < j < |kvs| ensures Less(EntryOf(kvs[i]).key, EntryOf(kvs[j]).key) {
      RankIsOrder(kvs[i].key, kvs[j].key);
    }
  }

  /** The table's file holds these entries. */
  ghost predicate IsTableOf(table: Table, entries: seq<Entry>)
    reads table
  {
    && table.Valid() && table.order == INTERNAL_ORDER
    && AreInternalKeys(Flat(table.Blocks())) && entries == EntriesOf(Flat(table.Blocks()))
  }

  /** Has the contract of Cursor in module Cursors, with keys as bytes. */
  class TableCursor {
    const iter: TwoLevelIterator
    ghost const entries: seq<Entry>
    ghost var pos: int

    ghost predicate Ok()
      reads this, iter, iter.table, iter.indexIter, iter.dataIter
    {
      && IsTableOf(iter.table, entries) && -1 <= pos <= |entries|
      && iter.At(if pos == -1 then |entries| else pos)
    }

    predicate Valid()
      requires Ok()
      reads this, iter, iter.table, iter.indexIter, iter.dataIter
    {
      iter.Valid()
    }

    constructor (table: Table, ghost entries: seq<Entry>)
      requires IsTableOf(table, entries)
      ensures Ok() && Sorted(entries) && this.entries == entries && pos == |entries| && fresh(iter)
              && fresh(iter.indexIter) && iter.dataIter == null
    {
      iter := new TwoLevelIterator(table);
      this.entries, pos := entries, |entries|;
      new;
      TableIsSorted(table);
    }

    lemma ValidIsInside()
      requires Ok()
      ensures Valid() <==> 0 <= pos < |entries|
    {
      hide TwoLevelIterator.At, AreInternalKeys, Table.Valid;
      iter.ValidIsInside(if pos == -1 then |entries| else pos);
    }

    /** What the moves need of Ok, and what makes it up again. */
    lemma Parts()
      requires Ok()
      ensures iter.Parts() && iter.table.Valid() && IsTableOf(iter.table, entries) && |entries| == |iter.All()|
      ensures -1 <= pos <= |entries| && iter.At(if pos == -1 then |entries| else pos)
      ensures AreInternalKeys(iter.All()) && entries == EntriesOf(iter.All())
      ensures Valid() == iter.Valid() == (0 <= pos < |entries|)
    {
      ValidIsInside();
    }

    lemma Whole()
      requires IsTableOf(iter.table, entries) && -1 <= pos <= |entries| && iter.At(if pos == -1 then |entries| else pos)
      ensures Ok()
    {
    }

    method Seek(target: Bytes)
      requires Ok() && IsInternalKey(target)
      modifies this, iter, iter.indexIter, iter.dataIter
      ensures Ok() && pos == LowerBound(entries, KeyOf(target))
      ensures iter.dataIter == old(iter.dataIter) || iter.dataIter == null || fresh(iter.dataIter)
    {
      Parts();
      hide *;
      ghost var p := iter.Seek(target);
      assert IsTableOf(iter.table, entries);
      pos := Bound(target, p);
      Whole();
    }

    /** The order of the table is that of the keys. */
    ghost function Bound(target: Bytes, p: nat): (r: nat)
      requires IsTableOf(iter.table, entries) && IsInternalKey(target)
               && IsLowerBound(iter.All(), iter.table.order.key, target, p)
      reads iter.table
      ensures r == p == LowerBound(entries, KeyOf(target)) <= |entries|
    {
      SameLowerBound(iter.All(), target, p);
      p
    }

    method SeekToFirst()
      requires Ok()
      modifies this, iter, iter.indexIter, iter.dataIter
      ensures Ok() && pos == 0
      ensures iter.dataIter == old(iter.dataIter) || iter.dataIter == null || fresh(iter.dataIter)
    {
      Parts();
      hide *;
      iter.SeekToFirst();
      assert IsTableOf(iter.table, entries);
      pos := 0;
      Whole();
    }

    method SeekToLast()
      requires Ok()
      modifies this, iter, iter.indexIter, iter.dataIter
      ensures Ok() && pos == |entries| - 1
      ensures iter.dataIter == old(iter.dataIter) || iter.dataIter == null || fresh(iter.dataIter)
    {
      Parts();
      hide *;
      iter.SeekToLast();
      assert IsTableOf(iter.table, entries);
      pos := |entries| - 1;
      Whole();
    }

    method Next()
      requires Ok() && Valid()
      modifies this, iter, iter.indexIter, iter.dataIter
      ensures Ok() && pos == old(pos) + 1
      ensures iter.dataIter == old(iter.dataIter) || iter.dataIter == null || fresh(iter.dataIter)
    {
      Parts();
      hide *;
      iter.Next(pos);
      assert IsTableOf(iter.table, entries);
      pos := pos + 1;
      Whole();
    }

    method Prev()
      requires Ok() && Valid()
      modifies this, iter, iter.indexIter, iter.dataIter
      ensures Ok() && pos == old(pos) - 1
      ensures iter.dataIter == old(iter.dataIter) || iter.dataIter == null || fresh(iter.dataIter)
    {
      Parts();
      hide *;
      iter.Prev(pos);
      assert IsTableOf(iter.table, entries);
      pos := pos - 1;
      Whole();
    }

    method Current() returns (e: Entry)
      requires Ok() && Valid()
      ensures 0 <= pos < |entries| && e == entries[pos]
    {
      ValidIsInside();
      var kv := iter.Entry(pos);
      e := EntryOf(kv);
    }
  }
}
