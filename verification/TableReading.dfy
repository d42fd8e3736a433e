/** Opening a table and looking a key up in it (table/table.cc). */
module TableReading {
  import opened Coding
  import opened Visibility
  import opened Bytewise
  import opened LogFormat
  import opened BlockFormat
  import opened BlockReader
  import opened TableFormat
  import opened Filters
  import opened TableContent
  import opened TableSearch
  import opened TableBuilding

  /** Every block of the table is shorter than 4 GB. */
  ghost predicate Small(t: Content) {
    && t.indexHandle.size < TWO32 && t.metaHandle.size < TWO32
    && (t.filter.Some? ==> t.filter.value.handle.size < TWO32)
    && forall i {:trigger t.handles[i]} :: 0 <= i < |t.handles| ==> t.handles[i].size < TWO32
  }

  /** The contents of a block of the table, read through its handle. */
  lemma ReadsContents(crc: Checksum, file: Bytes, h: Handle, im: Image, rank: Ranking, verify: bool)
    requires HasBlock(crc, file, h, im, rank) && h.size < TWO32 && |file| < TWO64
    ensures Fits(h) && ReadBlock(crc, file, h, verify) == Some(file[h.offset..h.offset + h.size])
    ensures var data := file[h.offset..h.offset + h.size];
            && |data| == h.size && 4 + 4 * |im.index| <= |data|
            && BlockHolds(data, |data| - 4 - 4 * |im.index|, im, rank)
  {
    BlockIsRead(crc, file, h, file[h.offset..h.offset + h.size], verify);
  }

  class Table {
    const crc: Checksum
    const order: Order
    const policy: Policy
    const policyName: Bytes
    const verify: bool
    const file: Bytes
    var indexBlock: Bytes
    var filter: Option<Bytes>
    ghost const t: Content

    ghost predicate Holds()
    {
      TableHolds(order, crc, file, t, policy, policyName) && Small(t)
    }

    ghost predicate IsIndex(contents: Bytes)
    {
      && 4 + 4 * |t.index.index| <= |contents| < TWO32
      && BlockHolds(contents, |contents| - 4 - 4 * |t.index.index|, t.index, order.key)
    }

    ghost predicate IsFilter(contents: Option<Bytes>)
    {
      contents.Some? ==>
        t.filter.Some? && |contents.value| < TWO32 && contents.value == FilterBlock(policy, t.filter.value.groups)
    }

    ghost predicate Valid()
      reads this
    {
      Holds() && IsIndex(indexBlock) && IsFilter(filter)
    }

    constructor (crc: Checksum, order: Order, policy: Policy, policyName: Bytes, verify: bool, file: Bytes,
                 ghost t: Content)
      requires TableHolds(order, crc, file, t, policy, policyName) && Small(t)
      ensures Holds() && filter == None
      ensures this.t == t && this.file == file && this.order == order && this.policy == policy
    {
      this.crc, this.order, this.policy, this.policyName, this.verify := crc, order, policy, policyName, verify;
      this.file, this.t := file, t;
      indexBlock, filter := [], None;
    }

    /** Reads the index; the filter is only looked for if the options name a filter policy. */
    method Open(usePolicy: bool)
      requires Holds() && filter == None
      modifies this
      ensures Valid() && (filter.Some? <==> usePolicy && t.filter.Some?)
    {
      FooterIsRead();
      var handles := DecodeFooter(file[|file| - FOOTER..]).value;
      indexBlock := ReadIndex(handles.index);
      if usePolicy {
        filter := ReadMeta(handles.metaindex);
      }
    }

    method ReadIndex(indexHandle: Handle) returns (contents: Bytes)
      requires HasBlock(crc, file, t.indexHandle, t.index, order.key) && t.indexHandle.size < TWO32 && |file| < TWO64
      requires indexHandle == t.indexHandle
      ensures IsIndex(contents)
    {
      ReadsContents(crc, file, t.indexHandle, t.index, order.key, verify);
      contents := ReadBlock(crc, file, indexHandle, verify).value;
    }

    lemma FooterIsRead()
      requires Holds()
      ensures |file| >= FOOTER && DecodeFooter(file[|file| - FOOTER..]) == Some(Handles(t.metaHandle, t.indexHandle))
    {
      FooterRoundTrip(t.metaHandle, t.indexHandle);
    }

    /** The value of a key in a block, if it is there. */
    method Lookup(contents: Bytes, key: Bytes, ghost im: Image) returns (value: Option<Bytes>)
      requires 4 + 4 * |im.index| <= |contents| < TWO32
      requires BlockHolds(contents, |contents| - 4 - 4 * |im.index|, im, Rank)
      ensures match value
              case None => forall e :: e in im.entries ==> e.key != key
              case Some(v) => KV(key, v) in im.entries
    {
      var iter := new Iter(contents, Rank, im);
      iter.Seek(key);
      ghost var p := iter.pos;
      if iter.Valid() && iter.key == key {
        value := Some(iter.Value());
        assert im.entries[p] == KV(key, value.value);
        return;
      }
      NotInBlock(im.entries, Rank, key, p);
      return None;
    }

    /** Looks the filter up in the metaindex block. */
    method ReadMeta(metaindexHandle: Handle) returns (contents: Option<Bytes>)
      requires Holds() && metaindexHandle == t.metaHandle
      ensures IsFilter(contents) && (contents.Some? <==> t.filter.Some?)
    {
      ReadsContents(crc, file, t.metaHandle, t.meta, Rank, verify);
      var metaindex := ReadBlock(crc, file, metaindexHandle, verify).value;
      ghost var name := FILTER_PREFIX + policyName;
      var value := Lookup(metaindex, FILTER_PREFIX + policyName, t.meta);
      if t.filter.Some? {
        assert KV(name, HandleBytes(t.filter.value.handle)) in t.meta.entries;
      }
      contents := None;
      if value.Some? {
        contents := ReadFilter(value.value);
      }
    }

    method ReadFilter(value: Bytes) returns (contents: Option<Bytes>)
      requires FilterHolds(crc, file, t, policy, policyName) && |file| < TWO64
      requires t.filter.Some? && t.filter.value.handle.size < TWO32 && value == HandleBytes(t.filter.value.handle)
      ensures IsFilter(contents) && contents.Some?
    {
      ghost var h := t.filter.value.handle;
      assert value + [] == value;
      HandleRoundTrip(h, []);
      BlockIsRead(crc, file, h, FilterBlock(policy, t.filter.value.groups), verify);
      var handle := DecodeHandle(value).value;
      contents := ReadBlock(crc, file, handle, verify);
    }

    /** An iterator over the data block that an index value points to. */
    method BlockReader(value: Bytes, ghost h: Handle, ghost im: Image) returns (iter: Iter)
      requires HasBlock(crc, file, h, im, order.key) && h.size < TWO32 && |file| < TWO64 && value == HandleBytes(h)
      ensures fresh(iter) && iter.Ok() && iter.im == im && iter.rank == order.key
    {
      ReadsContents(crc, file, h, im, order.key, verify);
      assert value + [] == value;
      HandleRoundTrip(h, []);
      var handle := DecodeHandle(value).value;
      var contents := ReadBlock(crc, file, handle, verify).value;
      iter := new Iter(contents, order.key, im);
    }

    /** The handle and the data block at an index position. */
    lemma BlockOf(j: nat)
      requires Holds() && j < |t.handles|
      ensures j < |t.ims| && HasBlock(crc, file, t.handles[j], t.ims[j], order.key) && |file| < TWO64
      ensures t.handles[j].size < TWO32
    {
      assert HasBlock(crc, file, t.handles[j], t.ims[j], order.key);
    }

    // ---------- Looking a key up ----------

    ghost function Blocks(): (r: seq<seq<KV>>)
      ensures |r| == |t.ims|
    {
      Entries(t.ims)
    }

    /** Finds the index entry for k. */
    method SeekIndex(k: Bytes) returns (value: Option<Bytes>, ghost j: nat)
      requires Valid()
      ensures SeekedTo(order, t.seps, k, j)
      ensures match value
              case None => j == |t.seps|
              case Some(v) => j < |t.seps| && v == HandleBytes(t.handles[j])
    {
      var iter := new Iter(indexBlock, order.key, t.index);
      iter.Seek(k);
      j := iter.pos;
      IndexKeys(t.index.entries, t.seps, t.handles);
      if iter.Valid() {
        value := Some(iter.Value());
      } else {
        value := None;
      }
    }

    /** Asks the filter whether the block may hold the user key of k. */
    method MayMatch(value: Bytes, k: Bytes, ghost j: nat) returns (r: bool)
      requires Valid() && j < |t.handles| && value == HandleBytes(t.handles[j]) && |k| >= 8
      ensures !r && NoFalseNegatives(policy) ==>
                forall e :: e in t.ims[j].entries && |e.key| >= 8 ==> ExtractUserKey(e.key) != ExtractUserKey(k)
    {
      BlockOf(j);
      assert value + [] == value;
      HandleRoundTrip(t.handles[j], []);
      r := true;
      var handle := DecodeHandle(value);
      if filter.Some? && handle.Got? {
        r := KeyMayMatch(policy, filter.value, handle.value.offset, ExtractUserKey(k));
        if !r && NoFalseNegatives(policy) {
          forall e | e in t.ims[j].entries && |e.key| >= 8 ensures ExtractUserKey(e.key) != ExtractUserKey(k) {
            if ExtractUserKey(e.key) == ExtractUserKey(k) {
              FilterMatches(policy, t, policyName, j, e, ExtractUserKey(k));
              assert false;
            }
          }
        }
      }
    }

    /** Searches the data block that the index points to, unless the filter rules it out. */
    method SearchBlock(k: Bytes, value: Bytes, ghost j: nat) returns (delivered: Option<KV>, ghost q: nat)
      requires Valid() && j < |t.handles| && value == HandleBytes(t.handles[j]) && |k| >= 8
      ensures IsLowerBound(Blocks()[j], order.key, k, q)
      ensures delivered.Some? ==> q < |Blocks()[j]| && delivered.value == Blocks()[j][q]
      ensures delivered.None? && q < |Blocks()[j]| && NoFalseNegatives(policy) ==>
                forall e :: e in Blocks()[j] && |e.key| >= 8 ==> ExtractUserKey(e.key) != ExtractUserKey(k)
    {
      var mayMatch := MayMatch(value, k, j);
      BlockOf(j);
      delivered := None;
      if !mayMatch {
        q := PlaceIn(t.ims[j].entries, order.key, k);
      } else {
        var iter := BlockReader(value, t.handles[j], t.ims[j]);
        iter.Seek(k);
        q := iter.pos;
        if iter.Valid() {
          delivered := Some(KV(iter.key, iter.Value()));
        }
      }
    }

    /** InternalGet: what the caller's callback is given, if anything, is the first entry of the table from k on;
        if nothing is given, that entry has another user key. */
    method InternalGet(k: Bytes) returns (delivered: Option<KV>)
      requires Valid() && IsInternal(order) && |k| >= 8
      ensures Delivers(order, Flat(Blocks()), k, delivered, NoFalseNegatives(policy))
    {
      var value;
      ghost var j, q := 0, 0;
      value, j := SeekIndex(k);
      delivered := None;
      if value.Some? {
        delivered, q := SearchBlock(k, value.value, j);
      }
      Concluded(order, Blocks(), t.seps, k, j, q, delivered, NoFalseNegatives(policy));
    }
  }

  /** What is delivered is the first entry at or after k; if nothing is, and one can be sure of the filter, that
      entry has another user key, or there is none. */
  ghost predicate Delivers(o: Order, entries: seq<KV>, k: Bytes, delivered: Option<KV>, sure: bool)
    requires |k| >= 8
  {
    exists p: nat ::
      && IsLowerBound(entries, o.key, k, p)
      && (delivered.Some? ==> p < |entries| && delivered.value == entries[p])
      && (delivered.None? && p < |entries| && sure ==>
            |entries[p].key| >= 8 && ExtractUserKey(entries[p].key) != ExtractUserKey(k))
  }

  lemma Concluded(o: Order, blocks: seq<seq<KV>>, seps: seq<Bytes>, k: Bytes, j: nat, q: nat, delivered: Option<KV>,
                  sure: bool)
    requires IsInternal(o) && Sound(o, blocks, seps) && |seps| == |blocks| && SeekedTo(o, seps, k, j) && |k| >= 8
    requires if j < |blocks| then IsLowerBound(blocks[j], o.key, k, q) else q == 0
    requires delivered.Some? ==> j < |blocks| && q < |blocks[j]| && delivered.value == blocks[j][q]
    requires delivered.None? && j < |blocks| && q < |blocks[j]| && sure ==>
               forall e :: e in blocks[j] && |e.key| >= 8 ==> ExtractUserKey(e.key) != ExtractUserKey(k)
    ensures Delivers(o, Flat(blocks), k, delivered, sure)
  {
    var p := Target(blocks, j, q);
    TargetIsLowerBound(o, blocks, seps, k, j, q);
    StartAtEnd(blocks);
    if j < |blocks| {
      assert DataBlock(o, blocks[j]) && SeparatorIs(o, blocks, seps, j);
      if q < |blocks[j]| {
        FlatAt(blocks, j, q);
        assert blocks[j][q] in blocks[j];
      } else if j + 1 < |blocks| {
        NothingInBlock(o, blocks, seps, k, j);
      } else {
        StartsGrow(blocks, j, j + 1);
        FlatAt(blocks, j, 0);
      }
    }
  }

  lemma NothingInBlock(o: Order, blocks: seq<seq<KV>>, seps: seq<Bytes>, k: Bytes, j: nat)
    requires IsInternal(o) && Sound(o, blocks, seps) && |seps| == |blocks| && SeekedTo(o, seps, k, j) && |k| >= 8
    requires j + 1 < |blocks| && blocks[j] != [] && IsLowerBound(blocks[j], o.key, k, |blocks[j]|)
    ensures blocks[j + 1] != [] && |First(blocks[j + 1])| >= 8
    ensures Target(blocks, j, |blocks[j]|) < |Flat(blocks)|
    ensures Flat(blocks)[Target(blocks, j, |blocks[j]|)] == blocks[j + 1][0]
    ensures ExtractUserKey(First(blocks[j + 1])) != ExtractUserKey(k)
  {
    assert SeparatorIs(o, blocks, seps, j) && DataBlock(o, blocks[j + 1]);
    var sep, first := seps[j], First(blocks[j + 1]);
    UserRankFollows(k, sep);
    assert o.key(k) == InternalRank(k) && o.key(sep) == InternalRank(sep);
    assert o.user(k) == UserRank(k) && o.user(sep) == UserRank(sep) && o.user(first) == UserRank(first);
    OtherUserKey(o, blocks, seps, k, j);
  }

  /** If the first entry from key on is not key, no entry is. */
  lemma NotInBlock(entries: seq<KV>, rank: Ranking, key: Bytes, p: nat)
    requires Ascending(entries, rank) && IsLowerBound(entries, rank, key, p)
    requires p < |entries| ==> entries[p].key != key
    ensures forall e :: e in entries ==> e.key != key
  {
    forall i | 0 <= i < |entries| ensures entries[i].key != key {
      if i < p {
        assert rank(entries[i].key) < rank(key);
      } else if p < i {
        assert rank(entries[p].key) < rank(entries[i].key);
      }
    }
  }

  lemma {:induction false} PlaceIn(entries: seq<KV>, rank: Ranking, k: Bytes) returns (q: nat)
    ensures IsLowerBound(entries, rank, k, q)
  {
    if entries == [] {
      q := 0;
    } else {
      q := PlaceIn(entries[..|entries| - 1], rank, k);
      if q == |entries| - 1 && rank(entries[q].key) < rank(k) {
        q := q + 1;
      }
    }
  }

  /** The handle's offset is all that the filter is asked with; it matches every key of the block. */
  lemma FilterMatches(policy: Policy, t: Content, name: Bytes, j: nat, e: KV, k: Bytes)
    requires FilterListed(t, name) && t.filter.Some? && NoFalseNegatives(policy)
    requires |FilterBlock(policy, t.filter.value.groups)| < TWO32
    requires j < |t.handles| && e in t.ims[j].entries && |e.key| >= 8 && ExtractUserKey(e.key) == k
    ensures KeyMayMatch(policy, FilterBlock(policy, t.filter.value.groups), t.handles[j].offset, k)
  {
    var f, offset := t.filter.value, t.handles[j].offset;
    assert FilteredBlock(f.added, offset, t.ims[j].entries);
    AddedKeysMatch(policy, f.groups, offset, k);
  }

  lemma IndexKeys(index: seq<KV>, seps: seq<Bytes>, handles: seq<Handle>)
    requires IndexIs(index, seps, handles)
    ensures forall i {:trigger seps[i]} :: 0 <= i < |seps| ==> index[i].key == seps[i]
    ensures forall i {:trigger handles[i]} :: 0 <= i < |seps| ==> index[i].value == HandleBytes(handles[i])
  {
    forall i | 0 <= i < |seps| ensures index[i] == KV(seps[i], HandleBytes(handles[i])) {
    }
  }
}
