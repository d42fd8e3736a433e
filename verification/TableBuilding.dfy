/** Building a table (table/table_builder.cc). */
module TableBuilding {
  import opened Coding
  import opened Visibility
  import opened Bytewise
  import opened LogFormat
  import opened BlockFormat
  import opened BlockReader
  import opened TableFormat
  import opened Filters
  import opened TableContent

  /** The data blocks written so far and the one that is being filled. */
  function AllBlocks(ims: seq<Image>, current: seq<KV>): seq<seq<KV>> {
    if current == [] then Entries(ims) else Entries(ims) + [current]
  }

  ghost predicate LastKeyIs(ims: seq<Image>, current: seq<KV>, lastKey: Bytes) {
    if current != [] then lastKey == Last(current)
    else if ims != [] then ims[|ims| - 1].entries != [] && lastKey == Last(ims[|ims| - 1].entries)
    else true
  }

  lemma EmptyBuffer(buffer: Bytes, im: Image)
    requires Encodes(buffer, im)
    ensures buffer == [] <==> im.entries == []
  {
    if im.entries != [] {
      OffsetsGrow(buffer, im, 0, |im.entries|);
    }
  }

  /** The order of internal keys, given as ranks. */
  ghost predicate IsInternal(order: Order) {
    && (forall k {:trigger InternalRank(k)} :: order.key(k) == InternalRank(k))
    && (forall k {:trigger UserRank(k)} :: order.user(k) == UserRank(k))
  }

  /** How far a table is: the blocks written, the index so far and the block that is being filled. */
  datatype Progress = Progress(
    ims: seq<Image>, handles: seq<Handle>, seps: seq<Bytes>, index: seq<KV>,
    current: seq<KV>, lastKey: Bytes, pending: bool, pendingHandle: Handle)

  function All(p: Progress): seq<seq<KV>> {
    AllBlocks(p.ims, p.current)
  }

  ghost predicate Consistent(order: Order, p: Progress) {
    && Sound(order, All(p), p.seps)
    && IndexIs(p.index, p.seps, p.handles)
    && |p.ims| == |p.handles|
    && |p.seps| == |p.handles| - (if p.pending then 1 else 0)
    && (p.pending ==> p.handles != [] && p.pendingHandle == p.handles[|p.handles| - 1])
    && (p.pending <==> p.current == [] && p.handles != [])
    && LastKeyIs(p.ims, p.current, p.lastKey)
  }

  lemma EntriesGrow(ims: seq<Image>, im: Image)
    ensures Entries(ims + [im]) == Entries(ims) + [im.entries]
  {
  }

  /** The current block becomes the last one written. */
  lemma Flushed(order: Order, p: Progress, im: Image, h: Handle)
    requires Consistent(order, p) && p.current == im.entries != []
    ensures DataBlock(order, im.entries)
    ensures var p' := p.(ims := p.ims + [im], handles := p.handles + [h], current := [], pending := true,
                         pendingHandle := h);
            Consistent(order, p') && All(p') == All(p)
  {
    EntriesGrow(p.ims, im);
    assert DataBlock(order, All(p)[|p.ims|]);
  }

  function ToIndex(p: Progress, sep: Bytes): Progress {
    p.(seps := p.seps + [sep], index := p.index + [KV(sep, HandleBytes(p.pendingHandle))], pending := false)
  }

  /** An entry goes into the current block, or into a new one behind a separator. */
  lemma AddedEntry(order: Order, p: Progress, e: KV, sep: Bytes)
    requires Consistent(order, p) && |e.key| >= 8
    requires All(p) != [] ==> order.key(p.lastKey) < order.key(e.key)
    requires p.pending ==> |sep| >= 8 && Separates(order, p.lastKey, sep, e.key)
    ensures var p' := (if p.pending then ToIndex(p, sep) else p).(current := p.current + [e], lastKey := e.key);
            Consistent(order, p') && Flat(All(p')) == Flat(All(p)) + [e]
  {
    var old', blocks := All(p), Entries(p.ims);
    FlatLonger(blocks, p.current, e);
    assert [] + [e] == [e];
    if p.pending {
      SoundNewBlock(order, blocks, p.seps, sep, [e]);
    } else if p.current != [] {
      SoundLonger(order, blocks, p.seps, p.current, e);
    } else {
      assert blocks == [] && p.seps == [];
    }
  }

  /** There is an entry exactly if there is a block. */
  lemma SomeEntry(order: Order, p: Progress)
    requires Consistent(order, p)
    ensures Flat(All(p)) == [] <==> All(p) == []
  {
    if All(p) != [] {
      assert DataBlock(order, All(p)[|All(p)| - 1]);
    }
  }

  /** The last index key completes the index. */
  lemma Closed(order: Order, p: Progress, sep: Bytes)
    requires Consistent(order, p) && p.current == []
    requires p.pending ==> |sep| >= 8 && order.key(p.lastKey) <= order.key(sep)
    ensures var p' := if p.pending then ToIndex(p, sep) else p;
            |p'.seps| == |p'.ims| && Sound(order, Entries(p'.ims), p'.seps) && IndexIs(p'.index, p'.seps, p'.handles)
  {
    if p.pending {
      SoundClosed(order, Entries(p.ims), p.seps, sep);
    }
  }

  lemma SeparatorSeparates(order: Order, last: Bytes, sep: Bytes, key: Bytes)
    requires IsInternal(order) && |last| >= 8 && |sep| >= 8 && |key| >= 8
    requires order.key(last) < order.key(key)
    requires sep == last || (CompareInternal(last, sep) < 0 && CompareInternal(sep, key) < 0)
    requires sep == last || (BytesLess(ExtractUserKey(last), ExtractUserKey(sep))
                             && BytesLess(ExtractUserKey(sep), ExtractUserKey(key)))
    ensures Separates(order, last, sep, key)
  {
    InternalRankEmbeds(last, sep);
    InternalRankEmbeds(sep, key);
    UserRankFollows(last, sep);
    UserRankFollows(sep, key);
    assert order.key(last) == InternalRank(last) && order.key(sep) == InternalRank(sep)
           && order.key(key) == InternalRank(key);
    assert order.user(last) == UserRank(last) && order.user(sep) == UserRank(sep) && order.user(key) == UserRank(key);
  }

  /** The last key of a table is an internal key. */
  lemma LastKeyIsLong(order: Order, p: Progress)
    requires Consistent(order, p) && All(p) != []
    ensures |p.lastKey| >= 8
  {
    assert DataBlock(order, All(p)[|All(p)| - 1]);
  }

  class TableBuilder {
    const crc: Checksum
    const order: Order
    const blockSize: nat
    const restartInterval: nat
    const policy: Policy
    const policyName: Bytes
    const dataBlock: BlockBuilder
    const indexBlock: BlockBuilder
    const filterBlock: FilterBlockBuilder?
    var file: Bytes
    var lastKey: Bytes
    var numEntries: nat
    var closed: bool
    var pendingIndexEntry: bool
    var pendingHandle: Handle
    ghost var ims: seq<Image>
    ghost var handles: seq<Handle>
    ghost var seps: seq<Bytes>

    /** The parts that keep their own invariants. */
    ghost predicate Parts()
      reads this, dataBlock, indexBlock, filterBlock
    {
      && dataBlock != indexBlock && dataBlock.Valid() && !dataBlock.finished
      && indexBlock.Valid() && !indexBlock.finished
      && (filterBlock != null ==> filterBlock.Valid() && filterBlock.started == |file|)
    }

    ghost predicate Options()
    {
      restartInterval >= 1 && (filterBlock != null ==> filterBlock.policy == policy)
    }

    ghost predicate FilterKnows()
      reads this, dataBlock, filterBlock
    {
      filterBlock != null ==>
        && Filtered(filterBlock.added, ims, handles)
        && FilteredBlock(filterBlock.added, |file|, dataBlock.im.entries)
    }

    ghost function Now(): Progress
      reads this, dataBlock, indexBlock
    {
      Progress(ims, handles, seps, indexBlock.im.entries, dataBlock.im.entries, lastKey, pendingIndexEntry,
               pendingHandle)
    }

    ghost predicate Valid()
      reads this, dataBlock, indexBlock, filterBlock
    {
      && !closed && Parts() && FilterKnows()
      && Stored(order, crc, file, ims, handles)
      && Consistent(order, Now())
      && numEntries == |Contents()|
    }

    /** All entries added so far. */
    ghost function Contents(): seq<KV>
      reads this, dataBlock
    {
      Flat(AllBlocks(ims, dataBlock.im.entries))
    }

    constructor (crc: Checksum, order: Order, blockSize: nat, restartInterval: nat, policy: Policy, filtered: bool,
                 policyName: Bytes)
      requires restartInterval >= 1
      ensures Valid() && Contents() == [] && numEntries == 0 && file == []
      ensures Options() && (filterBlock != null <==> filtered)
      ensures this.crc == crc && this.order == order && this.policy == policy && this.policyName == policyName
      ensures fresh(dataBlock) && fresh(indexBlock) && (filterBlock != null ==> fresh(filterBlock))
    {
      this.crc, this.order, this.blockSize, this.restartInterval := crc, order, blockSize, restartInterval;
      this.policy, this.policyName := policy, policyName;
      dataBlock := new BlockBuilder(restartInterval);
      indexBlock := new BlockBuilder(1);
      if filtered {
        var f := new FilterBlockBuilder(policy);
        f.StartBlock(0);
        filterBlock := f;
      } else {
        filterBlock := null;
      }
      file, lastKey, numEntries, closed := [], [], 0, false;
      pendingIndexEntry, pendingHandle := false, Handle(0, 0);
      ims, handles, seps := [], [], [];
    }

    method WriteRawBlock(contents: Bytes) returns (h: Handle)
      modifies this`file
      ensures file == old(file) + RawBlock(crc, contents) && h == Handle(|old(file)|, |contents|)
    {
      h := Handle(|file|, |contents|);
      file := file + contents;
      file := file + ([NO_COMPRESSION] + Fixed32(Mask(BlockCrc(crc, contents, NO_COMPRESSION))));
      assert file == old(file) + RawBlock(crc, contents);
    }

    method WriteBlock(block: BlockBuilder) returns (h: Handle, ghost contents: Bytes)
      requires block.Valid() && !block.finished
      modifies this`file, block
      ensures file == old(file) + RawBlock(crc, contents) && h == Handle(|old(file)|, |contents|)
      ensures contents == BlockFormat.Finished(old(block.buffer), old(block.restarts))
      ensures block.Valid() && !block.finished && block.im == Image([], [0], [], [0])
    {
      var raw := block.Finish();
      contents := raw;
      h := WriteRawBlock(raw);
      block.Reset();
    }

    /** Ends the current data block. */
    method Flush()
      requires Valid()
      modifies this, dataBlock, filterBlock
      ensures Valid() && dataBlock.im.entries == [] && Contents() == old(Contents()) && numEntries == old(numEntries)
      ensures old(dataBlock.im.entries) != [] ==> handles == old(handles) + [Handle(|old(file)|, old(DataSize()))]
    {
      hide Consistent, Stored, Filtered, Encodes, RestartsAre;
      EmptyBuffer(dataBlock.buffer, dataBlock.im);
      if dataBlock.buffer == [] {
        return;
      }
      FlushData();
      if filterBlock != null {
        filterBlock.StartBlock(|file|);
      }
    }

    /** CurrentSizeEstimate of the data block: what it takes when it ends now. */
    function DataSize(): nat
      reads this, dataBlock
    {
      |dataBlock.buffer| + |dataBlock.restarts| * 4 + 4
    }

    method FlushData()
      requires dataBlock != indexBlock && dataBlock.Valid() && !dataBlock.finished && dataBlock.im.entries != []
      requires Stored(order, crc, file, ims, handles) && Consistent(order, Now()) && FilterKnows()
      modifies this, dataBlock
      ensures dataBlock.Valid() && !dataBlock.finished && dataBlock.im.entries == []
      ensures Stored(order, crc, file, ims, handles) && Consistent(order, Now())
      ensures Contents() == old(Contents()) && numEntries == old(numEntries) && closed == old(closed)
              && |old(file)| <= |file|
      ensures handles == old(handles) + [Handle(|old(file)|, old(DataSize()))]
      ensures filterBlock != null ==> Filtered(filterBlock.added, ims, handles)
    {
      hide Consistent, Stored, Filtered, FilteredBlock, Encodes, RestartsAre, RawBlock, Readable, DataBlock, Flat;
      ghost var p, im := Now(), dataBlock.im;
      ghost var h := Handle(|file|, |BlockFormat.Finished(dataBlock.buffer, dataBlock.restarts)|);
      Flushed(order, p, im, h);
      BlockReads(dataBlock.buffer, dataBlock.restarts, im, order.key);
      ghost var contents;
      pendingHandle, contents := WriteBlock(dataBlock);
      StoredOneMore(order, crc, old(file), ims, handles, contents, im);
      if filterBlock != null {
        FilteredOneMore(filterBlock.added, ims, handles, im, h);
      }
      ims, handles := ims + [im], handles + [pendingHandle];
      pendingIndexEntry := true;
      assert Now() == p.(ims := ims, handles := handles, current := [], pending := true, pendingHandle := h);
    }

    /** The index entry of the last block waits for the key that follows it. */
    method AddIndexEntry(key: Bytes) returns (ghost sep: Bytes)
      requires IsInternal(order) && dataBlock != indexBlock && indexBlock.Valid() && !indexBlock.finished
      requires |key| >= 8 && |lastKey| >= 8 && order.key(lastKey) < order.key(key)
      modifies this`lastKey, this`pendingIndexEntry, indexBlock
      ensures indexBlock.Valid() && !indexBlock.finished && !pendingIndexEntry && |sep| >= 8
      ensures indexBlock.im.entries == old(indexBlock.im.entries) + [KV(sep, HandleBytes(pendingHandle))]
      ensures Separates(order, old(lastKey), sep, key)
    {
      ghost var last := lastKey;
      lastKey := FindShortestInternalSeparator(lastKey, key);
      sep := lastKey;
      SeparatorSeparates(order, last, sep, key);
      indexBlock.Add(lastKey, HandleBytes(pendingHandle));
      pendingIndexEntry := false;
    }

    method Add(key: Bytes, value: Bytes)
      requires Valid() && IsInternal(order) && |key| >= 8
      requires numEntries > 0 ==> order.key(lastKey) < order.key(key)
      modifies this, dataBlock, indexBlock, filterBlock
      ensures Valid() && Contents() == old(Contents()) + [KV(key, value)] && numEntries == old(numEntries) + 1
      ensures if dataBlock.im.entries == [] then EndsBlock(old(handles))
              else handles == old(handles) && DataSize() < blockSize
    {
      hide Consistent, Stored, Filtered, FilteredBlock;
      AddEntry(key, value);
      if DataSize() >= blockSize {
        Flush();
      }
    }

    /** One more data block is complete, and it has reached the block size. */
    ghost predicate EndsBlock(before: seq<Handle>)
      reads this
    {
      |handles| == |before| + 1 && handles[..|before|] == before && handles[|before|].size >= blockSize
    }

    ghost predicate FilterReady()
      reads this, filterBlock
    {
      filterBlock != null ==> filterBlock.Valid() && filterBlock.started == |file|
    }

    method AddToFilter(key: Bytes, ghost e: KV)
      requires FilterReady() && FilterKnows() && |key| >= 8 && e.key == key
      modifies filterBlock
      ensures FilterReady() && FilterKnows()
      ensures filterBlock != null ==> FilteredBlock(filterBlock.added, |file|, dataBlock.im.entries + [e])
    {
      if filterBlock != null {
        ghost var before := filterBlock.added;
        filterBlock.AddKey(ExtractUserKey(key));
        FilteredMore(before, filterBlock.added, ims, handles);
      }
    }

    method AddData(key: Bytes, value: Bytes)
      requires dataBlock.Valid() && !dataBlock.finished && FilterReady() && FilterKnows() && |key| >= 8
      modifies this`lastKey, this`numEntries, dataBlock, filterBlock
      ensures dataBlock.Valid() && !dataBlock.finished && FilterReady() && FilterKnows()
      ensures dataBlock.im.entries == old(dataBlock.im.entries) + [KV(key, value)]
      ensures lastKey == key && numEntries == old(numEntries) + 1
    {
      AddToFilter(key, KV(key, value));
      lastKey := key;
      numEntries := numEntries + 1;
      dataBlock.Add(key, value);
    }

    /** Adds the index entry that was waiting, if any; then e can be added. */
    method Resolve(key: Bytes, ghost e: KV)
      requires IsInternal(order) && |key| >= 8 && e.key == key && Consistent(order, Now())
      requires All(Now()) != [] ==> order.key(lastKey) < order.key(key)
      requires Parts()
      modifies this`lastKey, this`pendingIndexEntry, this`seps, indexBlock
      ensures Parts() && numEntries == old(numEntries)
      ensures var p := Now().(current := dataBlock.im.entries + [e], lastKey := key);
              Consistent(order, p) && Flat(All(p)) == old(Contents()) + [e]
    {
      ghost var p, sep := Now(), [];
      if pendingIndexEntry {
        LastKeyIsLong(order, p);
        sep := AddIndexEntry(key);
        seps := seps + [sep];
      }
      AddedEntry(order, p, e, sep);
      assert Now() == (if p.pending then ToIndex(p, sep) else p).(lastKey := lastKey);
    }

    method AddEntry(key: Bytes, value: Bytes)
      requires Valid() && IsInternal(order) && |key| >= 8
      requires numEntries > 0 ==> order.key(lastKey) < order.key(key)
      modifies this, dataBlock, indexBlock, filterBlock
      ensures Valid() && Contents() == old(Contents()) + [KV(key, value)] && numEntries == old(numEntries) + 1
      ensures handles == old(handles) && dataBlock.im.entries != []
    {
      hide Consistent, Stored, Filtered, FilteredBlock;
      ghost var e := KV(key, value);
      SomeEntry(order, Now());
      Resolve(key, e);
      AddToBlock(key, value, Now().(current := dataBlock.im.entries + [e], lastKey := key));
    }

    /** The index is up to date; the entry goes into the current block. */
    method AddToBlock(key: Bytes, value: Bytes, ghost p: Progress)
      requires !closed && Parts() && FilterKnows() && Stored(order, crc, file, ims, handles) && |key| >= 8
      requires p == Now().(current := dataBlock.im.entries + [KV(key, value)], lastKey := key)
      requires Consistent(order, p) && numEntries + 1 == |Flat(All(p))|
      modifies this`lastKey, this`numEntries, dataBlock, filterBlock
      ensures Valid() && Now() == p && numEntries == old(numEntries) + 1
    {
      AddData(key, value);
      assert Now() == p;
    }

    // ---------- Finishing ----------

    method WriteFilter() returns (h: Handle, ghost groups: seq<seq<Bytes>>)
      requires filterBlock != null && filterBlock.Valid()
      modifies this`file, filterBlock
      ensures file == old(file) + RawBlock(crc, FilterBlock(filterBlock.policy, groups))
      ensures h == Handle(|old(file)|, |FilterBlock(filterBlock.policy, groups)|)
      ensures filterBlock.added == old(filterBlock.added)
      ensures forall a :: a in filterBlock.added ==> a.0 < |groups| && a.1 in groups[a.0]
    {
      var contents := filterBlock.Finish();
      groups := filterBlock.groups;
      h := WriteRawBlock(contents);
    }

    /** The metaindex block says where the filter is. */
    method WriteMetaindex(filterHandle: Handle) returns (h: Handle, ghost contents: Bytes, ghost im: Image)
      requires restartInterval >= 1
      modifies this`file
      ensures file == old(file) + RawBlock(crc, contents) && h == Handle(|old(file)|, |contents|)
      ensures Readable(contents, im, Rank)
      ensures im.entries == if filterBlock != null then [KV(FILTER_PREFIX + policyName, HandleBytes(filterHandle))]
                            else []
    {
      var metaindex := new BlockBuilder(restartInterval);
      if filterBlock != null {
        metaindex.Add(FILTER_PREFIX + policyName, HandleBytes(filterHandle));
      }
      im := metaindex.im;
      BlockReads(metaindex.buffer, metaindex.restarts, im, Rank);
      h, contents := WriteBlock(metaindex);
    }

    /** A successor of the last key goes into the index, behind the last data block. */
    method CloseIndex()
      requires IsInternal(order) && Consistent(order, Now()) && dataBlock.im.entries == []
      requires indexBlock.Valid() && !indexBlock.finished && dataBlock != indexBlock
      modifies this`lastKey, this`pendingIndexEntry, this`seps, indexBlock
      ensures indexBlock.Valid() && !indexBlock.finished && |seps| == |ims|
      ensures Sound(order, Entries(ims), seps) && IndexIs(indexBlock.im.entries, seps, handles)
    {
      ghost var p := Now();
      if pendingIndexEntry {
        LastKeyIsLong(order, p);
        lastKey := FindShortInternalSuccessor(lastKey);
        indexBlock.Add(lastKey, HandleBytes(pendingHandle));
        pendingIndexEntry := false;
        SuccessorFollows(order, p.lastKey, lastKey);
        seps := seps + [lastKey];
      }
      Closed(order, p, lastKey);
    }

    method WriteIndex() returns (h: Handle, ghost contents: Bytes, ghost im: Image)
      requires Sound(order, Entries(ims), seps) && IndexIs(indexBlock.im.entries, seps, handles)
      requires indexBlock.Valid() && !indexBlock.finished
      modifies this`file, indexBlock
      ensures file == old(file) + RawBlock(crc, contents) && h == Handle(|old(file)|, |contents|)
      ensures im == old(indexBlock.im) && Readable(contents, im, order.key)
    {
      im := indexBlock.im;
      IndexAscends(order, im.entries, Entries(ims), seps, handles);
      BlockReads(indexBlock.buffer, indexBlock.restarts, im, order.key);
      h, contents := WriteBlock(indexBlock);
    }

    /** Everything behind the data blocks. */
    method WriteTail(ghost added: set<(nat, Bytes)>) returns (ghost t: Content)
      requires restartInterval >= 1 && Stored(order, crc, file, ims, handles) && |seps| == |ims|
      requires Sound(order, Entries(ims), seps) && IndexIs(indexBlock.im.entries, seps, handles)
      requires indexBlock.Valid() && !indexBlock.finished
      requires filterBlock != null ==>
                 filterBlock.Valid() && filterBlock.policy == policy && filterBlock.added == added
                     && Filtered(added, ims, handles)
      modifies this`file, indexBlock, filterBlock
      ensures t.ims == ims && (t.filter.Some? <==> filterBlock != null)
      ensures |file| < TWO64 ==> TableHolds(order, crc, file, t, policy, policyName)
    {
      ghost var f0 := file;
      var filterHandle := Handle(0, 0);
      ghost var groups := [];
      if filterBlock != null {
        filterHandle, groups := WriteFilter();
      }
      ghost var filter := if filterBlock != null then Some(FilterPart(filterHandle, groups, added)) else None;
      ghost var f1 := file;
      ghost var contents1, meta, contents2, index;
      var metaHandle, indexHandle;
      metaHandle, contents1, meta := WriteMetaindex(filterHandle);
      indexHandle, contents2, index := WriteIndex();
      file := file + Footer(metaHandle, indexHandle);
      t := Content(ims, handles, seps, index, indexHandle, meta, metaHandle, filter);
      Assembled(order, crc, f0, f1, contents1, contents2, file, t, policy, policyName);
    }

    method Finish() returns (ghost t: Content)
      requires Valid() && Options() && IsInternal(order)
      modifies this, dataBlock, indexBlock, filterBlock
      ensures closed && Flat(Entries(t.ims)) == old(Contents())
      ensures t.filter.Some? <==> filterBlock != null
      ensures |file| < TWO64 ==> TableHolds(order, crc, file, t, policy, policyName)
    {
      Flush();
      closed := true;
      t := FinishBlocks();
    }

    method FinishBlocks() returns (ghost t: Content)
      requires Stored(order, crc, file, ims, handles) && Consistent(order, Now()) && dataBlock.im.entries == []
      requires indexBlock.Valid() && !indexBlock.finished && dataBlock != indexBlock
      requires filterBlock != null ==> filterBlock.Valid() && Filtered(filterBlock.added, ims, handles)
      requires Options() && IsInternal(order)
      modifies this, indexBlock, filterBlock
      ensures closed == old(closed) && t.ims == old(ims) && (t.filter.Some? <==> filterBlock != null)
      ensures |file| < TWO64 ==> TableHolds(order, crc, file, t, policy, policyName)
    {
      CloseIndex();
      t := WriteTail(if filterBlock != null then filterBlock.added else {});
    }
  }

  /** The parts of a table add up. */
  lemma Assembled(order: Order, crc: Checksum, f0: Bytes, f1: Bytes, meta: Bytes, index: Bytes, file: Bytes,
                  t: Content, policy: Policy, name: Bytes)
    requires Stored(order, crc, f0, t.ims, t.handles) && |t.seps| == |t.ims|
    requires Sound(order, Entries(t.ims), t.seps) && IndexIs(t.index.entries, t.seps, t.handles)
    requires t.filter.None? ==> f1 == f0
    requires t.filter.Some? ==>
               var b := FilterBlock(policy, t.filter.value.groups);
               f1 == f0 + RawBlock(crc, b) && t.filter.value.handle == Handle(|f0|, |b|)
    requires FilterListed(t, name)
    requires Readable(meta, t.meta, Rank) && t.metaHandle == Handle(|f1|, |meta|)
    requires Readable(index, t.index, order.key) && t.indexHandle == Handle(|f1 + RawBlock(crc, meta)|, |index|)
    requires file == f1 + RawBlock(crc, meta) + RawBlock(crc, index) + Footer(t.metaHandle, t.indexHandle)
    ensures |file| < TWO64 ==> TableHolds(order, crc, file, t, policy, name)
  {
    var f2 := f1 + RawBlock(crc, meta);
    var f3, footer := f2 + RawBlock(crc, index), Footer(t.metaHandle, t.indexHandle);
    Prefixes(f0, f1, f2, f3, file);
    BlockIsThere(crc, f1, meta, t.meta, Rank);
    BlockRemains(crc, f2, t.metaHandle, t.meta, Rank, file);
    BlockIsThere(crc, f2, index, t.index, order.key);
    BlockRemains(crc, f3, t.indexHandle, t.index, order.key, file);
    if t.filter.Some? {
      var b := FilterBlock(policy, t.filter.value.groups);
      BlockAtEnd(crc, f0, b);
      BlockStays(crc, f1, t.filter.value.handle, b, file);
    }
    StoredRemain(order, crc, f0, t.ims, t.handles, file);
    if |file| < TWO64 {
      FooterRoundTrip(t.metaHandle, t.indexHandle);
      assert file[|file| - FOOTER..] == footer;
    }
  }

  lemma Prefixes(a: Bytes, b: Bytes, c: Bytes, d: Bytes, e: Bytes)
    requires a <= b <= c <= d <= e
    ensures a <= e && b <= e && c <= e
  {
  }

  lemma BlockReads(buffer: Bytes, restarts: seq<nat>, im: Image, rank: Ranking)
    requires Encodes(buffer, im) && RestartsAre(restarts, im) && Ascending(im.entries, rank)
    ensures Readable(BlockFormat.Finished(buffer, restarts), im, rank)
  {
    if |BlockFormat.Finished(buffer, restarts)| < TWO32 {
      FinishedHolds(buffer, restarts, im, rank);
    }
  }

  lemma SuccessorFollows(order: Order, last: Bytes, sep: Bytes)
    requires IsInternal(order) && |last| >= 8 && |sep| >= 8
    requires sep == last || CompareInternal(last, sep) < 0
    ensures order.key(last) <= order.key(sep)
  {
    InternalRankEmbeds(last, sep);
    assert order.key(last) == InternalRank(last) && order.key(sep) == InternalRank(sep);
  }
}
