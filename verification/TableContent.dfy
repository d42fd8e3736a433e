/** What a table file holds: sorted data blocks and an index of keys that separate them. */
module TableContent {
  import opened Coding
  import opened Visibility
  import opened Bytewise
  import opened LogFormat
  import opened BlockFormat
  import opened BlockReader
  import opened TableFormat
  import opened Filters

  /** How the comparator orders keys, and how it orders the user keys in them. */
  datatype Order = Order(key: Ranking, user: Ranking)

  // ---------- Data blocks and separators ----------

  /** A data block: internal keys in increasing order. */
  ghost predicate DataBlock(o: Order, entries: seq<KV>) {
    && entries != [] && Ascending(entries, o.key)
    && forall i :: 0 <= i < |entries| ==> |entries[i].key| >= 8
  }

  function First(entries: seq<KV>): Bytes
    requires entries != []
  {
    entries[0].key
  }

  function Last(entries: seq<KV>): Bytes
    requires entries != []
  {
    entries[|entries| - 1].key
  }

  /** An index key between two blocks: the last key of the first one, or a new user key. */
  ghost predicate Separates(o: Order, last: Bytes, sep: Bytes, first: Bytes) {
    && o.key(last) <= o.key(sep) < o.key(first)
    && (sep == last || o.user(last) < o.user(sep) < o.user(first))
  }

  ghost predicate SeparatorIs(o: Order, blocks: seq<seq<KV>>, seps: seq<Bytes>, i: nat) {
    && i < |seps| <= |blocks| && |seps[i]| >= 8 && blocks[i] != []
    && o.key(Last(blocks[i])) <= o.key(seps[i])
    && (i + 1 < |blocks| ==> blocks[i + 1] != [] && Separates(o, Last(blocks[i]), seps[i], First(blocks[i + 1])))
  }

  /** Blocks in order, with a separator behind each, but possibly not yet behind the last one. */
  ghost predicate Sound(o: Order, blocks: seq<seq<KV>>, seps: seq<Bytes>) {
    && |blocks| - 1 <= |seps| <= |blocks|
    && (forall i {:trigger DataBlock(o, blocks[i])} :: 0 <= i < |blocks| ==> DataBlock(o, blocks[i]))
    && (forall i {:trigger SeparatorIs(o, blocks, seps, i)} :: 0 <= i < |seps| ==> SeparatorIs(o, blocks, seps, i))
  }

  /** A new block begins behind the separator of the last one. */
  lemma SoundNewBlock(o: Order, blocks: seq<seq<KV>>, seps: seq<Bytes>, sep: Bytes, entries: seq<KV>)
    requires Sound(o, blocks, seps) && |seps| == |blocks| - 1 && DataBlock(o, entries) && |sep| >= 8
    requires blocks[|seps|] != [] && Separates(o, Last(blocks[|seps|]), sep, First(entries))
    ensures Sound(o, blocks + [entries], seps + [sep])
  {
    var bs, ss := blocks + [entries], seps + [sep];
    forall i | 0 <= i < |bs| ensures DataBlock(o, bs[i]) {
      if i < |blocks| {
        assert DataBlock(o, blocks[i]);
      }
    }
    forall i | 0 <= i < |ss| ensures SeparatorIs(o, bs, ss, i) {
      if i < |seps| {
        assert SeparatorIs(o, blocks, seps, i);
      }
    }
  }

  lemma DataBlockLonger(o: Order, entries: seq<KV>, e: KV)
    requires DataBlock(o, entries) && |e.key| >= 8 && o.key(Last(entries)) < o.key(e.key)
    ensures DataBlock(o, entries + [e]) && First(entries + [e]) == First(entries)
  {
    var longer := entries + [e];
    forall i, j | 0 <= i < j < |longer| ensures o.key(longer[i].key) < o.key(longer[j].key) {
      if j == |entries| && i < |entries| - 1 {
        assert o.key(entries[i].key) < o.key(entries[|entries| - 1].key);
      }
    }
  }

  /** The last block grows at its end. */
  lemma SoundLonger(o: Order, blocks: seq<seq<KV>>, seps: seq<Bytes>, entries: seq<KV>, e: KV)
    requires Sound(o, blocks + [entries], seps) && |seps| == |blocks| && entries != [] && |e.key| >= 8
    requires o.key(Last(entries)) < o.key(e.key)
    ensures Sound(o, blocks + [entries + [e]], seps)
  {
    var before, after := blocks + [entries], blocks + [entries + [e]];
    assert DataBlock(o, before[|blocks|]);
    DataBlockLonger(o, entries, e);
    forall i | 0 <= i < |after| ensures DataBlock(o, after[i]) {
      if i < |blocks| {
        assert DataBlock(o, before[i]);
      }
    }
    forall i | 0 <= i < |seps| ensures SeparatorIs(o, after, seps, i) {
      assert SeparatorIs(o, before, seps, i);
    }
  }

  /** The last separator may be any key from the last entry on. */
  lemma SoundClosed(o: Order, blocks: seq<seq<KV>>, seps: seq<Bytes>, sep: Bytes)
    requires Sound(o, blocks, seps) && |seps| == |blocks| - 1 && |sep| >= 8
    requires blocks[|seps|] != [] && o.key(Last(blocks[|seps|])) <= o.key(sep)
    ensures Sound(o, blocks, seps + [sep])
  {
    forall i | 0 <= i < |seps| + 1 ensures SeparatorIs(o, blocks, seps + [sep], i) {
      if i < |seps| {
        assert SeparatorIs(o, blocks, seps, i);
      }
    }
  }

  lemma {:induction false} SeparatorsAscend(o: Order, blocks: seq<seq<KV>>, seps: seq<Bytes>, i: nat, j: nat)
    requires Sound(o, blocks, seps) && i < j < |seps|
    ensures o.key(seps[i]) < o.key(seps[j])
  {
    assert SeparatorIs(o, blocks, seps, j - 1) && SeparatorIs(o, blocks, seps, j) && DataBlock(o, blocks[j]);
    if i < j - 1 {
      SeparatorsAscend(o, blocks, seps, i, j - 1);
    }
  }

  // ---------- All entries ----------

  function Flat(blocks: seq<seq<KV>>): seq<KV> {
    if blocks == [] then [] else Flat(blocks[..|blocks| - 1]) + blocks[|blocks| - 1]
  }

  /** How many entries stand before block i. */
  function Start(blocks: seq<seq<KV>>, i: nat): nat
    requires i <= |blocks|
  {
    |Flat(blocks[..i])|
  }

  lemma {:induction false} FlatAt(blocks: seq<seq<KV>>, i: nat, j: nat)
    requires i < |blocks| && j < |blocks[i]|
    ensures Start(blocks, i + 1) == Start(blocks, i) + |blocks[i]| <= |Flat(blocks)|
    ensures Flat(blocks)[Start(blocks, i) + j] == blocks[i][j]
  {
    var n := |blocks| - 1;
    assert blocks[..n + 1] == blocks;
    assert blocks[..i + 1][..i] == blocks[..i];
    if i < n {
      FlatAt(blocks[..n], i, j);
      assert blocks[..n][..i] == blocks[..i] && blocks[..n][..i + 1] == blocks[..i + 1];
    }
  }

  /** Every entry is in some block. */
  lemma {:induction false} InSomeBlock(blocks: seq<seq<KV>>, p: nat) returns (i: nat, j: nat)
    requires p < |Flat(blocks)|
    ensures i < |blocks| && j < |blocks[i]| && p == Start(blocks, i) + j
  {
    var n := |blocks| - 1;
    assert blocks[..n + 1] == blocks;
    if p < |Flat(blocks[..n])| {
      i, j := InSomeBlock(blocks[..n], p);
      assert blocks[..n][..i] == blocks[..i];
    } else {
      i, j := n, p - |Flat(blocks[..n])|;
    }
  }

  lemma FlatLonger(blocks: seq<seq<KV>>, entries: seq<KV>, e: KV)
    ensures Flat(blocks + [entries + [e]]) == Flat(blocks + [entries]) + [e]
    ensures Flat(blocks + [[e]]) == Flat(blocks) + [e]
  {
    assert (blocks + [entries + [e]])[..|blocks|] == blocks && (blocks + [entries])[..|blocks|] == blocks;
    assert (blocks + [[e]])[..|blocks|] == blocks;
  }

  // ---------- The file ----------

  /** The bytes of a block with these entries, as far as its length fits in 32 bits. */
  ghost predicate Readable(data: Bytes, im: Image, rank: Ranking) {
    |data| < TWO32 ==> 4 + 4 * |im.index| <= |data| && BlockHolds(data, |data| - 4 - 4 * |im.index|, im, rank)
  }

  /** The file holds such a block there. */
  ghost predicate HasBlock(crc: Checksum, file: Bytes, h: Handle, im: Image, rank: Ranking) {
    && h.offset + h.size + TRAILER <= |file|
    && BlockAt(crc, file, h, file[h.offset..h.offset + h.size])
    && Readable(file[h.offset..h.offset + h.size], im, rank)
  }

  lemma BlockIsThere(crc: Checksum, file: Bytes, contents: Bytes, im: Image, rank: Ranking)
    requires Readable(contents, im, rank)
    ensures HasBlock(crc, file + RawBlock(crc, contents), Handle(|file|, |contents|), im, rank)
  {
    var all := file + RawBlock(crc, contents);
    BlockAtEnd(crc, file, contents);
    RawParts(all, |file|, contents, NO_COMPRESSION, Fixed32(Mask(BlockCrc(crc, contents, NO_COMPRESSION))));
  }

  lemma BlockRemains(crc: Checksum, file: Bytes, h: Handle, im: Image, rank: Ranking, longer: Bytes)
    requires HasBlock(crc, file, h, im, rank) && file <= longer
    ensures HasBlock(crc, longer, h, im, rank)
  {
    BlockStays(crc, file, h, file[h.offset..h.offset + h.size], longer);
    SameSlice(file, longer, h.offset, h.offset + h.size);
  }

  /** The entries of the blocks of images. */
  function Entries(ims: seq<Image>): (r: seq<seq<KV>>)
    ensures |r| == |ims| && forall i :: 0 <= i < |ims| ==> r[i] == ims[i].entries
  {
    seq(|ims|, i requires 0 <= i < |ims| => ims[i].entries)
  }

  ghost predicate Stored(o: Order, crc: Checksum, file: Bytes, ims: seq<Image>, handles: seq<Handle>) {
    && |ims| == |handles|
    && (forall i {:trigger HasBlock(crc, file, handles[i], ims[i], o.key)} :: 0 <= i < |handles| ==>
          HasBlock(crc, file, handles[i], ims[i], o.key))
    && (forall i, j :: 0 <= i < j < |handles| ==> handles[i].offset < handles[j].offset)
  }

  lemma StoredRemain(o: Order, crc: Checksum, file: Bytes, ims: seq<Image>, handles: seq<Handle>, longer: Bytes)
    requires Stored(o, crc, file, ims, handles) && file <= longer
    ensures Stored(o, crc, longer, ims, handles)
  {
    forall i | 0 <= i < |handles| ensures HasBlock(crc, longer, handles[i], ims[i], o.key) {
      assert HasBlock(crc, file, handles[i], ims[i], o.key);
      BlockRemains(crc, file, handles[i], ims[i], o.key, longer);
    }
  }

  lemma StoredOneMore(o: Order, crc: Checksum, file: Bytes, ims: seq<Image>, handles: seq<Handle>, contents: Bytes,
                      im: Image)
    requires Stored(o, crc, file, ims, handles) && Readable(contents, im, o.key)
    ensures Stored(o, crc, file + RawBlock(crc, contents), ims + [im], handles + [Handle(|file|, |contents|)])
  {
    var longer := file + RawBlock(crc, contents);
    StoredRemain(o, crc, file, ims, handles, longer);
    BlockIsThere(crc, file, contents, im, o.key);
    forall i | 0 <= i < |handles|
      ensures handles[i].offset < |file| && HasBlock(crc, longer, handles[i], ims[i], o.key)
    {
      assert HasBlock(crc, file, handles[i], ims[i], o.key);
      assert HasBlock(crc, longer, handles[i], ims[i], o.key);
    }
  }

  /** The index maps separators to handles. */
  ghost predicate IndexIs(index: seq<KV>, seps: seq<Bytes>, handles: seq<Handle>) {
    && |index| == |seps| <= |handles|
    && forall i {:trigger index[i]} :: 0 <= i < |index| ==> index[i] == KV(seps[i], HandleBytes(handles[i]))
  }

  lemma IndexAscends(o: Order, index: seq<KV>, blocks: seq<seq<KV>>, seps: seq<Bytes>, handles: seq<Handle>)
    requires IndexIs(index, seps, handles) && Sound(o, blocks, seps)
    ensures Ascending(index, o.key)
  {
    forall i, j | 0 <= i < j < |index| ensures o.key(index[i].key) < o.key(index[j].key) {
      SeparatorsAscend(o, blocks, seps, i, j);
    }
  }

  // ---------- Filters ----------

  /** Every user key of a data block was given to the filter for the block's offset. */
  ghost predicate FilteredBlock(added: set<(nat, Bytes)>, offset: nat, entries: seq<KV>) {
    forall e :: e in entries && |e.key| >= 8 ==> (offset / FILTER_BASE, ExtractUserKey(e.key)) in added
  }

  ghost predicate Filtered(added: set<(nat, Bytes)>, ims: seq<Image>, handles: seq<Handle>) {
    && |ims| == |handles|
    && forall i {:trigger FilteredBlock(added, handles[i].offset, ims[i].entries)} :: 0 <= i < |handles| ==>
         FilteredBlock(added, handles[i].offset, ims[i].entries)
  }

  lemma FilteredMore(added: set<(nat, Bytes)>, more: set<(nat, Bytes)>, ims: seq<Image>, handles: seq<Handle>)
    requires Filtered(added, ims, handles) && added <= more
    ensures Filtered(more, ims, handles)
  {
    forall i | 0 <= i < |handles| ensures FilteredBlock(more, handles[i].offset, ims[i].entries) {
      assert FilteredBlock(added, handles[i].offset, ims[i].entries);
    }
  }

  lemma FilteredOneMore(added: set<(nat, Bytes)>, ims: seq<Image>, handles: seq<Handle>, im: Image, h: Handle)
    requires Filtered(added, ims, handles) && FilteredBlock(added, h.offset, im.entries)
    ensures Filtered(added, ims + [im], handles + [h])
  {
    forall i | 0 <= i < |handles| ensures FilteredBlock(added, handles[i].offset, ims[i].entries) {
    }
  }

  // ---------- A finished table ----------

  function FilterBlock(policy: Policy, groups: seq<seq<Bytes>>): Bytes {
    Filters.Finished(policy, groups)
  }

  datatype FilterPart = FilterPart(handle: Handle, groups: seq<seq<Bytes>>, added: set<(nat, Bytes)>)

  datatype Content = Content(
    ims: seq<Image>, handles: seq<Handle>, seps: seq<Bytes>,
    index: Image, indexHandle: Handle,
    meta: Image, metaHandle: Handle,
    filter: Option<FilterPart>)

  const FILTER_PREFIX: Bytes := [102, 105, 108, 116, 101, 114, 46]

  lemma FilterPrefixIsText()
    ensures |FILTER_PREFIX| == |"filter."|
    ensures forall i :: 0 <= i < |"filter."| ==> FILTER_PREFIX[i] as int == "filter."[i] as int
  {
  }

  /** The metaindex points to the filter, and the filter was given all keys. */
  ghost predicate FilterListed(t: Content, name: Bytes) {
    match t.filter
    case None => t.meta.entries == []
    case Some(f) =>
      && t.meta.entries == [KV(FILTER_PREFIX + name, HandleBytes(f.handle))]
      && Filtered(f.added, t.ims, t.handles)
      && forall a :: a in f.added ==> a.0 < |f.groups| && a.1 in f.groups[a.0]
  }

  /** The filter block is where the metaindex says, and knows all keys. */
  ghost predicate FilterHolds(crc: Checksum, file: Bytes, t: Content, policy: Policy, name: Bytes) {
    && FilterListed(t, name)
    && (t.filter.Some? ==> BlockAt(crc, file, t.filter.value.handle, FilterBlock(policy, t.filter.value.groups)))
  }

  ghost predicate TableHolds(o: Order, crc: Checksum, file: Bytes, t: Content, policy: Policy, name: Bytes) {
    && FOOTER <= |file| < TWO64
    && file[|file| - FOOTER..] == Footer(t.metaHandle, t.indexHandle)
    && Stored(o, crc, file, t.ims, t.handles)
    && |t.seps| == |t.ims| && Sound(o, Entries(t.ims), t.seps)
    && IndexIs(t.index.entries, t.seps, t.handles)
    && HasBlock(crc, file, t.indexHandle, t.index, o.key)
    && HasBlock(crc, file, t.metaHandle, t.meta, Rank)
    && FilterHolds(crc, file, t, policy, name)
  }
}
