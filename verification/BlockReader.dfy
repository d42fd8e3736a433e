/** Iterating over a block (table/block.cc). */
module BlockReader {
  import opened Coding
  import opened Visibility
  import opened BlockFormat

  /** How a comparator orders keys: by their rank. */
  type Ranking = Bytes -> real

  ghost predicate Ascending(entries: seq<KV>, rank: Ranking) {
    forall i, j {:trigger rank(entries[i].key), rank(entries[j].key)} :: 0 <= i < j < |entries| ==>
      rank(entries[i].key) < rank(entries[j].key)
  }

  /** p is the first entry at or after target. */
  ghost predicate IsLowerBound(entries: seq<KV>, rank: Ranking, target: Bytes, p: nat) {
    && p <= |entries|
    && (forall i :: 0 <= i < p ==> rank(entries[i].key) < rank(target))
    && (p < |entries| ==> rank(entries[p].key) >= rank(target))
  }

  // ---------- What the bytes say ----------

  lemma Slices(data: Bytes, a: nat, b: nat, c: nat)
    requires a <= b <= c <= |data|
    ensures data[a..c] == data[a..b] + data[b..c]
  {
  }

  lemma {:induction false} OffsetsGrow(buffer: Bytes, im: Image, i: nat, j: nat)
    requires Encodes(buffer, im) && i < j <= |im.entries|
    ensures im.offsets[i] < im.offsets[j] <= |buffer|
  {
    assert EntryIs(buffer, im, j - 1);
    if i + 1 < j {
      OffsetsGrow(buffer, im, i, j - 1);
    }
  }

  lemma {:induction false} IndexGrows(buffer: Bytes, im: Image, i: nat, j: nat)
    requires Encodes(buffer, im) && i < j < |im.index|
    ensures im.index[i] < im.index[j] < |im.entries|
  {
    assert RestartIs(im, j) && RestartIs(im, i);
    if i + 1 < j {
      IndexGrows(buffer, im, i, j - 1);
    }
  }

  lemma EntryFits(buffer: Bytes, im: Image, i: nat)
    requires EntryIs(buffer, im, i)
    ensures im.offsets[i] + 3 + |im.entries[i].key| - im.shares[i] + |im.entries[i].value| <= im.offsets[i + 1]
  {
  }

  /** A key is no longer than the bytes of the block up to its end. */
  lemma {:induction false} KeysAreShort(buffer: Bytes, im: Image, i: nat)
    requires Encodes(buffer, im) && i < |im.entries|
    ensures |im.entries[i].key| <= im.offsets[i + 1] <= |buffer|
  {
    assert EntryIs(buffer, im, i);
    EntryFits(buffer, im, i);
    if i > 0 {
      KeysAreShort(buffer, im, i - 1);
    }
  }

  /** Decoding at the start of entry i finds it. */
  lemma DecodesEntry(buffer: Bytes, im: Image, i: nat)
    requires Encodes(buffer, im) && i < |im.entries| && |buffer| < TWO32
    ensures im.offsets[i] < im.offsets[i + 1] <= |buffer|
    ensures var e, shared := im.entries[i], im.shares[i];
            && shared <= |e.key|
            && DecodeEntry(buffer[im.offsets[i]..])
               == Some(Piece(shared, |e.key| - shared, |e.value|,
                             e.key[shared..] + e.value + buffer[im.offsets[i + 1]..]))
  {
    assert EntryIs(buffer, im, i);
    var e, shared, rest := im.entries[i], im.shares[i], buffer[im.offsets[i + 1]..];
    EntryFits(buffer, im, i);
    KeysAreShort(buffer, im, i);
    Slices(buffer, im.offsets[i], im.offsets[i + 1], |buffer|);
    assert buffer[im.offsets[i]..|buffer|] == buffer[im.offsets[i]..] && buffer[im.offsets[i + 1]..|buffer|] == rest;
    EntryDecodes(shared, e, rest);
  }

  lemma EntryDecodes(shared: nat, e: KV, rest: Bytes)
    requires shared <= |e.key| < TWO32 && |e.key| - shared + |e.value| < TWO32
    ensures DecodeEntry(EntryBytes(shared, e) + rest)
            == Some(Piece(shared, |e.key| - shared, |e.value|, e.key[shared..] + e.value + rest))
  {
    var header, tail := EntryHeader(shared, |e.key| - shared, |e.value|), e.key[shared..] + e.value;
    assert EntryBytes(shared, e) + rest == header + (tail + rest);
    HeaderRoundTrip(shared, |e.key| - shared, |e.value|, tail + rest);
    DecodeEntryOf(header + (tail + rest), shared, |e.key| - shared, |e.value|, tail + rest);
  }

  lemma DecodeEntryOf(b: Bytes, shared: nat, nonShared: nat, valueLength: nat, rest: Bytes)
    requires DecodeHeader(b) == Some(Piece(shared, nonShared, valueLength, rest))
    requires nonShared + valueLength < TWO32 && nonShared + valueLength <= |rest|
    ensures DecodeEntry(b) == DecodeHeader(b)
  {
  }

  /** What ParseNextKey makes of entry p if its key shares no more with `before` than it should. */
  lemma Parsed(buffer: Bytes, im: Image, p: nat, before: Bytes)
    requires Encodes(buffer, im) && p < |im.entries| && |buffer| < TWO32
    requires im.shares[p] <= |before| && im.shares[p] <= |im.entries[p].key|
    requires before[..im.shares[p]] == im.entries[p].key[..im.shares[p]]
    ensures im.offsets[p] < im.offsets[p + 1] <= |buffer|
    ensures var d, e, end := DecodeEntry(buffer[im.offsets[p]..]), im.entries[p], im.offsets[p + 1];
            && d.Some? && d.value.shared <= |before| && d.value.nonShared <= |d.value.rest|
            && before[..d.value.shared] + d.value.rest[..d.value.nonShared] == e.key
            && |d.value.rest| == d.value.nonShared + d.value.valueLength + (|buffer| - end)
            && |e.value| == d.value.valueLength <= end
            && buffer[end - |e.value|..end] == e.value
  {
    DecodesEntry(buffer, im, p);
    assert EntryIs(buffer, im, p);
    var e, start, end, shared := im.entries[p], im.offsets[p], im.offsets[p + 1], im.shares[p];
    ValueAtEnd(buffer[start..end], EntryHeader(shared, |e.key| - shared, |e.value|), e.key[shared..], e.value);
    assert buffer[start..end][end - start - |e.value|..] == buffer[end - |e.value|..end];
    KeyFirst(e.key[shared..], e.value, buffer[end..]);
    assert e.key[..shared] + e.key[shared..] == e.key;
  }

  lemma ValueAtEnd(whole: Bytes, header: Bytes, tail: Bytes, value: Bytes)
    requires whole == header + (tail + value)
    ensures |whole| >= |value| && whole[|whole| - |value|..] == value
  {
  }

  lemma KeyFirst(tail: Bytes, value: Bytes, rest: Bytes)
    ensures var all := tail + value + rest;
            |all| == |tail| + |value| + |rest| && all[..|tail|] == tail
  {
  }

  // ---------- What the builder writes ----------

  /** A finished block is one the iterator can read, if its length fits in 32 bits. */
  lemma FinishedHolds(buffer: Bytes, restarts: seq<nat>, im: Image, rank: Ranking)
    requires Encodes(buffer, im) && RestartsAre(restarts, im) && Ascending(im.entries, rank)
    requires |Finished(buffer, restarts)| < TWO32
    ensures BlockHolds(Finished(buffer, restarts), |buffer|, im, rank)
  {
    var data := Finished(buffer, restarts);
    FinishedParts(buffer, Fixed32Array(restarts), Fixed(|restarts|, 4));
    Fixed32At(data, |data| - 4, |restarts|);
    forall j | 0 <= j < |restarts|
      ensures im.index[j] < |im.offsets| && DecodeFixed32(data[|buffer| + 4 * j..]) == im.offsets[im.index[j]]
    {
      var offset := restarts[j];
      assert im.index[j] < |im.offsets|;
      OffsetFits(buffer, im, im.index[j]);
      Fixed32ArrayAt(restarts, j);
      Fixed32At(data, |buffer| + 4 * j, offset);
    }
  }

  lemma FinishedParts(buffer: Bytes, a: Bytes, count: Bytes)
    requires |count| == 4
    ensures var data := buffer + a + count;
            && data[..|buffer|] == buffer && data[|data| - 4..|data|] == count
            && forall i, j :: 0 <= i <= j <= |a| ==> data[|buffer| + i..|buffer| + j] == a[i..j]
  {
  }

  lemma OffsetFits(buffer: Bytes, im: Image, i: nat)
    requires Encodes(buffer, im) && i < |im.offsets|
    ensures im.offsets[i] <= |buffer|
  {
    if i > 0 {
      OffsetsGrow(buffer, im, 0, i);
    }
  }

  // ---------- The iterator ----------

  /** A finished block with the entries and restart points of im, and keys in increasing order. */
  ghost predicate BlockHolds(data: Bytes, restarts: nat, im: Image, rank: Ranking) {
    && restarts <= |data| < TWO32 && Encodes(data[..restarts], im) && Ascending(im.entries, rank)
    && |data| == restarts + 4 * |im.index| + 4
    && DecodeFixed32(data[|data| - 4..]) == |im.index|
    && forall j {:trigger im.index[j]} :: 0 <= j < |im.index| ==>
         && im.index[j] < |im.offsets|
         && DecodeFixed32(data[restarts + 4 * j..]) == im.offsets[im.index[j]]
  }

  class Iter {
    const data: Bytes
    const rank: Ranking
    const restarts: nat
    const numRestarts: nat
    var current: nat
    var restartIndex: nat
    var key: Bytes
    var valueStart: nat
    var valueEnd: nat
    /** The entries of the block, and the index of the current one, or their number if there is none. */
    ghost const im: Image
    ghost var pos: nat

    ghost predicate IsBlock() {
      BlockHolds(data, restarts, im, rank) && numRestarts == |im.index|
    }

    /** Restart point j starts before or at entry p, and the next one not before it. */
    ghost predicate RestartFor(j: nat, p: nat) {
      j < |im.index| && im.index[j] <= p && (j + 1 < |im.index| ==> p <= im.index[j + 1])
    }

    ghost predicate At(p: nat)
      reads this
    {
      && p < |im.entries| && |im.offsets| == |im.entries| + 1
      && current == im.offsets[p] && key == im.entries[p].key
      && valueStart <= valueEnd == im.offsets[p + 1] <= restarts <= |data|
      && data[valueStart..valueEnd] == im.entries[p].value
      && RestartFor(restartIndex, p)
    }

    ghost predicate AtEnd()
      reads this
    {
      current == restarts && restartIndex == numRestarts
    }

    ghost predicate Ok()
      reads this
    {
      IsBlock() && if pos < |im.entries| then At(pos) else pos == |im.entries| && AtEnd()
    }

    /** ParseNextKey will find entry p. */
    ghost predicate Ready(p: nat)
      reads this
    {
      && p <= |im.entries| && |im.offsets| == |im.entries| + 1 && |im.shares| == |im.entries|
      && valueEnd == im.offsets[p]
      && restartIndex < |im.index| && im.index[restartIndex] <= p
      && (p < |im.entries| ==>
            im.shares[p] <= |key| && im.shares[p] <= |im.entries[p].key|
            && key[..im.shares[p]] == im.entries[p].key[..im.shares[p]])
    }

    predicate Valid()
      requires Ok()
      reads this
      ensures Valid() <==> pos < |im.entries|
    {
      assert pos < |im.entries| ==> current < restarts by {
        if pos < |im.entries| {
          OffsetsGrow(data[..restarts], im, pos, |im.entries|);
        }
      }
      current < restarts
    }

    function Value(): Bytes
      requires Ok() && Valid()
      reads this
      ensures Value() == im.entries[pos].value
    {
      data[valueStart..valueEnd]
    }

    function GetRestartPoint(j: nat): nat
      requires IsBlock() && j < numRestarts
      ensures RestartIs(im, j) && im.index[j] < |im.offsets| && GetRestartPoint(j) == im.offsets[im.index[j]]
    {
      assert RestartIs(im, j) && im.index[j] < |im.offsets|;
      DecodeFixed32(data[restarts + 4 * j..])
    }

    method SeekToRestartPoint(j: nat)
      requires IsBlock() && j < numRestarts
      modifies this
      ensures Ready(im.index[j]) && restartIndex == j
    {
      key := [];
      restartIndex := j;
      valueEnd := GetRestartPoint(j);
      valueStart := valueEnd;
    }

    /** After an entry comes the next one. */
    lemma ReadyForNext(p: nat)
      requires IsBlock() && At(p)
      ensures Ready(p + 1)
    {
      if p + 1 < |im.entries| {
        assert EntryIs(data[..restarts], im, p + 1);
      }
    }

    method ParseNextKey(ghost p: nat) returns (more: bool)
      requires IsBlock() && Ready(p)
      modifies this
      ensures Ok() && pos == p && (more <==> p < |im.entries|)
    {
      ghost var buffer := data[..restarts];
      pos := p;
      current := valueEnd;
      if p < |im.entries| {
        OffsetsGrow(buffer, im, p, |im.entries|);
      }
      if current >= restarts {
        current, restartIndex := restarts, numRestarts;
        return false;
      }
      Parsed(buffer, im, p, key);
      ghost var e := im.entries[p];
      assert buffer[current..] == data[current..restarts];
      var piece := DecodeEntry(data[current..restarts]).value;
      key := key[..piece.shared] + piece.rest[..piece.nonShared];
      valueStart := restarts - |piece.rest| + piece.nonShared;
      valueEnd := valueStart + piece.valueLength;
      assert buffer[valueStart..valueEnd] == data[valueStart..valueEnd];
      FindRestart(p);
      return true;
    }

    /** Moves on to the last restart point before the current entry. */
    method FindRestart(ghost p: nat)
      requires IsBlock() && p < |im.entries| && current == im.offsets[p]
      requires restartIndex < |im.index| && im.index[restartIndex] <= p
      modifies this`restartIndex
      ensures RestartFor(restartIndex, p)
    {
      while restartIndex + 1 < numRestarts && GetRestartPoint(restartIndex + 1) < current
        invariant restartIndex < numRestarts && im.index[restartIndex] <= p
      {
        RestartBefore(restartIndex + 1, p);
        restartIndex := restartIndex + 1;
      }
      if restartIndex + 1 < numRestarts {
        RestartBefore(restartIndex + 1, p);
      }
    }

    /** Restart points compare with entries as their offsets do. */
    lemma RestartBefore(j: nat, p: nat)
      requires IsBlock() && j < numRestarts && p < |im.entries| && |im.offsets| == |im.entries| + 1
      ensures GetRestartPoint(j) < im.offsets[p] <==> im.index[j] < p
    {
      var q := im.index[j];
      assert RestartIs(im, j);
      if q < p {
        OffsetsGrow(data[..restarts], im, q, p);
      } else if p < q {
        OffsetsGrow(data[..restarts], im, p, q);
      }
    }

    /** NumRestarts and the position of the restart array come from the end of the block. */
    constructor (data: Bytes, rank: Ranking, ghost im: Image)
      requires |data| >= 4 && |data| < TWO32
      requires 4 + 4 * |im.index| <= |data| && BlockHolds(data, |data| - 4 - 4 * |im.index|, im, rank)
      ensures Ok() && pos == |im.entries|
      ensures this.data == data && this.rank == rank && this.im == im
    {
      this.data, this.rank, this.im := data, rank, im;
      var n := DecodeFixed32(data[|data| - 4..]);
      numRestarts := n;
      restarts := |data| - (1 + n) * 4;
      current, restartIndex := |data| - (1 + n) * 4, n;
      key, valueStart, valueEnd := [], 0, 0;
      pos := |im.entries|;
    }

    method Next()
      requires Ok() && Valid()
      modifies this
      ensures Ok() && pos == old(pos) + 1
    {
      ReadyForNext(pos);
      var more := ParseNextKey(pos + 1);
    }

    method SeekToFirst()
      requires IsBlock()
      modifies this
      ensures Ok() && pos == 0
    {
      assert RestartIs(im, 0);
      SeekToRestartPoint(0);
      var more := ParseNextKey(0);
    }

    /** Entries up to q - 1 are parsed and the next one starts at valueEnd. */
    lemma EndsBefore(q: nat)
      requires IsBlock() && At(q)
      ensures forall p :: q < p <= |im.entries| ==> (valueEnd < im.offsets[p] <==> q + 1 < p)
    {
      forall p | q < p <= |im.entries| ensures valueEnd < im.offsets[p] <==> q + 1 < p {
        if q + 1 < p {
          OffsetsGrow(data[..restarts], im, q + 1, p);
        }
      }
    }

    /** Parses on until the entry that ends where entry `end` starts; there is none in an empty block. */
    method ScanTo(ghost start: nat, ghost end: nat, offset: nat)
      requires IsBlock() && Ready(start) && start <= end <= |im.entries| && offset == im.offsets[end]
      requires start == end ==> im.entries == []
      modifies this
      ensures Ok() && pos == if im.entries == [] then 0 else end - 1
    {
      var more := ParseNextKey(start);
      if more {
        EndsBefore(pos);
      }
      while more && valueEnd < offset
        invariant Ok() && (more <==> start < end)
        invariant if more then start <= pos < end && (valueEnd < offset <==> pos + 1 < end) else pos == 0
        decreases end - pos
      {
        more := Step(offset, end);
      }
    }

    method Step(offset: nat, ghost end: nat) returns (more: bool)
      requires IsBlock() && pos + 1 < end <= |im.entries| == |im.offsets| - 1 && At(pos) && offset == im.offsets[end]
      modifies this
      ensures Ok() && more && pos == old(pos) + 1 && (valueEnd < offset <==> pos + 1 < end)
    {
      ReadyForNext(pos);
      more := ParseNextKey(pos + 1);
      EndsBefore(pos);
    }

    method Prev()
      requires Ok() && Valid()
      modifies this
      ensures Ok() && pos == if old(pos) == 0 then |im.entries| else old(pos) - 1
    {
      var original := current;
      ghost var p := pos;
      var found := RestartBeforeCurrent();
      if !found {
        current, restartIndex := restarts, numRestarts;
        pos := |im.entries|;
        return;
      }
      SeekToRestartPoint(restartIndex);
      ScanTo(im.index[restartIndex], p, original);
    }

    /** Goes back to the last restart point before the current entry; there is none before the first. */
    method RestartBeforeCurrent() returns (found: bool)
      requires IsBlock() && At(pos)
      modifies this`restartIndex
      ensures restartIndex < numRestarts
      ensures found <==> 0 < pos
      ensures found ==> im.index[restartIndex] < pos
    {
      var original := current;
      while GetRestartPoint(restartIndex) >= original
        invariant restartIndex < numRestarts
        invariant original == im.offsets[pos]
        decreases restartIndex
      {
        RestartBefore(restartIndex, pos);
        if restartIndex == 0 {
          assert RestartIs(im, 0);
          return false;
        }
        restartIndex := restartIndex - 1;
      }
      RestartBefore(restartIndex, pos);
      return true;
    }

    method SeekToLast()
      requires IsBlock()
      modifies this
      ensures Ok() && pos == if im.entries == [] then 0 else |im.entries| - 1
    {
      SeekToRestartPoint(numRestarts - 1);
      assert RestartIs(im, 0) && RestartIs(im, numRestarts - 1);
      ScanTo(im.index[numRestarts - 1], |im.entries|, restarts);
    }

    /** The whole key stored at a restart point. */
    method KeyAtRestart(j: nat) returns (k: Bytes)
      requires IsBlock() && j < numRestarts && im.entries != []
      ensures im.index[j] < |im.entries| && k == im.entries[im.index[j]].key
    {
      ghost var p := im.index[j];
      var regionOffset := GetRestartPoint(j);
      Parsed(data[..restarts], im, p, []);
      assert data[..restarts][regionOffset..] == data[regionOffset..restarts];
      var piece := DecodeEntry(data[regionOffset..restarts]).value;
      k := piece.rest[..piece.nonShared];
    }

    /** The entry at restart point j does not come before target. */
    ghost predicate KeyFrom(j: nat, target: Bytes)
      reads this
    {
      j < |im.index| && im.index[j] < |im.entries| && rank(target) <= rank(im.entries[im.index[j]].key)
    }

    lemma LaterKeysFrom(m: nat, target: Bytes)
      requires IsBlock() && KeyFrom(m, target)
      ensures forall j :: m <= j < |im.index| ==> KeyFrom(j, target)
    {
      forall j | m <= j < |im.index| ensures KeyFrom(j, target) {
        if m < j {
          IndexGrows(data[..restarts], im, m, j);
          assert rank(im.entries[im.index[m]].key) < rank(im.entries[im.index[j]].key);
        }
      }
    }

    /** The last restart point whose key is before target, or the first one. */
    method SearchRestarts(target: Bytes) returns (left: nat)
      requires IsBlock()
      ensures left < numRestarts
      ensures forall i :: 0 <= i < im.index[left] && i < |im.entries| ==> rank(im.entries[i].key) < rank(target)
      ensures forall j :: left < j < numRestarts ==> KeyFrom(j, target)
    {
      left := 0;
      var right := numRestarts - 1;
      assert RestartIs(im, 0);
      while left < right
        invariant left <= right < numRestarts
        invariant forall i :: 0 <= i < im.index[left] && i < |im.entries| ==> rank(im.entries[i].key) < rank(target)
        invariant forall j :: right < j < numRestarts ==> KeyFrom(j, target)
      {
        var mid := (left + right + 1) / 2;
        var midKey := KeyAtRestart(mid);
        if rank(midKey) < rank(target) {
          left := mid;
        } else {
          LaterKeysFrom(mid, target);
          right := mid - 1;
        }
      }
    }

    method Seek(target: Bytes)
      requires IsBlock()
      modifies this
      ensures Ok() && IsLowerBound(im.entries, rank, target, pos)
    {
      var left := SearchRestarts(target);
      SeekToRestartPoint(left);
      ghost var next := im.index[left];
      while true
        invariant IsBlock() && Ready(next)
        invariant forall i :: 0 <= i < next ==> rank(im.entries[i].key) < rank(target)
        decreases |im.entries| - next
      {
        var more := ParseNextKey(next);
        if !more {
          return;
        }
        if rank(key) >= rank(target) {
          return;
        }
        ReadyForNext(next);
        next := next + 1;
      }
    }
  }
}
