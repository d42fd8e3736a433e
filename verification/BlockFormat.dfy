/** Blocks of prefix-compressed entries and the builder that writes them (table/block_builder.cc). */
module BlockFormat {
  import opened Coding
  import opened Visibility

  datatype KV = KV(key: Bytes, value: Bytes)

  // ---------- One entry ----------

  function EntryHeader(shared: nat, nonShared: nat, valueLength: nat): (r: Bytes)
    ensures |r| >= 3
  {
    Varint(shared) + Varint(nonShared) + Varint(valueLength)
  }

  /** An entry whose key shares its first bytes with the key before it. */
  function EntryBytes(shared: nat, e: KV): (r: Bytes)
    requires shared <= |e.key|
    ensures |r| >= 3 + |e.key| - shared + |e.value|
  {
    EntryHeader(shared, |e.key| - shared, |e.value|) + (e.key[shared..] + e.value)
  }

  datatype Piece = Piece(shared: nat, nonShared: nat, valueLength: nat, rest: Bytes)

  /** The three lengths; one byte each if that is enough. */
  function DecodeHeader(b: Bytes): Option<Piece> {
    if |b| < 3 then None
    else if b[0] < 128 && b[1] < 128 && b[2] < 128 then
      Some(Piece(b[0] as int, b[1] as int, b[2] as int, b[3..]))
    else
      match GetVarint32(b)
      case Failed => None
      case Got(shared, b1) =>
        match GetVarint32(b1)
        case Failed => None
        case Got(nonShared, b2) =>
          match GetVarint32(b2)
          case Failed => None
          case Got(valueLength, rest) => Some(Piece(shared, nonShared, valueLength, rest))
  }

  /** DecodeEntry: fails if the key and the value, whose lengths are added in 32 bits, do not fit. */
  function DecodeEntry(b: Bytes): Option<Piece> {
    var h := DecodeHeader(b);
    if h.None? || |h.value.rest| < (h.value.nonShared + h.value.valueLength) % TWO32 then None else h
  }

  lemma SmallVarint(v: nat, rest: Bytes)
    ensures var b := Varint(v) + rest;
            |b| > 0 && (b[0] < 128 <==> v < 128) && (v < 128 ==> b[0] == v && b[1..] == rest)
  {
  }

  lemma HeaderRoundTrip(shared: nat, nonShared: nat, valueLength: nat, rest: Bytes)
    requires shared < TWO32 && nonShared < TWO32 && valueLength < TWO32
    ensures DecodeHeader(EntryHeader(shared, nonShared, valueLength) + rest)
            == Some(Piece(shared, nonShared, valueLength, rest))
  {
    var b2 := Varint(valueLength) + rest;
    var b1 := Varint(nonShared) + b2;
    var b := Varint(shared) + b1;
    assert EntryHeader(shared, nonShared, valueLength) + rest == b;
    HeaderOf(shared, nonShared, valueLength, b, b1, b2, rest);
  }

  lemma HeaderOf(shared: nat, nonShared: nat, valueLength: nat, b: Bytes, b1: Bytes, b2: Bytes, rest: Bytes)
    requires shared < TWO32 && nonShared < TWO32 && valueLength < TWO32
    requires b == Varint(shared) + b1 && b1 == Varint(nonShared) + b2 && b2 == Varint(valueLength) + rest
    ensures DecodeHeader(b) == Some(Piece(shared, nonShared, valueLength, rest))
  {
    SmallVarint(shared, b1);
    SmallVarint(nonShared, b2);
    SmallVarint(valueLength, rest);
    Varint32RoundTrip(shared, b1);
    Varint32RoundTrip(nonShared, b2);
    Varint32RoundTrip(valueLength, rest);
    if b[0] < 128 && b[1] < 128 && b[2] < 128 {
      assert b[1] == b[1..][0] && b[2] == b[1..][1..][0];
      assert b[3..] == b[1..][1..][1..];
    }
  }

  // ---------- A block ----------

  /** What a block holds: its entries, where each starts (and the last one ends), how much of its key each
      takes from the one before, and which entries are restart points. */
  datatype Image = Image(entries: seq<KV>, offsets: seq<nat>, shares: seq<nat>, index: seq<nat>)

  ghost predicate EntryIs(buffer: Bytes, im: Image, i: nat) {
    && i < |im.entries| == |im.shares| && |im.offsets| == |im.entries| + 1
    && im.offsets[i] <= im.offsets[i + 1] <= |buffer|
    && im.shares[i] <= |im.entries[i].key|
    && (0 < i ==> im.shares[i] <= |im.entries[i - 1].key|
                  && im.entries[i].key[..im.shares[i]] == im.entries[i - 1].key[..im.shares[i]])
    && (i == 0 ==> im.shares[i] == 0)
    && buffer[im.offsets[i]..im.offsets[i + 1]] == EntryBytes(im.shares[i], im.entries[i])
  }

  /** Restart point j is an entry with a whole key. */
  ghost predicate RestartIs(im: Image, j: nat) {
    && j < |im.index| && |im.shares| == |im.entries|
    && (j == 0 ==> im.index[j] == 0)
    && (0 < j ==> im.index[j - 1] < im.index[j])
    && (im.entries == [] || (im.index[j] < |im.entries| && im.shares[im.index[j]] == 0))
  }

  ghost predicate Encodes(buffer: Bytes, im: Image) {
    && |im.shares| == |im.entries| && |im.offsets| == |im.entries| + 1
    && im.offsets[0] == 0 && im.offsets[|im.entries|] == |buffer|
    && (forall i {:trigger EntryIs(buffer, im, i)} :: 0 <= i < |im.entries| ==> EntryIs(buffer, im, i))
    && |im.index| > 0 && (im.entries == [] ==> |im.index| == 1)
    && (forall j {:trigger RestartIs(im, j)} :: 0 <= j < |im.index| ==> RestartIs(im, j))
  }

  /** The offsets in the restart array. */
  ghost predicate RestartsAre(restarts: seq<nat>, im: Image) {
    && |restarts| == |im.index|
    && forall j {:trigger restarts[j]} :: 0 <= j < |restarts| ==>
         RestartIs(im, j) && im.index[j] < |im.offsets| && restarts[j] == im.offsets[im.index[j]]
  }

  function Added(im: Image, e: KV, shared: nat, restart: bool, end: nat): Image {
    Image(im.entries + [e], im.offsets + [end], im.shares + [shared],
          if restart then im.index + [|im.entries|] else im.index)
  }

  lemma EntryStays(buffer: Bytes, im: Image, more: Bytes, im': Image, i: nat)
    requires EntryIs(buffer, im, i)
    requires im.entries <= im'.entries && im.offsets <= im'.offsets && im.shares <= im'.shares
    requires |im'.shares| == |im'.entries| && |im'.offsets| == |im'.entries| + 1
    ensures EntryIs(buffer + more, im', i)
  {
    var from, to := im.offsets[i], im.offsets[i + 1];
    assert (buffer + more)[from..to] == buffer[from..to];
    assert im'.offsets[i] == from && im'.offsets[i + 1] == to;
    if 0 < i {
      assert im'.entries[i - 1] == im.entries[i - 1];
    }
  }

  /** Appending an entry that shares a prefix with the last key keeps the block readable. */
  lemma AddEncodes(buffer: Bytes, im: Image, e: KV, shared: nat, restart: bool)
    requires Encodes(buffer, im) && shared <= |e.key|
    requires restart || im.entries == [] ==> shared == 0
    requires restart ==> im.entries != []
    requires var n := |im.entries|;
             n > 0 ==> shared <= |im.entries[n - 1].key| && e.key[..shared] == im.entries[n - 1].key[..shared]
    ensures var more := EntryBytes(shared, e);
            Encodes(buffer + more, Added(im, e, shared, restart, |buffer + more|))
  {
    var more, n := EntryBytes(shared, e), |im.entries|;
    var im' := Added(im, e, shared, restart, |buffer + more|);
    forall i | 0 <= i < n + 1 ensures EntryIs(buffer + more, im', i) {
      if i < n {
        assert EntryIs(buffer, im, i);
        EntryStays(buffer, im, more, im', i);
      } else {
        assert (buffer + more)[|buffer|..|buffer + more|] == more;
      }
    }
    forall j | 0 <= j < |im'.index| ensures RestartIs(im', j) {
      if j < |im.index| {
        assert RestartIs(im, j);
      } else {
        assert RestartIs(im, j - 1);
      }
    }
  }

  /** The finished block: entries, restart offsets, number of restarts. */
  function Finished(buffer: Bytes, restarts: seq<nat>): Bytes {
    buffer + Fixed32Array(restarts) + Fixed(|restarts|, 4)
  }

  lemma AddKeepsRestarts(restarts: seq<nat>, im: Image, e: KV, shared: nat, restart: bool, end: nat)
    requires RestartsAre(restarts, im) && |im.offsets| == |im.entries| + 1
    requires forall j {:trigger RestartIs(Added(im, e, shared, restart, end), j)} ::
               0 <= j < |Added(im, e, shared, restart, end).index| ==> RestartIs(Added(im, e, shared, restart, end), j)
    ensures RestartsAre(if restart then restarts + [im.offsets[|im.entries|]] else restarts,
                        Added(im, e, shared, restart, end))
  {
    var im' := Added(im, e, shared, restart, end);
    forall j | 0 <= j < |im'.index|
      ensures RestartIs(im', j) && im'.index[j] < |im'.offsets|
      ensures j < |restarts| ==> restarts[j] == im'.offsets[im'.index[j]]
    {
      assert RestartIs(im', j);
      if j < |restarts| {
        assert restarts[j] == im.offsets[im.index[j]];
      }
    }
  }

  lemma AddStep(buffer: Bytes, im: Image, restarts: seq<nat>, e: KV, shared: nat, restart: bool)
    requires Encodes(buffer, im) && RestartsAre(restarts, im) && shared <= |e.key|
    requires restart || im.entries == [] ==> shared == 0
    requires restart ==> im.entries != []
    requires var n := |im.entries|;
             n > 0 ==> shared <= |im.entries[n - 1].key| && e.key[..shared] == im.entries[n - 1].key[..shared]
    ensures var buffer' := buffer + EntryBytes(shared, e);
            var im' := Added(im, e, shared, restart, |buffer'|);
            && Encodes(buffer', im')
            && RestartsAre(if restart then restarts + [|buffer|] else restarts, im')
  {
    AddEncodes(buffer, im, e, shared, restart);
    AddKeepsRestarts(restarts, im, e, shared, restart, |buffer + EntryBytes(shared, e)|);
  }

  /** The longest prefix of both keys. */
  predicate SharesAll(last: Bytes, key: Bytes, shared: nat) {
    && shared <= |last| && shared <= |key| && last[..shared] == key[..shared]
    && (shared < |last| && shared < |key| ==> last[shared] != key[shared])
  }

  class BlockBuilder {
    const restartInterval: nat
    var buffer: Bytes
    var restarts: seq<nat>
    var counter: nat
    var finished: bool
    var lastKey: Bytes
    ghost var im: Image

    ghost predicate Valid()
      reads this
    {
      && restartInterval >= 1 && counter <= restartInterval
      && (!finished ==>
            && Encodes(buffer, im) && RestartsAre(restarts, im)
            && counter == |im.entries| - im.index[|im.index| - 1]
            && lastKey == if im.entries == [] then [] else im.entries[|im.entries| - 1].key)
    }

    constructor (restartInterval: nat)
      requires restartInterval >= 1
      ensures Valid() && !finished && im == Image([], [0], [], [0]) && buffer == []
      ensures this.restartInterval == restartInterval
    {
      this.restartInterval := restartInterval;
      buffer, restarts, counter, finished, lastKey := [], [0], 0, false, [];
      im := Image([], [0], [], [0]);
    }

    method Reset()
      requires restartInterval >= 1
      modifies this
      ensures Valid() && !finished && im == Image([], [0], [], [0]) && buffer == []
    {
      buffer, restarts, counter, finished, lastKey := [], [0], 0, false, [];
      im := Image([], [0], [], [0]);
    }

    method SharedWith(key: Bytes) returns (shared: nat)
      ensures shared <= |key| && shared <= |lastKey| && key[..shared] == lastKey[..shared]
      ensures shared < |key| && shared < |lastKey| ==> key[shared] != lastKey[shared]
    {
      var minLength := if |lastKey| < |key| then |lastKey| else |key|;
      shared := 0;
      while shared < minLength && lastKey[shared] == key[shared]
        invariant shared <= minLength && key[..shared] == lastKey[..shared]
      {
        shared := shared + 1;
      }
    }

    /** One more entry: after restartInterval entries it starts a new run with its whole key; before that it shares as
        much as it can with the last key. */
    method Add(key: Bytes, value: Bytes)
      requires Valid() && !finished
      modifies this
      ensures Valid() && !finished && im.entries == old(im.entries) + [KV(key, value)] && buffer != []
      ensures old(buffer) <= buffer
      ensures if |old(im.entries)| - old(im.index[|im.index| - 1]) < restartInterval
              then
                && im.index == old(im.index)
                && exists shared :: im.shares == old(im.shares) + [shared] && SharesAll(old(lastKey), key, shared)
              else
                im.index == old(im.index) + [|old(im.entries)|] && im.shares == old(im.shares) + [0]
    {
      ghost var e, restart := KV(key, value), counter >= restartInterval;
      var shared := 0;
      if counter < restartInterval {
        shared := SharedWith(key);
      }
      AddStep(buffer, im, restarts, e, shared, restart);
      if counter >= restartInterval {
        restarts := restarts + [|buffer|];
        counter := 0;
      }
      var nonShared := |key| - shared;
      buffer := buffer + (EntryHeader(shared, nonShared, |value|) + (key[shared..] + value));
      im := Added(im, e, shared, restart, |buffer|);
      lastKey := lastKey[..shared] + key[shared..];
      counter := counter + 1;
    }

    method Finish() returns (block: Bytes)
      requires Valid() && !finished
      modifies this
      ensures Valid() && finished && im == old(im) && restarts == old(restarts)
      ensures block == buffer == Finished(old(buffer), restarts)
    {
      buffer := PutFixed32s(buffer, restarts);
      buffer := buffer + Fixed(|restarts|, 4);
      finished := true;
      block := buffer;
    }
  }
}
