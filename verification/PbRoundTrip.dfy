/** What the encoder wrote comes back (pb_encode.c, pb_decode.c): decoding an encoding restores the message, exactly if
    its strings have room for their NUL. */
module PbRoundTrip {
  import opened Coding
  import opened Visibility
  import opened PbFields
  import opened PbMessages
  import opened PbDecode
  import opened PbDecoding
  import opened PbRecords

  // ---------- Packed arrays ----------

  /** The values of a packed array from j on. */
  function PackedFrom(f: Field, vs: seq<Value>, j: nat): Bytes
    requires j <= |vs| && forall i :: 0 <= i < |vs| ==> ValueOk(f, vs[i])
    decreases |vs| - j
  {
    if j == |vs| then [] else ValueBytes(f, vs[j]) + PackedFrom(f, vs, j + 1)
  }

  lemma {:induction false} PackedSplits(f: Field, vs: seq<Value>, j: nat)
    requires j <= |vs| && forall i :: 0 <= i < |vs| ==> ValueOk(f, vs[i])
    ensures PackedBytes(f, vs) == PackedBytes(f, vs[..j]) + PackedFrom(f, vs, j)
    decreases |vs| - j
  {
    if j == |vs| {
      assert vs[..j] == vs;
    } else {
      PackedSplits(f, vs, j + 1);
      assert vs[..j + 1][..j] == vs[..j];
      Associate(PackedBytes(f, vs[..j]), ValueBytes(f, vs[j]), PackedFrom(f, vs, j + 1));
    }
  }

  lemma NumbersRestored(f: Field, vs: seq<Value>, j: nat)
    requires Scalar(f.kind) && j < |vs| && ValueOk(f, vs[j])
    ensures RestoredAll(f, vs[..j + 1]) == RestoredAll(f, vs[..j]) + [Number(vs[j].n)]
  {
    assert vs[..j + 1][..j] == vs[..j];
  }

  lemma {:induction false} PackedReadsFrom(f: Field, vs: seq<Value>, j: nat)
    requires f.rule.Repeated? && Scalar(f.kind) && j <= |vs| <= f.rule.arraySize
    requires forall i :: 0 <= i < |vs| ==> ValueOk(f, vs[i])
    ensures PackedAt(f, RestoredAll(f, vs[..j]), PackedFrom(f, vs, j)) == Some(RestoredAll(f, vs))
    decreases |vs| - j
  {
    if j == |vs| {
      assert vs[..j] == vs;
    } else {
      NumberReads(f.kind, vs[j].n, PackedFrom(f, vs, j + 1));
      assert PackedFrom(f, vs, j) == NumberBytes(f.kind, vs[j].n) + PackedFrom(f, vs, j + 1);
      NumbersRestored(f, vs, j);
      PackedReadsFrom(f, vs, j + 1);
    }
  }

  /** All the numbers of an array that fits come back. */
  lemma PackedReads(f: Field, vs: seq<Value>)
    requires f.rule.Repeated? && Scalar(f.kind) && |vs| <= f.rule.arraySize
    requires forall i :: 0 <= i < |vs| ==> ValueOk(f, vs[i])
    ensures PackedAt(f, [], PackedBytes(f, vs)) == Some(RestoredAll(f, vs))
  {
    PackedSplits(f, vs, 0);
    PackedReadsFrom(f, vs, 0);
    assert vs[..0] == [] && [] + PackedFrom(f, vs, 0) == PackedFrom(f, vs, 0);
  }

  // ---------- Values ----------

  lemma ContentReads(content: Bytes, after: Bytes)
    requires |content| < TWO32
    ensures ContentAt(Prefixed(content) + after) == Got(content, after)
  {
    Associate(Coding.Varint(|content|), content, after);
    Varint32Reads(|content|, content + after);
    assert (content + after)[..|content|] == content && (content + after)[|content|..] == after;
  }

  lemma DataReads(f: Field, content: Bytes, after: Bytes)
    requires (f.kind.BytesOf? || f.kind.StringOf?) && |content| < TWO32
    ensures var fits := (if f.kind.StringOf? then |content| + 1 else |content|) <= f.kind.size;
            DataAt(f, Prefixed(content) + after) == if fits then Got(Data(content), after) else Failed
  {
    Associate(Coding.Varint(|content|), content, after);
    Varint32Reads(|content|, content + after);
    assert (content + after)[..|content|] == content && (content + after)[|content|..] == after;
  }

  /** The stream holds this value next, as the encoder writes it. */
  ghost predicate Holds(f: Field, v: Value, after: Bytes, b: Bytes) {
    ValueOk(f, v) && Encodable(f, v) && Distinct(f) && b == ValueBytes(f, v) + after && |b| < TWO32
  }

  /** The stream holds this message and nothing else. */
  ghost predicate HoldsMessage(fields: seq<Field>, slots: seq<Slot>, b: Bytes) {
    MessageOk(fields, slots) && EncodableMessage(fields, slots) && AllDistinct(fields)
    && b == MessageBytes(fields, slots) && |b| < TWO32
  }

  /** The value that decoding starts from is the default wherever it matters. */
  ghost predicate StartsFresh(f: Field, w: Value) {
    f.kind.Submessage? && !f.rule.Repeated? ==> w == Default(f)
  }

  lemma ValueReads(f: Field, w: Value, v: Value, after: Bytes, b: Bytes)
    requires Holds(f, v, after, b) && !f.kind.Extension? && Shaped(f, w) && StartsFresh(f, w)
    ensures ValueAt(f, w, b) == if Decodable(f, v) then Got(Restored(f, v), after) else Failed
    decreases f, 0, 1
  {
    hide MessageBytes, MessageAt, MessageOk, EncodableMessage, AllDistinct, ShapedMessage;
    match v
    case Number(n) => NumberReads(f.kind, n, after);
    case Data(bytes) => DataReads(f, if f.kind.StringOf? then CString(bytes) else bytes, after);
    case Message(slots) => SubmessageReads(f, w, slots, after, b);
  }

  lemma SubmessageReads(f: Field, w: Value, slots: seq<Slot>, after: Bytes, b: Bytes)
    requires f.kind.Submessage? && Holds(f, Message(slots), after, b) && Shaped(f, w) && StartsFresh(f, w)
    ensures ValueAt(f, w, b) == if DecodableMessage(f.kind.fields, slots)
                                then Got(Message(RestoredMessage(f.kind.fields, slots)), after) else Failed
    decreases f, 0, 0
  {
    hide Holds, HoldsMessage, StartsFresh, Prefixed, MessageOk, EncodableMessage, AllDistinct, MessageBytes,
         DecodableMessage, RestoredMessage, Defaults, ShapedMessage;
    var content := SubmessageHeld(f, w, slots, after, b);
    ContentReads(content, after);
    DefaultsShaped(f.kind.fields);
    MessageReads(f.kind.fields, slots, content);
  }

  lemma SubmessageHeld(f: Field, w: Value, slots: seq<Slot>, after: Bytes, b: Bytes) returns (content: Bytes)
    requires f.kind.Submessage? && Holds(f, Message(slots), after, b) && StartsFresh(f, w)
    ensures HoldsMessage(f.kind.fields, slots, content) && b == Prefixed(content) + after && |content| < TWO32
    ensures Distinct(f) && (f.rule.Repeated? || w == Message(Defaults(f.kind.fields)))
  {
    content := MessageBytes(f.kind.fields, slots);
  }

  /** One record of a field. */
  ghost predicate HoldsRecord(f: Field, slot: Slot, k: nat, slot0: Slot, after: Bytes, b: Bytes) {
    && SlotOk(f, slot) && EncodableSlot(f, slot) && Distinct(f) && k < RecordCount(f, slot)
    && slot0 == Part(f, slot, k) && b == Payload(f, slot, k) + after && |b| < TWO32
  }

  /** What one more record adds to a slot. */
  lemma NextPart(f: Field, slot: Slot, k: nat)
    requires SlotOk(f, slot) && !Packed(f, slot) && k < RecordCount(f, slot)
    ensures var w := Restored(f, RecordValue(f, slot, k));
            && (slot.Single? ==> Part(f, slot, k + 1) == Single(w))
            && (slot.Maybe? ==> Part(f, slot, k + 1) == Maybe(true, w))
            && (slot.Many? ==> Part(f, slot, k).Many? && |Part(f, slot, k).values| == k
                               && Part(f, slot, k + 1) == Many(Part(f, slot, k).values + [w]))
  {
    if slot.Many? {
      assert slot.values[..k + 1][..k] == slot.values[..k];
      assert slot.values[..0] == [];
    }
  }

  lemma SlotReads(f: Field, slot0: Slot, slot: Slot, k: nat, after: Bytes, b: Bytes)
    requires HoldsRecord(f, slot, k, slot0, after, b) && !f.kind.Extension? && ShapedSlot(f, slot0)
    ensures SlotAt(f, RecordWire(f, slot), slot0, b)
            == if RecordDecodable(f, slot, k) then Got(Part(f, slot, k + 1), after) else Failed
    decreases f, 1
  {
    if Packed(f, slot) {
      ContentReads(PackedBytes(f, slot.values), after);
      PackedReads(f, slot.values);
    } else {
      NextPart(f, slot, k);
      DefaultShaped(f);
      var v := RecordValue(f, slot, k);
      match slot
      case Single(_) => ValueReads(f, slot0.value, v, after, b);
      case Maybe(_, _) => ValueReads(f, slot0.value, v, after, b);
      case Many(_) => ValueReads(f, Default(f), v, after, b);
    }
  }

  // ---------- Messages ----------

  /** Every required field before the place has occurred. */
  ghost predicate SeenTo(fields: seq<Field>, i: nat, k: nat, seen: set<nat>) {
    forall n :: 0 <= n < |fields| && fields[n].rule.Required? && (n < i || (n == i && k > 0)) ==> n in seen
  }

  /** The decoder stands at a place of the encoding of these slots, and every required field before it has occurred. */
  ghost predicate Standing(fields: seq<Field>, slots: seq<Slot>, i: nat, k: nat, p: Partial, b: Bytes) {
    && IsPlace(fields, slots, i, k) && EncodableMessage(fields, slots) && AllDistinct(fields)
    && b == From(fields, slots, i, k) && p.dest == DestAt(fields, slots, i, k) && |b| < TWO32
    && ShapedMessage(fields, p.dest)
    && SeenTo(fields, i, k, p.seen)
  }

  /** Everything before that place could be decoded. */
  ghost predicate DecodedTo(fields: seq<Field>, slots: seq<Slot>, i: nat, k: nat)
    requires |slots| == |fields|
  {
    && (forall n :: 0 <= n < i && n < |fields| ==> forall m ::
        0 <= m < RecordCount(fields[n], slots[n]) ==> RecordDecodable(fields[n], slots[n], m))
    && (i < |fields| ==> forall m ::
        0 <= m < k && m < RecordCount(fields[i], slots[i]) ==> RecordDecodable(fields[i], slots[i], m))
  }

  lemma TagFits(f: Field, slot: Slot, k: nat, tail: Bytes)
    requires SlotOk(f, slot) && k < RecordCount(f, slot) && 0 < f.tag < 0x2000_0000
    ensures RecordBytes(f, slot, k) + tail == Tag(f.tag, RecordWire(f, slot)) + (Payload(f, slot, k) + tail)
    ensures RecordWire(f, slot) < 8 && 0 < f.tag * 8 + RecordWire(f, slot) < TWO32
  {
    Associate(Tag(f.tag, RecordWire(f, slot)), Payload(f, slot, k), tail);
  }

  lemma TagFindsField(fields: seq<Field>, i: nat)
    requires AllDistinct(fields) && i < |fields|
    ensures FieldWithTag(fields, fields[i].tag) == i
  {
    var j := FieldWithTag(fields, fields[i].tag);
    assert j < |fields| ==> fields[j].tag == fields[i].tag;
  }

  lemma RecordAtPlace(fields: seq<Field>, slots: seq<Slot>, i: nat, k: nat, p: Partial, tail: Bytes)
    requires IsPlace(fields, slots, i, k) && i < |fields| && EncodableMessage(fields, slots) && AllDistinct(fields)
    requires ShapedMessage(fields, p.dest) && p.dest[i] == Part(fields[i], slots[i], k)
    requires |RecordBytes(fields[i], slots[i], k) + tail| < TWO32
    ensures var b := RecordBytes(fields[i], slots[i], k) + tail;
            && TagAt(b).TagRead?
            && RecordAt(fields, p, TagAt(b).tag, TagAt(b).wireType, TagAt(b).rest)
               == if RecordDecodable(fields[i], slots[i], k)
                  then Got(Partial(p.dest[i := Part(fields[i], slots[i], k + 1)], p.seen + {i}), tail) else Failed
    decreases fields, 2
  {
    var f, slot := fields[i], slots[i];
    TagFits(f, slot, k, tail);
    TagReads(f.tag, RecordWire(f, slot), Payload(f, slot, k) + tail);
    TagFindsField(fields, i);
    SlotReads(f, p.dest[i], slot, k, tail, Payload(f, slot, k) + tail);
  }

  /** The place (i', k') is the next one after (i, k). */
  ghost predicate After(fields: seq<Field>, slots: seq<Slot>, i: nat, k: nat, i': nat, k': nat)
    requires |slots| == |fields| && i < |fields|
  {
    && ((i' == i && k' == k + 1) || (i < i' && k' == 0))
    && (forall n :: i < n < i' && n < |fields| ==> RecordCount(fields[n], slots[n]) == 0)
    && (i < i' ==> k + 1 == RecordCount(fields[i], slots[i]))
  }

  lemma StillDecoded(fields: seq<Field>, slots: seq<Slot>, i: nat, k: nat, i': nat, k': nat)
    requires |slots| == |fields| && i < |fields| && k < RecordCount(fields[i], slots[i])
    requires After(fields, slots, i, k, i', k') && DecodedTo(fields, slots, i, k)
             && RecordDecodable(fields[i], slots[i], k)
    ensures DecodedTo(fields, slots, i', k')
  {
  }

  lemma StillSeen(fields: seq<Field>, slots: seq<Slot>, i: nat, k: nat, i': nat, k': nat, seen: set<nat>)
    requires MessageOk(fields, slots) && i < |fields| && After(fields, slots, i, k, i', k')
             && SeenTo(fields, i, k, seen)
    ensures SeenTo(fields, i', k', seen + {i})
  {
    forall n | i < n < i' && n < |fields| ensures !fields[n].rule.Required? {
      assert SlotOk(fields[n], slots[n]);
    }
  }

  /** The record at a place is decoded, or is what cannot be. */
  lemma RecordReads(fields: seq<Field>, slots: seq<Slot>, i: nat, k: nat, p: Partial, b: Bytes)
    returns (i': nat, k': nat)
    requires Standing(fields, slots, i, k, p, b) && DecodedTo(fields, slots, i, k) && i < |fields|
    ensures TagAt(b).TagRead?
    ensures var r := RecordAt(fields, p, TagAt(b).tag, TagAt(b).wireType, TagAt(b).rest);
            if RecordDecodable(fields[i], slots[i], k) then
              r.Got? && |r.rest| < |b| && Standing(fields, slots, i', k', r.value, r.rest)
                  && DecodedTo(fields, slots, i', k')
            else r.Failed?
    decreases fields, 3
  {
    i', k' := PlaceAfter(fields, slots, i, k);
    hide DecodedTo, SeenTo, SlotFrom, FieldsFrom, RecordBytes, MessageOk, SlotOk, EncodableMessage, AllDistinct;
    RecordAtPlace(fields, slots, i, k, p, From(fields, slots, i', k'));
    if RecordDecodable(fields[i], slots[i], k) {
      StillDecoded(fields, slots, i, k, i', k');
      StillSeen(fields, slots, i, k, i', k', p.seen);
    }
  }

  lemma NotDecodable(fields: seq<Field>, slots: seq<Slot>, i: nat, k: nat)
    requires MessageOk(fields, slots) && i < |fields| && k < RecordCount(fields[i], slots[i])
    requires !RecordDecodable(fields[i], slots[i], k)
    ensures !DecodableMessage(fields, slots)
  {
    SlotDecodable(fields[i], slots[i]);
  }

  lemma AtTheEnd(fields: seq<Field>, slots: seq<Slot>, p: Partial, b: Bytes)
    requires Standing(fields, slots, |fields|, 0, p, b) && DecodedTo(fields, slots, |fields|, 0)
    ensures p.dest == RestoredMessage(fields, slots) && DecodableMessage(fields, slots) && RequiredSeen(fields, p.seen)
  {
    forall n | 0 <= n < |fields| ensures DecodableSlot(fields[n], slots[n]) {
      SlotDecodable(fields[n], slots[n]);
    }
    RestoredAt(fields, slots);
  }

  lemma {:induction false} RestoredAt(fields: seq<Field>, slots: seq<Slot>)
    requires |slots| == |fields|
    ensures forall n :: 0 <= n < |fields| ==> RestoredMessage(fields, slots)[n] == RestoredSlot(fields[n], slots[n])
    decreases |fields|
  {
    if fields != [] {
      RestoredAt(fields[1..], slots[1..]);
    }
  }

  lemma {:induction false} RecordsRead(fields: seq<Field>, slots: seq<Slot>, i: nat, k: nat, p: Partial, b: Bytes)
    requires Standing(fields, slots, i, k, p, b) && DecodedTo(fields, slots, i, k)
    ensures var r := RecordsAt(fields, p, b);
            if DecodableMessage(fields, slots) then
              r.Some? && r.value.dest == RestoredMessage(fields, slots) && RequiredSeen(fields, r.value.seen)
            else r.None?
    decreases fields, 4, |b|
  {
    hide SeenTo, DecodedTo, SlotFrom, FieldsFrom;
    if i == |fields| {
      AtTheEnd(fields, slots, p, b);
    } else {
      var i', k' := RecordReads(fields, slots, i, k, p, b);
      if RecordDecodable(fields[i], slots[i], k) {
        var r := RecordAt(fields, p, TagAt(b).tag, TagAt(b).wireType, TagAt(b).rest);
        RecordsRead(fields, slots, i', k', r.value, r.rest);
      } else {
        NotDecodable(fields, slots, i, k);
      }
    }
  }

  lemma AtTheStart(fields: seq<Field>, slots: seq<Slot>, b: Bytes) returns (i: nat)
    requires HoldsMessage(fields, slots, b)
    ensures Standing(fields, slots, i, 0, Partial(Defaults(fields), {}), b) && DecodedTo(fields, slots, i, 0)
  {
    DefaultsShaped(fields);
    MessageIsFields(fields, slots);
    i := NextPlace(fields, slots, 0);
    StartsWithDefaults(fields, slots);
    forall n | 0 <= n < i ensures !fields[n].rule.Required? {
      assert SlotOk(fields[n], slots[n]) && RecordCount(fields[n], slots[n]) == 0;
    }
  }

  /** Decoding the encoding of a message, nested to any depth, restores it, exactly if every string in it has room for
      its NUL. */
  lemma MessageReads(fields: seq<Field>, slots: seq<Slot>, b: Bytes)
    requires HoldsMessage(fields, slots, b)
    ensures ShapedMessage(fields, Defaults(fields))
    ensures MessageAt(fields, Defaults(fields), b)
            == if DecodableMessage(fields, slots) then Some(RestoredMessage(fields, slots)) else None
    decreases fields, 5
  {
    DefaultsShaped(fields);
    var i := AtTheStart(fields, slots, b);
    assert AllDistinct(fields);
    hide HoldsMessage, Standing, DecodedTo, RequiredSeen, Defaults, DecodableMessage, RestoredMessage;
    RecordsRead(fields, slots, i, 0, Partial(Defaults(fields), {}), b);
  }

  lemma StartsWithDefaults(fields: seq<Field>, slots: seq<Slot>)
    requires |slots| == |fields|
    ensures DestAt(fields, slots, 0, 0) == Defaults(fields)
  {
  }

  const FULL_STRING := Field(1, Required, StringOf(1))

  lemma FullStringBytes()
    ensures MessageOk([FULL_STRING], [Single(Data([65]))])
    ensures MessageBytes([FULL_STRING], [Single(Data([65]))]) == [0x0A, 1, 65]
  {
    var f, v := FULL_STRING, Data([65]);
    assert CString([65]) == [65] + CString([]);
    assert ValueBytes(f, v) == [1] + [65];
    assert SlotBytes(f, Single(v)) == [0x0A] + [1, 65];
    var fields, slots := [f], [Single(v)];
    assert fields[..0] == [] && slots[..0] == [];
    assert MessageBytes(fields, slots) == [] + SlotBytes(f, Single(v));
  }

  /** A string without a NUL in its buffer is encoded, but what is encoded is refused by the same descriptor. */
  lemma FullStringIsRefused()
    ensures var fields, slots := [FULL_STRING], [Single(Data([65]))];
            && MessageOk(fields, slots) && AllDistinct(fields) && EncodableMessage(fields, slots)
            && !DecodableMessage(fields, slots)
            && ShapedMessage(fields, Defaults(fields))
            && MessageAt(fields, Defaults(fields), MessageBytes(fields, slots)) == None
  {
    hide MessageAt, RestoredMessage;
    var f, v := FULL_STRING, Data([65]);
    var fields, slots := [f], [Single(v)];
    FullStringBytes();
    assert !DecodableSlot(fields[0], slots[0]) by {
      assert CString([65]) == [65] + CString([]);
    }
    assert EncodableMessage(fields, slots) && AllDistinct(fields) && MessageBytes(fields, slots) == [0x0A, 1, 65];
    assert HoldsMessage(fields, slots, [0x0A, 1, 65]);
    MessageReads(fields, slots, [0x0A, 1, 65]);
  }
}
