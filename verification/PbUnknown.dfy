/** Records of fields that a descriptor does not have (pb_decode.c, pb_skip_field): wherever they stand among the
    others, decoding gives what it gives without them. */
module PbUnknown {
  import opened Coding
  import opened Visibility
  import opened PbFields
  import opened PbMessages
  import opened PbDecode
  import opened PbDecoding

  // ---------- What is read does not depend on what follows ----------

  /** The bytes before the rest. */
  function Before(b: Bytes, rest: Bytes): Bytes
    requires |rest| <= |b|
  {
    b[..|b| - |rest|]
  }

  /** The rest is the end of the input, and with another end behind what was read the result is the same. */
  ghost predicate Local<T(!new)>(b: Bytes, r: Decoded<T>, y: Bytes, r': Decoded<T>) {
    r.Got? ==> |r.rest| <= |b| && b == Before(b, r.rest) + r.rest && r' == Got(r.value, y)
  }

  /** The first group decides alike whatever follows it. */
  lemma FirstGroup(v: nat, bitpos: nat, unit: nat, b: Bytes, b': Bytes) returns (w: nat)
    requires DecodeGroups(v, bitpos, unit, b).Got? && b' != [] && b[0] == b'[0]
    ensures b[0] >= 128 ==>
              && DecodeGroups(v, bitpos, unit, b) == DecodeGroups(w, bitpos + 7, unit * 128, b[1..])
              && DecodeGroups(v, bitpos, unit, b') == DecodeGroups(w, bitpos + 7, unit * 128, b'[1..])
    ensures b[0] < 128 ==>
              && DecodeGroups(v, bitpos, unit, b) == Got(w, b[1..])
              && DecodeGroups(v, bitpos, unit, b') == Got(w, b'[1..])
  {
    hide AddGroup;
    w := if bitpos >= 32 then v else AddGroup(v, b[0] as int % 128, unit);
  }

  lemma {:induction false} GroupsAreLocal(v: nat, bitpos: nat, unit: nat, b: Bytes, y: Bytes)
    requires DecodeGroups(v, bitpos, unit, b).Got?
    ensures var r := DecodeGroups(v, bitpos, unit, b);
            Local(b, r, y, DecodeGroups(v, bitpos, unit, Before(b, r.rest) + y))
    decreases |b|
  {
    var r := DecodeGroups(v, bitpos, unit, b);
    var c := Before(b, r.rest);
    var w := FirstGroup(v, bitpos, unit, b, c + y);
    hide DecodeGroups;
    if b[0] >= 128 {
      GroupsAreLocal(w, bitpos + 7, unit * 128, b[1..], y);
      assert c == [b[0]] + Before(b[1..], r.rest);
      assert (c + y)[1..] == Before(b[1..], r.rest) + y;
    } else {
      assert c == [b[0]] && (c + y)[1..] == y;
    }
  }

  lemma Varint32IsLocal(b: Bytes, y: Bytes)
    requires DecodeVarint32(b).Got?
    ensures var r := DecodeVarint32(b);
            Local(b, r, y, DecodeVarint32(Before(b, r.rest) + y))
  {
    var r := DecodeVarint32(b);
    var c := Before(b, r.rest);
    if b[0] >= 128 {
      GroupsAreLocal(b[0] as int % 128, 7, 128, b[1..], y);
      assert c == [b[0]] + Before(b[1..], r.rest);
      assert (c + y)[1..] == Before(b[1..], r.rest) + y;
    } else {
      assert c == [b[0]] && (c + y)[1..] == y;
    }
  }

  lemma {:induction false} VarintIsLocal(b: Bytes, groups: nat, y: Bytes)
    requires DecodeVarint(b, groups).Got?
    ensures var r := DecodeVarint(b, groups);
            Local(b, r, y, DecodeVarint(Before(b, r.rest) + y, groups))
    decreases groups
  {
    var r := DecodeVarint(b, groups);
    var c := Before(b, r.rest);
    if b[0] >= 128 {
      VarintIsLocal(b[1..], groups - 1, y);
      assert c == [b[0]] + Before(b[1..], r.rest);
      assert (c + y)[1..] == Before(b[1..], r.rest) + y;
    } else {
      assert c == [b[0]] && (c + y)[1..] == y;
    }
  }

  lemma NumberIsLocal(k: Kind, b: Bytes, y: Bytes)
    requires Scalar(k) && NumberAt(k, b).Got?
    ensures var r := NumberAt(k, b);
            Local(b, r, y, NumberAt(k, Before(b, r.rest) + y))
  {
    var r := NumberAt(k, b);
    var c := Before(b, r.rest);
    if k.Fixed32? || k.Fixed64? {
      var width := if k.Fixed32? then 4 else 8;
      assert (c + y)[..width] == b[..width] && (c + y)[width..] == y;
    } else {
      VarintIsLocal(b, 10, y);
    }
  }

  /** Some bytes behind a length. */
  lemma PrefixedIsLocal(b: Bytes, y: Bytes)
    requires DecodeVarint32(b).Got? && DecodeVarint32(b).value <= |DecodeVarint32(b).rest|
    ensures var size, rest := DecodeVarint32(b).value, DecodeVarint32(b).rest;
            var c := Before(b, rest[size..]);
            && b == c + rest[size..] && DecodeVarint32(c + y) == Got(size, rest[..size] + y)
            && (rest[..size] + y)[..size] == rest[..size] && (rest[..size] + y)[size..] == y
  {
    var size, rest := DecodeVarint32(b).value, DecodeVarint32(b).rest;
    Varint32IsLocal(b, rest[..size] + y);
    assert Before(b, rest[size..]) + y == Before(b, rest) + (rest[..size] + y);
  }

  lemma ContentIsLocal(b: Bytes, y: Bytes)
    requires ContentAt(b).Got?
    ensures var r := ContentAt(b);
            Local(b, r, y, ContentAt(Before(b, r.rest) + y))
  {
    PrefixedIsLocal(b, y);
  }

  lemma DataIsLocal(f: Field, b: Bytes, y: Bytes)
    requires (f.kind.BytesOf? || f.kind.StringOf?) && DataAt(f, b).Got?
    ensures var r := DataAt(f, b);
            Local(b, r, y, DataAt(f, Before(b, r.rest) + y))
  {
    PrefixedIsLocal(b, y);
  }

  lemma ValueIsLocal(f: Field, w: Value, b: Bytes, y: Bytes)
    requires Distinct(f) && !f.kind.Extension? && Shaped(f, w) && ValueAt(f, w, b).Got?
    ensures var r := ValueAt(f, w, b);
            Local(b, r, y, ValueAt(f, w, Before(b, r.rest) + y))
  {
    hide MessageAt, Defaults, ShapedMessage;
    if f.kind.Submessage? {
      ContentIsLocal(b, y);
    } else if f.kind.BytesOf? || f.kind.StringOf? {
      DataIsLocal(f, b, y);
    } else {
      NumberIsLocal(f.kind, b, y);
    }
  }

  lemma SlotIsLocal(f: Field, wireType: nat, slot: Slot, b: Bytes, y: Bytes)
    requires Distinct(f) && !f.kind.Extension? && ShapedSlot(f, slot) && SlotAt(f, wireType, slot, b).Got?
    ensures var r := SlotAt(f, wireType, slot, b);
            Local(b, r, y, SlotAt(f, wireType, slot, Before(b, r.rest) + y))
  {
    hide ValueAt, PackedAt, ContentAt;
    match f.rule
    case Required => ValueIsLocal(f, slot.value, b, y);
    case Optional => ValueIsLocal(f, slot.value, b, y);
    case Repeated(_) =>
      if wireType == WT_STRING && Scalar(f.kind) {
        ContentIsLocal(b, y);
      } else {
        DefaultShaped(f);
        ValueIsLocal(f, Default(f), b, y);
      }
  }

  lemma {:induction false} BehindVarintIsLocal(b: Bytes, y: Bytes)
    requires BehindVarint(b).Some?
    ensures var rest := BehindVarint(b).value;
            b == Before(b, rest) + rest && BehindVarint(Before(b, rest) + y) == Some(y)
    decreases |b|
  {
    var rest := BehindVarint(b).value;
    var c := Before(b, rest);
    if b[0] >= 128 {
      BehindVarintIsLocal(b[1..], y);
      assert c == [b[0]] + Before(b[1..], rest);
      assert (c + y)[1..] == Before(b[1..], rest) + y;
    } else {
      assert c == [b[0]] && (c + y)[1..] == y;
    }
  }

  lemma SkippedIsLocal(b: Bytes, wireType: nat, y: Bytes)
    requires Skipped(b, wireType).Some?
    ensures var rest := Skipped(b, wireType).value;
            b == Before(b, rest) + rest && Skipped(Before(b, rest) + y, wireType) == Some(y)
  {
    var rest := Skipped(b, wireType).value;
    if wireType == WT_VARINT {
      BehindVarintIsLocal(b, y);
    } else if wireType == WT_STRING {
      PrefixedIsLocal(b, y);
    } else {
      assert (Before(b, rest) + y)[|b| - |rest|..] == y;
    }
  }

  lemma RecordIsLocal(fields: seq<Field>, p: Partial, tag: nat, wireType: nat, b: Bytes, y: Bytes)
    requires AllDistinct(fields) && ShapedMessage(fields, p.dest) && RecordAt(fields, p, tag, wireType, b).Got?
    ensures var r := RecordAt(fields, p, tag, wireType, b);
            Local(b, r, y, RecordAt(fields, p, tag, wireType, Before(b, r.rest) + y))
  {
    hide SlotAt, Skipped;
    var i := FieldWithTag(fields, tag);
    if i < |fields| {
      SlotIsLocal(fields[i], wireType, p.dest[i], b, y);
    } else {
      SkippedIsLocal(b, wireType, y);
    }
  }

  lemma TagIsLocal(b: Bytes, y: Bytes)
    requires TagAt(b).TagRead?
    ensures var t := TagAt(b);
            && |t.rest| < |b| && b == Before(b, t.rest) + t.rest
            && TagAt(Before(b, t.rest) + y) == TagRead(t.tag, t.wireType, y)
  {
    Varint32IsLocal(b, y);
  }

  /** What is in front of the second rest, in two steps. */
  lemma BeforeBoth(b: Bytes, rest: Bytes, left: Bytes, y: Bytes)
    requires |left| <= |rest| <= |b| && b == Before(b, rest) + rest && rest == Before(rest, left) + left
    ensures b == Before(b, left) + left && Before(b, left) + y == Before(b, rest) + (Before(rest, left) + y)
  {
  }

  /** A record with its tag. */
  lemma WholeRecordIsLocal(fields: seq<Field>, p: Partial, b: Bytes, y: Bytes)
    requires AllDistinct(fields) && ShapedMessage(fields, p.dest) && TagAt(b).TagRead?
    requires RecordAt(fields, p, TagAt(b).tag, TagAt(b).wireType, TagAt(b).rest).Got?
    ensures var t := TagAt(b);
            var r := RecordAt(fields, p, t.tag, t.wireType, t.rest);
            && |r.rest| < |b| && b == Before(b, r.rest) + r.rest
            && RecordsAt(fields, p, Before(b, r.rest) + y) == RecordsAt(fields, r.value, y)
            && RecordsAt(fields, p, b) == RecordsAt(fields, r.value, r.rest)
  {
    hide RecordAt, TagAt, AllDistinct, ShapedMessage, RecordsAt;
    var t := TagAt(b);
    var r := RecordAt(fields, p, t.tag, t.wireType, t.rest);
    RecordIsLocal(fields, p, t.tag, t.wireType, t.rest, y);
    TagIsLocal(b, Before(t.rest, r.rest) + y);
    BeforeBoth(b, t.rest, r.rest, y);
    OneRecord(fields, p, b);
    OneRecord(fields, p, Before(b, r.rest) + y);
  }

  lemma OneRecord(fields: seq<Field>, p: Partial, b: Bytes)
    requires AllDistinct(fields) && ShapedMessage(fields, p.dest) && TagAt(b).TagRead?
    requires RecordAt(fields, p, TagAt(b).tag, TagAt(b).wireType, TagAt(b).rest).Got?
    ensures var t := TagAt(b);
            var r := RecordAt(fields, p, t.tag, t.wireType, t.rest);
            RecordsAt(fields, p, b) == RecordsAt(fields, r.value, r.rest)
  {
    hide RecordAt, TagAt;
  }

  // ---------- Records of no field ----------

  lemma {:induction false} BehindVarintOf(v: nat, after: Bytes)
    ensures BehindVarint(Coding.Varint(v) + after) == Some(after)
  {
    var b := Coding.Varint(v) + after;
    if v < 128 {
      assert b[1..] == after;
    } else {
      BehindVarintOf(v / 128, after);
      assert b[1..] == Coding.Varint(v / 128) + after;
    }
  }

  /** Skipping by the wire type of a kind skips a value of that kind. */
  lemma ValueIsSkipped(f: Field, v: Value, after: Bytes)
    requires ValueOk(f, v) && |ValueBytes(f, v)| < TWO32
    ensures Skipped(ValueBytes(f, v) + after, WireType(f.kind)) == Some(after)
  {
    match v
    case Number(n) =>
      if f.kind.Fixed32? || f.kind.Fixed64? {
        assert (ValueBytes(f, v) + after)[|ValueBytes(f, v)|..] == after;
      } else {
        BehindVarintOf(ToVarint(f.kind, n), after);
      }
    case Data(b) => ContentIsSkipped(if f.kind.StringOf? then CString(b) else b, after);
    case Message(slots) => ContentIsSkipped(MessageBytes(f.kind.fields, slots), after);
  }

  lemma ContentIsSkipped(content: Bytes, after: Bytes)
    requires |content| < TWO32
    ensures Skipped(Prefixed(content) + after, WT_STRING) == Some(after)
  {
    Associate(Coding.Varint(|content|), content, after);
    Varint32Reads(|content|, content + after);
    assert (content + after)[|content|..] == after;
  }

  /** The record of a value of any kind, or of a packed array, under a tag that the descriptor does not have. */
  ghost predicate IsUnknown(fields: seq<Field>, u: Bytes) {
    exists tag: nat, payload: Bytes, wireType: nat ::
      && 0 < tag < 0x2000_0000 && (forall n :: 0 <= n < |fields| ==> fields[n].tag != tag)
      && u == Tag(tag, wireType) + payload && IsPayload(payload, wireType)
  }

  ghost predicate IsPayload(payload: Bytes, wireType: nat) {
    && |payload| < TWO32
    && ((wireType == 2 && exists content: Bytes :: payload == Prefixed(content) && |content| < TWO32)
        || exists f, v :: ValueOk(f, v) && payload == ValueBytes(f, v) && wireType == WireType(f.kind))
  }

  lemma PayloadIsSkipped(payload: Bytes, wireType: nat, after: Bytes)
    requires IsPayload(payload, wireType)
    ensures Skipped(payload + after, wireType) == Some(after) && wireType < 8
  {
    if f, v :| ValueOk(f, v) && payload == ValueBytes(f, v) && wireType == WireType(f.kind) {
      ValueIsSkipped(f, v, after);
    } else {
      var content: Bytes :| payload == Prefixed(content) && |content| < TWO32;
      ContentIsSkipped(content, after);
    }
  }

  lemma UnknownIsSkipped(fields: seq<Field>, p: Partial, u: Bytes, after: Bytes)
    requires AllDistinct(fields) && ShapedMessage(fields, p.dest) && IsUnknown(fields, u)
    ensures RecordsAt(fields, p, u + after) == RecordsAt(fields, p, after)
  {
    var tag: nat, payload: Bytes, wireType: nat :|
      && 0 < tag < 0x2000_0000 && (forall n :: 0 <= n < |fields| ==> fields[n].tag != tag)
      && u == Tag(tag, wireType) + payload && IsPayload(payload, wireType);
    PayloadIsSkipped(payload, wireType, after);
    Associate(Tag(tag, wireType), payload, after);
    TagReads(tag, wireType, payload + after);
  }

  // ---------- Between any two records ----------

  /** Decoding the input comes to the position between two records, or behind the last one. */
  ghost predicate BetweenRecords(fields: seq<Field>, p: Partial, b: Bytes, k: nat)
    requires AllDistinct(fields) && ShapedMessage(fields, p.dest)
    decreases |b|
  {
    k == 0 ||
    match TagAt(b)
    case TagRead(tag, wireType, rest) =>
      (match RecordAt(fields, p, tag, wireType, rest)
       case Got(q, left) => |b| - |left| <= k <= |b| && BetweenRecords(fields, q, left, k - (|b| - |left|))
       case Failed => false)
    case _ => false
  }

  function Inserted(b: Bytes, k: nat, u: Bytes): Bytes
    requires k <= |b|
  {
    b[..k] + u + b[k..]
  }

  lemma {:induction false} UnknownChangesNothing(fields: seq<Field>, p: Partial, b: Bytes, k: nat, u: Bytes)
    requires AllDistinct(fields) && ShapedMessage(fields, p.dest) && IsUnknown(fields, u)
    requires k <= |b| && BetweenRecords(fields, p, b, k)
    ensures RecordsAt(fields, p, Inserted(b, k, u)) == RecordsAt(fields, p, b)
    decreases |b|
  {
    hide RecordAt, IsUnknown, TagAt, RecordsAt, AllDistinct, ShapedMessage;
    if k == 0 {
      UnknownIsSkipped(fields, p, u, b);
      assert Inserted(b, 0, u) == u + b;
    } else {
      var t := TagAt(b);
      var r := RecordAt(fields, p, t.tag, t.wireType, t.rest);
      var n := |b| - |r.rest|;
      var y := Inserted(r.rest, k - n, u);
      WholeRecordIsLocal(fields, p, b, y);
      UnknownChangesNothing(fields, r.value, r.rest, k - n, u);
      InsertedBehind(b, r.rest, k, u);
    }
  }

  lemma InsertedBehind(b: Bytes, rest: Bytes, k: nat, u: Bytes)
    requires |rest| <= |b| && b == Before(b, rest) + rest && |b| - |rest| <= k <= |b|
    ensures Inserted(b, k, u) == Before(b, rest) + Inserted(rest, k - (|b| - |rest|), u)
  {
    var n := |b| - |rest|;
    assert b[..k] == Before(b, rest) + rest[..k - n] && b[k..] == rest[k - n..];
  }

  /** A message with a record of an unknown field between two of its records, of whatever kind, is the message without
      it. */
  lemma UnknownFieldIsIgnored(fields: seq<Field>, dest: seq<Slot>, b: Bytes, k: nat, u: Bytes)
    requires AllDistinct(fields) && ShapedMessage(fields, dest) && IsUnknown(fields, u)
    requires k <= |b| && BetweenRecords(fields, Partial(dest, {}), b, k)
    ensures MessageAt(fields, dest, Inserted(b, k, u)) == MessageAt(fields, dest, b)
  {
    UnknownChangesNothing(fields, Partial(dest, {}), b, k, u);
  }
}
