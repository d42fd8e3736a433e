/** An encoded message as a sequence of records, each a tag and a payload, and what each adds to the structure
    that is being decoded. */
module PbRecords {
  import opened Coding
  import opened PbFields
  import opened PbMessages
  import opened PbDecode

  /** How many records a slot is encoded as. */
  function RecordCount(f: Field, slot: Slot): nat {
    match slot
    case Single(_) => 1
    case Maybe(has, _) => if has then 1 else 0
    case Many(vs) => if vs == [] then 0 else if Scalar(f.kind) then 1 else |vs|
  }

  predicate Packed(f: Field, slot: Slot) {
    slot.Many? && Scalar(f.kind)
  }

  function RecordWire(f: Field, slot: Slot): nat {
    if Packed(f, slot) then WT_STRING else WireType(f.kind)
  }

  /** The value of record k, unless it is a packed array. */
  function RecordValue(f: Field, slot: Slot, k: nat): Value
    requires !Packed(f, slot) && k < RecordCount(f, slot)
  {
    match slot
    case Single(v) => v
    case Maybe(_, v) => v
    case Many(vs) => vs[k]
  }

  function Payload(f: Field, slot: Slot, k: nat): Bytes
    requires SlotOk(f, slot) && k < RecordCount(f, slot)
  {
    if Packed(f, slot) then Prefixed(PackedBytes(f, slot.values)) else ValueBytes(f, RecordValue(f, slot, k))
  }

  function RecordBytes(f: Field, slot: Slot, k: nat): (r: Bytes)
    requires SlotOk(f, slot) && k < RecordCount(f, slot)
  {
    Tag(f.tag, RecordWire(f, slot)) + Payload(f, slot, k)
  }

  /** The slot as it stands after its first k records. */
  function Part(f: Field, slot: Slot, k: nat): Slot
    requires k <= RecordCount(f, slot)
  {
    if k == 0 then DefaultSlot(f)
    else if slot.Many? && !Scalar(f.kind) then Many(RestoredAll(f, slot.values[..k]))
    else RestoredSlot(f, slot)
  }

  predicate RecordDecodable(f: Field, slot: Slot, k: nat)
    requires k < RecordCount(f, slot)
  {
    Packed(f, slot) || Decodable(f, RecordValue(f, slot, k))
  }

  /** The bytes of the records from k on. */
  function SlotFrom(f: Field, slot: Slot, k: nat): Bytes
    requires SlotOk(f, slot) && k <= RecordCount(f, slot)
    decreases RecordCount(f, slot) - k
  {
    if k == RecordCount(f, slot) then [] else RecordBytes(f, slot, k) + SlotFrom(f, slot, k + 1)
  }

  lemma {:induction false} TaggedFrom(f: Field, vs: seq<Value>, k: nat)
    requires SlotOk(f, Many(vs)) && !Scalar(f.kind) && vs != [] && k <= |vs|
    ensures forall i :: 0 <= i < k ==> ValueOk(f, vs[..k][i])
    ensures TaggedBytes(f, vs) == TaggedBytes(f, vs[..k]) + SlotFrom(f, Many(vs), k)
    decreases |vs| - k
  {
    if k == |vs| {
      assert vs[..k] == vs;
    } else {
      TaggedFrom(f, vs, k + 1);
      assert vs[..k + 1][..k] == vs[..k];
      var a, r, t := TaggedBytes(f, vs[..k]), RecordBytes(f, Many(vs), k), SlotFrom(f, Many(vs), k + 1);
      assert TaggedBytes(f, vs[..k + 1]) == a + r;
      Associate(a, r, t);
    }
  }

  /** The records of a slot are its encoding. */
  lemma SlotIsRecords(f: Field, slot: Slot)
    requires SlotOk(f, slot)
    ensures SlotFrom(f, slot, 0) == SlotBytes(f, slot)
  {
    match slot
    case Single(v) =>
      assert SlotFrom(f, slot, 1) == [];
    case Maybe(has, v) =>
      assert has ==> SlotFrom(f, slot, 1) == [];
    case Many(vs) =>
      if vs != [] && Scalar(f.kind) {
        assert SlotFrom(f, slot, 1) == [];
      } else if vs != [] {
        TaggedFrom(f, vs, 0);
        assert vs[..0] == [];
      }
  }

  lemma SlotDecodable(f: Field, slot: Slot)
    requires SlotOk(f, slot)
    ensures DecodableSlot(f, slot) <==> forall k :: 0 <= k < RecordCount(f, slot) ==> RecordDecodable(f, slot, k)
  {
    match slot
    case Single(v) =>
      assert RecordDecodable(f, slot, 0) == Decodable(f, v);
    case Maybe(has, v) =>
      assert has ==> RecordDecodable(f, slot, 0) == Decodable(f, v);
    case Many(vs) =>
      forall i | 0 <= i < |vs| && Scalar(f.kind) ensures Decodable(f, vs[i]) {
        assert ValueOk(f, vs[i]);
      }
      if !Scalar(f.kind) {
        assert forall i :: 0 <= i < |vs| ==> RecordDecodable(f, slot, i) == Decodable(f, vs[i]);
      }
  }

  lemma WholeSlot(f: Field, slot: Slot)
    requires SlotOk(f, slot)
    ensures Part(f, slot, RecordCount(f, slot)) == RestoredSlot(f, slot)
  {
    if slot.Many? {
      assert slot.values[..|slot.values|] == slot.values;
    }
  }

  // ---------- Messages ----------

  /** The bytes of the fields from i on. */
  function FieldsFrom(fields: seq<Field>, slots: seq<Slot>, i: nat): Bytes
    requires MessageOk(fields, slots) && i <= |fields|
    decreases |fields| - i
  {
    if i == |fields| then [] else SlotBytes(fields[i], slots[i]) + FieldsFrom(fields, slots, i + 1)
  }

  lemma {:induction false} MessageFrom(fields: seq<Field>, slots: seq<Slot>, i: nat)
    requires MessageOk(fields, slots) && i <= |fields|
    ensures MessageOk(fields[..i], slots[..i])
    ensures MessageBytes(fields, slots) == MessageBytes(fields[..i], slots[..i]) + FieldsFrom(fields, slots, i)
    decreases |fields| - i
  {
    PrefixOk(fields, slots, i);
    if i == |fields| {
      assert fields[..i] == fields && slots[..i] == slots;
    } else {
      MessageFrom(fields, slots, i + 1);
      OneMoreField(fields, slots, i);
      Associate(MessageBytes(fields[..i], slots[..i]), SlotBytes(fields[i], slots[i]),
                FieldsFrom(fields, slots, i + 1));
    }
  }

  lemma MessageIsFields(fields: seq<Field>, slots: seq<Slot>)
    requires MessageOk(fields, slots)
    ensures FieldsFrom(fields, slots, 0) == MessageBytes(fields, slots)
  {
    MessageFrom(fields, slots, 0);
    assert fields[..0] == [] && slots[..0] == [];
  }

  /** A place in the encoding: before record k of field i. */
  function From(fields: seq<Field>, slots: seq<Slot>, i: nat, k: nat): Bytes
    requires MessageOk(fields, slots) && i <= |fields|
    requires if i < |fields| then k <= RecordCount(fields[i], slots[i]) else k == 0
  {
    if i == |fields| then [] else SlotFrom(fields[i], slots[i], k) + FieldsFrom(fields, slots, i + 1)
  }

  /** The structure when the decoder has come to this place. */
  function DestAt(fields: seq<Field>, slots: seq<Slot>, i: nat, k: nat): (r: seq<Slot>)
    requires |slots| == |fields| && i <= |fields|
    requires if i < |fields| then k <= RecordCount(fields[i], slots[i]) else k == 0
    ensures |r| == |fields|
  {
    seq(|fields|, n requires 0 <= n < |fields| =>
      if n < i then RestoredSlot(fields[n], slots[n])
      else if n == i then Part(fields[n], slots[n], k)
      else DefaultSlot(fields[n]))
  }

  ghost predicate IsPlace(fields: seq<Field>, slots: seq<Slot>, i: nat, k: nat) {
    && MessageOk(fields, slots) && i <= |fields|
    && if i < |fields| then k < RecordCount(fields[i], slots[i]) else k == 0
  }

  /** The next place with a record from the end of field i's records on. */
  lemma {:induction false} NextPlace(fields: seq<Field>, slots: seq<Slot>, i: nat) returns (i': nat)
    requires MessageOk(fields, slots) && i <= |fields|
    ensures i <= i' && IsPlace(fields, slots, i', 0)
    ensures From(fields, slots, i', 0) == FieldsFrom(fields, slots, i)
    ensures DestAt(fields, slots, i', 0) == DestAt(fields, slots, i, 0)
    ensures forall n :: i <= n < i' ==> RecordCount(fields[n], slots[n]) == 0
    decreases |fields| - i
  {
    i' := i;
    if i < |fields| {
      SlotIsRecords(fields[i], slots[i]);
      if RecordCount(fields[i], slots[i]) == 0 {
        i' := NextPlace(fields, slots, i + 1);
        WholeSlot(fields[i], slots[i]);
        assert SlotFrom(fields[i], slots[i], 0) == [];
        assert DestAt(fields, slots, i, 0) == DestAt(fields, slots, i + 1, 0);
      }
    }
  }

  /** After record k of field i comes the next one of the field, or the next field that has one. */
  lemma PlaceAfter(fields: seq<Field>, slots: seq<Slot>, i: nat, k: nat) returns (i': nat, k': nat)
    requires IsPlace(fields, slots, i, k) && i < |fields|
    ensures IsPlace(fields, slots, i', k') && ((i' == i && k' == k + 1) || (i < i' && k' == 0))
    ensures From(fields, slots, i, k) == RecordBytes(fields[i], slots[i], k) + From(fields, slots, i', k')
    ensures DestAt(fields, slots, i', k') == DestAt(fields, slots, i, k)[i := Part(fields[i], slots[i], k + 1)]
    ensures forall n :: i < n < i' ==> RecordCount(fields[n], slots[n]) == 0
    ensures i < i' ==> k + 1 == RecordCount(fields[i], slots[i])
  {
    if k + 1 < RecordCount(fields[i], slots[i]) {
      i', k' := i, k + 1;
      NextInSlot(fields, slots, i, k);
    } else {
      i' := NextField(fields, slots, i, k);
      k' := 0;
    }
  }

  lemma NextInSlot(fields: seq<Field>, slots: seq<Slot>, i: nat, k: nat)
    requires IsPlace(fields, slots, i, k) && i < |fields| && k + 1 < RecordCount(fields[i], slots[i])
    ensures From(fields, slots, i, k) == RecordBytes(fields[i], slots[i], k) + From(fields, slots, i, k + 1)
    ensures DestAt(fields, slots, i, k + 1) == DestAt(fields, slots, i, k)[i := Part(fields[i], slots[i], k + 1)]
  {
    var f, slot := fields[i], slots[i];
    Associate(RecordBytes(f, slot, k), SlotFrom(f, slot, k + 1), FieldsFrom(fields, slots, i + 1));
    PartReplaced(fields, slots, i, k);
  }

  lemma NextField(fields: seq<Field>, slots: seq<Slot>, i: nat, k: nat) returns (i': nat)
    requires IsPlace(fields, slots, i, k) && i < |fields| && k + 1 == RecordCount(fields[i], slots[i])
    ensures IsPlace(fields, slots, i', 0) && i < i'
    ensures From(fields, slots, i, k) == RecordBytes(fields[i], slots[i], k) + From(fields, slots, i', 0)
    ensures DestAt(fields, slots, i', 0) == DestAt(fields, slots, i, k)[i := Part(fields[i], slots[i], k + 1)]
    ensures forall n :: i < n < i' ==> RecordCount(fields[n], slots[n]) == 0
  {
    LastOfSlot(fields[i], slots[i], k, FieldsFrom(fields, slots, i + 1));
    LastPartReplaced(fields, slots, i, k);
    i' := NextPlace(fields, slots, i + 1);
  }

  lemma LastOfSlot(f: Field, slot: Slot, k: nat, tail: Bytes)
    requires SlotOk(f, slot) && k + 1 == RecordCount(f, slot)
    ensures SlotFrom(f, slot, k) + tail == RecordBytes(f, slot, k) + tail
  {
    assert SlotFrom(f, slot, k + 1) == [];
  }

  lemma PartReplaced(fields: seq<Field>, slots: seq<Slot>, i: nat, k: nat)
    requires IsPlace(fields, slots, i, k) && i < |fields| && k + 1 < RecordCount(fields[i], slots[i])
    ensures DestAt(fields, slots, i, k + 1) == DestAt(fields, slots, i, k)[i := Part(fields[i], slots[i], k + 1)]
  {
  }

  lemma LastPartReplaced(fields: seq<Field>, slots: seq<Slot>, i: nat, k: nat)
    requires IsPlace(fields, slots, i, k) && i < |fields| && k + 1 == RecordCount(fields[i], slots[i])
    ensures DestAt(fields, slots, i + 1, 0) == DestAt(fields, slots, i, k)[i := Part(fields[i], slots[i], k + 1)]
  {
    WholeSlot(fields[i], slots[i]);
  }
}
