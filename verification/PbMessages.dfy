/** Messages of nanopb, static and without callbacks, and the bytes they stand for: the Protocol Buffers
    wire format (sections "Base 128 Varints", "Signed Integers" and "Packed Repeated Fields" of its encoding
    guide). */
module PbMessages {
  import opened Coding
  import opened PbFields

  /** A number, the contents of a buffer, or a submessage with a slot for every field. */
  datatype Value = Number(n: int) | Data(bytes: Bytes) | Message(slots: seq<Slot>)

  /** What the structure holds for a required, an optional and a repeated field. */
  datatype Slot = Single(value: Value) | Maybe(has: bool, value: Value) | Many(values: seq<Value>)

  // ---------- Well-formed values ----------

  function SignedLimit(size: nat): (l: int)
    ensures 0 < l <= 0x8000_0000_0000_0000
  {
    if size == 1 then 0x80 else if size == 2 then 0x8000 else if size == 4 then 0x8000_0000 else 0x8000_0000_0000_0000
  }

  predicate IsSize(size: nat) {
    size == 1 || size == 2 || size == 4 || size == 8
  }

  predicate Scalar(k: Kind) {
    k.Varint? || k.UVarint? || k.SVarint? || k.Fixed32? || k.Fixed64?
  }

  predicate NumberOk(k: Kind, n: int) {
    match k
    case Varint(size) => IsSize(size) && -SignedLimit(size) <= n < SignedLimit(size)
    case SVarint(size) => IsSize(size) && -SignedLimit(size) <= n < SignedLimit(size)
    case UVarint(size) => IsSize(size) && 0 <= n < 2 * SignedLimit(size)
    case Fixed32 => 0 <= n < TWO32
    case Fixed64 => 0 <= n < TWO64
    case _ => false
  }

  /** The value has the C type of the field. A string is a buffer of the field's size. */
  predicate ValueOk(f: Field, v: Value)
    decreases f, 0
  {
    match v
    case Number(n) => NumberOk(f.kind, n)
    case Data(b) => f.kind.BytesOf? || (f.kind.StringOf? && |b| == f.kind.size)
    case Message(slots) => f.kind.Submessage? && MessageOk(f.kind.fields, slots)
  }

  predicate SlotOk(f: Field, s: Slot)
    decreases f, 1
  {
    match s
    case Single(v) => f.rule.Required? && ValueOk(f, v)
    case Maybe(_, v) => f.rule.Optional? && ValueOk(f, v)
    case Many(vs) => f.rule.Repeated? && forall i :: 0 <= i < |vs| ==> ValueOk(f, vs[i])
  }

  predicate MessageOk(fields: seq<Field>, slots: seq<Slot>)
    decreases fields
  {
    Descriptor(fields) && |slots| == |fields| && forall i :: 0 <= i < |fields| ==> SlotOk(fields[i], slots[i])
  }

  // ---------- What can be encoded ----------

  /** The encoder refuses arrays and byte strings that claim to be longer than their buffers. */
  predicate Encodable(f: Field, v: Value)
    decreases f, 0
  {
    match v
    case Number(_) => true
    case Data(b) => f.kind.BytesOf? ==> |b| <= f.kind.size
    case Message(slots) => f.kind.Submessage? && EncodableMessage(f.kind.fields, slots)
  }

  predicate EncodableSlot(f: Field, s: Slot)
    decreases f, 1
  {
    match s
    case Single(v) => Encodable(f, v)
    case Maybe(has, v) => has ==> Encodable(f, v)
    case Many(vs) => f.rule.Repeated? && |vs| <= f.rule.arraySize && forall i :: 0 <= i < |vs| ==> Encodable(f, vs[i])
  }

  predicate EncodableMessage(fields: seq<Field>, slots: seq<Slot>)
    decreases fields
  {
    |slots| == |fields| && forall i :: 0 <= i < |fields| ==> EncodableSlot(fields[i], slots[i])
  }

  // ---------- The wire format ----------

  const WT_VARINT: nat := 0
  const WT_64BIT: nat := 1
  const WT_STRING: nat := 2
  const WT_32BIT: nat := 5

  function WireType(k: Kind): nat {
    match k
    case Varint(_) => WT_VARINT
    case UVarint(_) => WT_VARINT
    case SVarint(_) => WT_VARINT
    case Fixed32 => WT_32BIT
    case Fixed64 => WT_64BIT
    case _ => WT_STRING
  }

  function Tag(tag: nat, wireType: nat): Bytes {
    Coding.Varint(tag * 8 + wireType)
  }

  /** Negative numbers take all 64 bits. */
  function Unsigned(n: int): nat
    requires -0x8000_0000_0000_0000 <= n < TWO64
  {
    if n < 0 then n + TWO64 else n
  }

  function ZigZag(n: int): nat {
    if n < 0 then -2 * n - 1 else 2 * n
  }

  function Prefixed(b: Bytes): Bytes {
    Coding.Varint(|b|) + b
  }

  /** The characters before the first NUL. */
  function CString(b: Bytes): (r: Bytes)
    ensures r <= b && 0 !in r && (|r| < |b| ==> b[|r|] == 0)
  {
    if b == [] || b[0] == 0 then [] else [b[0]] + CString(b[1..])
  }

  function NumberBytes(k: Kind, n: int): Bytes
    requires NumberOk(k, n)
  {
    match k
    case Varint(_) => Coding.Varint(Unsigned(n))
    case UVarint(_) => Coding.Varint(n)
    case SVarint(_) => Coding.Varint(ZigZag(n))
    case Fixed32 => Fixed(n, 4)
    case Fixed64 => Fixed(n, 8)
  }

  function ValueBytes(f: Field, v: Value): Bytes
    requires ValueOk(f, v)
    decreases f, 0
  {
    match v
    case Number(n) => NumberBytes(f.kind, n)
    case Data(b) => Prefixed(if f.kind.StringOf? then CString(b) else b)
    case Message(slots) => Prefixed(MessageBytes(f.kind.fields, slots))
  }

  /** The values of a packed array, one after another. */
  function PackedBytes(f: Field, vs: seq<Value>): Bytes
    requires forall i :: 0 <= i < |vs| ==> ValueOk(f, vs[i])
    decreases f, 1, |vs|
  {
    if vs == [] then [] else PackedBytes(f, vs[..|vs| - 1]) + ValueBytes(f, vs[|vs| - 1])
  }

  /** The values of an array that cannot be packed, each with its tag. */
  function TaggedBytes(f: Field, vs: seq<Value>): Bytes
    requires forall i :: 0 <= i < |vs| ==> ValueOk(f, vs[i])
    decreases f, 1, |vs|
  {
    if vs == [] then []
    else TaggedBytes(f, vs[..|vs| - 1]) + (Tag(f.tag, WireType(f.kind)) + ValueBytes(f, vs[|vs| - 1]))
  }

  function ArrayBytes(f: Field, vs: seq<Value>): Bytes
    requires forall i :: 0 <= i < |vs| ==> ValueOk(f, vs[i])
    decreases f, 2
  {
    if vs == [] then []
    else if Scalar(f.kind) then Tag(f.tag, WT_STRING) + Prefixed(PackedBytes(f, vs))
    else TaggedBytes(f, vs)
  }

  function SlotBytes(f: Field, s: Slot): Bytes
    requires SlotOk(f, s)
    decreases f, 3
  {
    match s
    case Single(v) => Tag(f.tag, WireType(f.kind)) + ValueBytes(f, v)
    case Maybe(has, v) => if has then Tag(f.tag, WireType(f.kind)) + ValueBytes(f, v) else []
    case Many(vs) => ArrayBytes(f, vs)
  }

  function MessageBytes(fields: seq<Field>, slots: seq<Slot>): Bytes
    requires MessageOk(fields, slots)
    decreases fields
  {
    if fields == [] then []
    else
      var n := |fields| - 1;
      MessageBytes(fields[..n], slots[..n]) + SlotBytes(fields[n], slots[n])
  }

  // ---------- Prefixes ----------

  lemma PrefixOk(fields: seq<Field>, slots: seq<Slot>, i: nat)
    requires MessageOk(fields, slots) && i <= |fields|
    ensures MessageOk(fields[..i], slots[..i])
  {
  }

  lemma OneMoreField(fields: seq<Field>, slots: seq<Slot>, i: nat)
    requires MessageOk(fields, slots) && i < |fields|
    ensures MessageOk(fields[..i], slots[..i]) && MessageOk(fields[..i + 1], slots[..i + 1])
    ensures MessageBytes(fields[..i + 1], slots[..i + 1])
            == MessageBytes(fields[..i], slots[..i]) + SlotBytes(fields[i], slots[i])
  {
    PrefixOk(fields, slots, i);
    PrefixOk(fields, slots, i + 1);
    assert fields[..i + 1][..i] == fields[..i] && slots[..i + 1][..i] == slots[..i];
  }

  lemma {:induction false} PrefixShorter(fields: seq<Field>, slots: seq<Slot>, i: nat)
    requires MessageOk(fields, slots) && i <= |fields|
    ensures MessageOk(fields[..i], slots[..i])
    ensures |MessageBytes(fields[..i], slots[..i])| <= |MessageBytes(fields, slots)|
    decreases |fields|
  {
    PrefixOk(fields, slots, i);
    var n := |fields| - 1;
    if i == |fields| {
      assert fields[..i] == fields && slots[..i] == slots;
    } else {
      PrefixOk(fields, slots, n);
      PrefixShorter(fields[..n], slots[..n], i);
      assert fields[..n][..i] == fields[..i] && slots[..n][..i] == slots[..i];
    }
  }
}
