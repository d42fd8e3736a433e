/** The nanopb encoder (pb_encode.c): one pass that only counts and one that writes. */
module PbEncode {
  import opened Coding
  import opened PbFields
  import opened PbMessages

  class OStream {
    /** PB_OSTREAM_SIZING: no callback, so that writing only counts. */
    const sizing: bool
    const maxSize: nat
    var bytesWritten: nat
    var data: Bytes

    constructor (sizing: bool, maxSize: nat, data: Bytes)
      ensures Valid() && this.sizing == sizing && this.maxSize == maxSize && this.data == data && bytesWritten == 0
    {
      this.sizing, this.maxSize, this.data, bytesWritten := sizing, maxSize, data, 0;
    }

    predicate Valid()
      reads this
    {
      sizing || bytesWritten <= maxSize
    }

    /** What n more bytes need: nothing when only counting. */
    predicate Fits(n: nat)
      reads this
    {
      sizing || bytesWritten + n <= maxSize
    }

    /** pb_write. */
    method Write(b: Bytes) returns (ok: bool)
      requires Valid()
      modifies this
      ensures Valid() && (ok <==> old(Fits(|b|)))
      ensures ok ==> bytesWritten == old(bytesWritten) + |b| && data == old(data) + if sizing then [] else b
    {
      if !sizing {
        if bytesWritten + |b| > maxSize {
          return false;
        }
        data := data + b;
      }
      bytesWritten := bytesWritten + |b|;
      return true;
    }

    /** pb_write with no data, which a counting stream allows. */
    method Count(n: nat)
      requires sizing
      modifies this
      ensures Valid() && bytesWritten == old(bytesWritten) + n && data == old(data)
    {
      bytesWritten := bytesWritten + n;
    }
  }

  /** The stream has taken in exactly these bytes. */
  ghost predicate Took(s: OStream, written: nat, data: Bytes, b: Bytes)
    reads s
  {
    s.bytesWritten == written + |b| && s.data == data + if s.sizing then [] else b
  }

  /** The promise of every encoding function: it succeeds exactly if what it is given can be encoded and fits, and
      then exactly these bytes have been counted or written. */
  ghost predicate Encoded(s: OStream, ok: bool, fits: bool, written: nat, data: Bytes, b: Bytes)
    reads s
  {
    s.Valid() && (ok <==> fits) && (ok ==> Took(s, written, data, b))
  }

  /** pb_encode_varint. */
  method EncodeVarint(s: OStream, value: nat) returns (ok: bool)
    requires s.Valid()
    modifies s
    ensures Encoded(s, ok, old(s.Fits(|Coding.Varint(value)|)), old(s.bytesWritten), old(s.data), Coding.Varint(value))
  {
    if value <= 0x7f {
      ok := s.Write([value]);
      return;
    }
    var buffer := VarintBuffer(value);
    ok := s.Write(buffer);
  }

  /** The buffer holds the groups of seven bits before v, all with the top bit set. */
  ghost predicate Holds(buffer: Bytes, v: nat, value: nat) {
    if v > 0 then buffer + Coding.Varint(v) == Coding.Varint(value)
    else buffer != [] && buffer[|buffer| - 1] >= 0x80 && LastUnmarked(buffer) == Coding.Varint(value)
  }

  function LastUnmarked(buffer: Bytes): Bytes
    requires buffer != [] && buffer[|buffer| - 1] >= 0x80
  {
    buffer[..|buffer| - 1] + [buffer[|buffer| - 1] as int - 0x80]
  }

  lemma NextGroup(buffer: Bytes, v: nat, value: nat)
    requires v > 0 && Holds(buffer, v, value)
    ensures Holds(buffer + [v % 0x80 + 0x80], v / 0x80, value)
  {
    var more := buffer + [v % 0x80 + 0x80];
    if v < 0x80 {
      assert Coding.Varint(v) == [v] && v % 0x80 == v;
      assert more[..|more| - 1] == buffer;
    } else {
      assert Coding.Varint(v) == [v % 0x80 + 0x80] + Coding.Varint(v / 0x80);
      Associate(buffer, [v % 0x80 + 0x80], Coding.Varint(v / 0x80));
    }
  }

  method VarintBuffer(value: nat) returns (buffer: Bytes)
    requires value > 0
    ensures buffer == Coding.Varint(value)
  {
    var v := value;
    buffer := [];
    assert buffer + Coding.Varint(v) == Coding.Varint(v);
    while v > 0
      invariant v >= 0 && Holds(buffer, v, value)
    {
      NextGroup(buffer, v, value);
      buffer := buffer + [v % 0x80 + 0x80];
      v := v / 0x80;
    }
    buffer := LastUnmarked(buffer);
  }

  method EncodeTag(s: OStream, wireType: nat, tag: nat) returns (ok: bool)
    requires s.Valid()
    modifies s
    ensures Encoded(s, ok, old(s.Fits(|Tag(tag, wireType)|)), old(s.bytesWritten), old(s.data), Tag(tag, wireType))
  {
    ok := EncodeVarint(s, tag * 8 + wireType);
  }

  /** pb_encode_string. */
  method EncodeString(s: OStream, b: Bytes) returns (ok: bool)
    requires s.Valid()
    modifies s
    ensures Encoded(s, ok, old(s.Fits(|Prefixed(b)|)), old(s.bytesWritten), old(s.data), Prefixed(b))
  {
    ok := EncodeVarint(s, |b|);
    if ok {
      ok := s.Write(b);
    }
  }

  method EncodeNumber(s: OStream, k: Kind, n: int) returns (ok: bool)
    requires NumberOk(k, n)
    requires s.Valid()
    modifies s
    ensures Encoded(s, ok, old(s.Fits(|NumberBytes(k, n)|)), old(s.bytesWritten), old(s.data), NumberBytes(k, n))
  {
    match k
    case Varint(_) => ok := EncodeVarint(s, Unsigned(n));
    case UVarint(_) => ok := EncodeVarint(s, n);
    case SVarint(_) => ok := EncodeVarint(s, ZigZag(n));
    case Fixed32 => ok := s.Write(Fixed(n, 4));
    case Fixed64 => ok := s.Write(Fixed(n, 8));
  }

  /** pb_enc_string looks for the end of the string, but not behind the buffer. */
  method FindEnd(b: Bytes) returns (size: nat)
    ensures size <= |b| && b[..size] == CString(b)
  {
    size := 0;
    assert b[..0] + CString(b[0..]) == CString(b) by {
      assert b[0..] == b;
    }
    while size < |b| && b[size] != 0
      invariant size <= |b| && CString(b) == b[..size] + CString(b[size..])
    {
      OneMoreCharacter(b, size);
      size := size + 1;
    }
    assert CString(b[size..]) == [];
  }

  lemma OneMoreCharacter(b: Bytes, i: nat)
    requires i < |b| && b[i] != 0
    ensures b[..i] + CString(b[i..]) == b[..i + 1] + CString(b[i + 1..])
  {
    assert b[i..][1..] == b[i + 1..];
    assert b[..i + 1] == b[..i] + [b[i]];
    Associate(b[..i], [b[i]], CString(b[i + 1..]));
  }

  /** One value, as PB_ENCODERS has it for the field's type. */
  method EncodeValue(s: OStream, f: Field, v: Value) returns (ok: bool)
    requires ValueOk(f, v)
    requires s.Valid()
    modifies s
    ensures Encoded(s, ok, Encodable(f, v) && old(s.Fits(|ValueBytes(f, v)|)), old(s.bytesWritten), old(s.data),
                    ValueBytes(f, v))
    decreases f, 0
  {
    match v
    case Number(n) =>
      ok := EncodeNumber(s, f.kind, n);
    case Data(b) =>
      if f.kind.StringOf? {
        var size := FindEnd(b);
        ok := EncodeString(s, b[..size]);
      } else if |b| > f.kind.size {
        ok := false;
      } else {
        ok := EncodeString(s, b);
      }
    case Message(slots) =>
      ok := EncodeSubmessage(s, f.kind.fields, slots);
  }

  /** pb_encode_submessage: counts first, then writes the length and the message. That the second pass writes as
      much as the first one counted is what its check ("submsg size changed") relies on. */
  method EncodeSubmessage(s: OStream, fields: seq<Field>, slots: seq<Slot>) returns (ok: bool)
    requires MessageOk(fields, slots)
    requires s.Valid()
    modifies s
    ensures var b := Prefixed(MessageBytes(fields, slots));
            Encoded(s, ok, EncodableMessage(fields, slots) && old(s.Fits(|b|)), old(s.bytesWritten), old(s.data), b)
    decreases fields, 1
  {
    ghost var m := MessageBytes(fields, slots);
    var substream := new OStream(true, 0, []);
    ok := Encode(substream, fields, slots);
    if !ok {
      return;
    }
    var size := substream.bytesWritten;
    ok := EncodeVarint(s, size);
    if !ok {
      return;
    }
    if s.sizing {
      s.Count(size);
      return;
    }
    if s.bytesWritten + size > s.maxSize {
      return false;
    }
    substream := new OStream(false, size, s.data);
    ok := Encode(substream, fields, slots);
    s.bytesWritten := s.bytesWritten + substream.bytesWritten;
    s.data := substream.data;
    assert substream.bytesWritten == size;
  }

  /** What pb_encode has done when it comes to field i. */
  ghost predicate Through(s: OStream, fields: seq<Field>, slots: seq<Slot>, i: nat, written: nat, data: Bytes)
    requires MessageOk(fields, slots) && i <= |fields|
    reads s
  {
    && (forall j :: 0 <= j < i ==> EncodableSlot(fields[j], slots[j]))
    && MessageOk(fields[..i], slots[..i])
    && Took(s, written, data, MessageBytes(fields[..i], slots[..i]))
  }

  /** pb_encode. */
  method Encode(s: OStream, fields: seq<Field>, slots: seq<Slot>) returns (ok: bool)
    requires MessageOk(fields, slots)
    requires s.Valid()
    modifies s
    ensures var b := MessageBytes(fields, slots);
            Encoded(s, ok, EncodableMessage(fields, slots) && old(s.Fits(|b|)), old(s.bytesWritten), old(s.data), b)
    decreases fields, 0
  {
    var iter := new FieldIter(fields);
    var more := iter.Begin();
    if !more {
      return true;
    }
    while true
      invariant s.Valid() && fresh(iter) && iter.Valid() && iter.fields == fields && iter.pos < |fields|
      invariant Through(s, fields, slots, iter.pos, old(s.bytesWritten), old(s.data))
      decreases |fields| - iter.pos
    {
      ok := EncodeNext(s, fields, slots, iter.pos, old(s.bytesWritten), old(s.data));
      if !ok {
        return;
      }
      more := iter.Next();
      if !more {
        assert fields[..|fields|] == fields && slots[..|fields|] == slots;
        return;
      }
    }
  }

  /** One turn of the loop: field i. */
  method EncodeNext(s: OStream, fields: seq<Field>, slots: seq<Slot>, i: nat, ghost written: nat, ghost data: Bytes)
    returns (ok: bool)
    requires MessageOk(fields, slots) && i < |fields|
    requires s.Valid() && Through(s, fields, slots, i, written, data)
    modifies s
    ensures s.Valid()
    ensures if ok then Through(s, fields, slots, i + 1, written, data)
            else !EncodableMessage(fields, slots)
                 || !(s.sizing || written + |MessageBytes(fields, slots)| <= s.maxSize)
    decreases fields[i], 5
  {
    OneMoreField(fields, slots, i);
    PrefixShorter(fields, slots, i + 1);
    ok := EncodeField(s, fields[i], slots[i]);
  }

  /** encode_field, for fields with static data. */
  method EncodeField(s: OStream, f: Field, slot: Slot) returns (ok: bool)
    requires SlotOk(f, slot)
    requires s.Valid()
    modifies s
    ensures var b := SlotBytes(f, slot);
            Encoded(s, ok, EncodableSlot(f, slot) && old(s.Fits(|b|)), old(s.bytesWritten), old(s.data), b)
    decreases f, 4
  {
    match slot
    case Single(v) =>
      ok := EncodeTagged(s, f, v);
    case Maybe(has, v) =>
      ok := true;
      if has {
        ok := EncodeTagged(s, f, v);
      }
    case Many(vs) =>
      ok := EncodeArray(s, f, vs);
  }

  method EncodeTagged(s: OStream, f: Field, v: Value) returns (ok: bool)
    requires ValueOk(f, v)
    requires s.Valid()
    modifies s
    ensures var b := Tag(f.tag, WireType(f.kind)) + ValueBytes(f, v);
            Encoded(s, ok, Encodable(f, v) && old(s.Fits(|b|)), old(s.bytesWritten), old(s.data), b)
    decreases f, 1
  {
    ok := EncodeTag(s, WireType(f.kind), f.tag);
    if ok {
      ok := EncodeValue(s, f, v);
    }
  }

  /** encode_array. */
  method EncodeArray(s: OStream, f: Field, vs: seq<Value>) returns (ok: bool)
    requires f.rule.Repeated? && forall i :: 0 <= i < |vs| ==> ValueOk(f, vs[i])
    requires s.Valid()
    modifies s
    ensures var b := ArrayBytes(f, vs);
            Encoded(s, ok, EncodableSlot(f, Many(vs)) && old(s.Fits(|b|)), old(s.bytesWritten), old(s.data), b)
    decreases f, 3
  {
    if |vs| == 0 {
      return true;
    }
    if |vs| > f.rule.arraySize {
      return false;
    }
    if Scalar(f.kind) {
      ok := EncodePacked(s, f, vs);
    } else {
      ok := EncodeUnpacked(s, f, vs);
    }
  }

  lemma ScalarsEncodable(f: Field, vs: seq<Value>)
    requires Scalar(f.kind) && forall i :: 0 <= i < |vs| ==> ValueOk(f, vs[i])
    ensures forall i :: 0 <= i < |vs| ==> Encodable(f, vs[i])
  {
    forall i | 0 <= i < |vs| ensures Encodable(f, vs[i]) {
      assert ValueOk(f, vs[i]);
    }
  }

  lemma {:induction false} FixedSizes(f: Field, vs: seq<Value>)
    requires forall i :: 0 <= i < |vs| ==> ValueOk(f, vs[i])
    ensures f.kind.Fixed32? ==> |PackedBytes(f, vs)| == 4 * |vs|
    ensures f.kind.Fixed64? ==> |PackedBytes(f, vs)| == 8 * |vs|
  {
    if vs != [] {
      var n := |vs| - 1;
      FixedSizes(f, vs[..n]);
      assert ValueOk(f, vs[n]);
    }
  }

  /** A packed array: its length in bytes, then its values. */
  method EncodePacked(s: OStream, f: Field, vs: seq<Value>) returns (ok: bool)
    requires Scalar(f.kind) && vs != [] && forall i :: 0 <= i < |vs| ==> ValueOk(f, vs[i])
    requires s.Valid()
    modifies s
    ensures var b := ArrayBytes(f, vs);
            Encoded(s, ok, old(s.Fits(|b|)), old(s.bytesWritten), old(s.data), b)
    ensures forall i :: 0 <= i < |vs| ==> Encodable(f, vs[i])
    decreases f, 1
  {
    ScalarsEncodable(f, vs);
    ok := EncodeTag(s, WT_STRING, f.tag);
    if !ok {
      return;
    }
    var size := PackedSize(f, vs);
    ok := EncodeVarint(s, size);
    if !ok {
      return;
    }
    if s.sizing {
      s.Count(size);
    } else {
      ok := EncodeAllValues(s, f, vs);
    }
  }

  method PackedSize(f: Field, vs: seq<Value>) returns (size: nat)
    requires Scalar(f.kind) && forall i :: 0 <= i < |vs| ==> ValueOk(f, vs[i])
    ensures size == |PackedBytes(f, vs)|
    decreases f, 0, 2
  {
    FixedSizes(f, vs);
    if f.kind.Fixed32? {
      size := 4 * |vs|;
    } else if f.kind.Fixed64? {
      size := 8 * |vs|;
    } else {
      var sizestream := new OStream(true, 0, []);
      var ok := EncodeAllValues(sizestream, f, vs);
      size := sizestream.bytesWritten;
    }
  }

  lemma OneMorePacked(f: Field, vs: seq<Value>, i: nat)
    requires i < |vs| && forall j :: 0 <= j < |vs| ==> ValueOk(f, vs[j])
    ensures PackedBytes(f, vs[..i + 1]) == PackedBytes(f, vs[..i]) + ValueBytes(f, vs[i])
    ensures |PackedBytes(f, vs[..i + 1])| <= |PackedBytes(f, vs)|
  {
    assert vs[..i + 1][..i] == vs[..i];
    PackedGrows(f, vs, i + 1);
  }

  lemma {:induction false} PackedGrows(f: Field, vs: seq<Value>, i: nat)
    requires i <= |vs| && forall j :: 0 <= j < |vs| ==> ValueOk(f, vs[j])
    ensures |PackedBytes(f, vs[..i])| <= |PackedBytes(f, vs)|
    decreases |vs|
  {
    if i == |vs| {
      assert vs[..i] == vs;
    } else {
      var n := |vs| - 1;
      PackedGrows(f, vs[..n], i);
      assert vs[..n][..i] == vs[..i];
    }
  }

  /** Calls the field's encoder for every value of an array. */
  method EncodeAllValues(s: OStream, f: Field, vs: seq<Value>) returns (ok: bool)
    requires Scalar(f.kind) && forall i :: 0 <= i < |vs| ==> ValueOk(f, vs[i])
    requires s.Valid()
    modifies s
    ensures Encoded(s, ok, old(s.Fits(|PackedBytes(f, vs)|)), old(s.bytesWritten), old(s.data), PackedBytes(f, vs))
    decreases f, 0, 1
  {
    for i := 0 to |vs|
      invariant s.Valid() && Took(s, old(s.bytesWritten), old(s.data), PackedBytes(f, vs[..i]))
    {
      ok := EncodeNextPacked(s, f, vs, i, old(s.bytesWritten), old(s.data));
      if !ok {
        return;
      }
    }
    assert vs[..|vs|] == vs;
    ok := true;
  }

  method EncodeNextPacked(s: OStream, f: Field, vs: seq<Value>, i: nat, ghost written: nat, ghost data: Bytes)
    returns (ok: bool)
    requires Scalar(f.kind) && i < |vs| && forall j :: 0 <= j < |vs| ==> ValueOk(f, vs[j])
    requires s.Valid() && Took(s, written, data, PackedBytes(f, vs[..i]))
    modifies s
    ensures s.Valid()
    ensures if ok then Took(s, written, data, PackedBytes(f, vs[..i + 1]))
            else !(s.sizing || written + |PackedBytes(f, vs)| <= s.maxSize)
    decreases f, 0
  {
    OneMorePacked(f, vs, i);
    assert ValueOk(f, vs[i]);
    ok := EncodeNumber(s, f.kind, vs[i].n);
  }

  lemma OneMoreTagged(f: Field, vs: seq<Value>, i: nat)
    requires i < |vs| && forall j :: 0 <= j < |vs| ==> ValueOk(f, vs[j])
    ensures TaggedBytes(f, vs[..i + 1])
            == TaggedBytes(f, vs[..i]) + (Tag(f.tag, WireType(f.kind)) + ValueBytes(f, vs[i]))
    ensures |TaggedBytes(f, vs[..i + 1])| <= |TaggedBytes(f, vs)|
  {
    assert vs[..i + 1][..i] == vs[..i];
    TaggedGrows(f, vs, i + 1);
  }

  lemma {:induction false} TaggedGrows(f: Field, vs: seq<Value>, i: nat)
    requires i <= |vs| && forall j :: 0 <= j < |vs| ==> ValueOk(f, vs[j])
    ensures |TaggedBytes(f, vs[..i])| <= |TaggedBytes(f, vs)|
    decreases |vs|
  {
    if i == |vs| {
      assert vs[..i] == vs;
    } else {
      var n := |vs| - 1;
      TaggedGrows(f, vs[..n], i);
      assert vs[..n][..i] == vs[..i];
    }
  }

  method EncodeUnpacked(s: OStream, f: Field, vs: seq<Value>) returns (ok: bool)
    requires forall i :: 0 <= i < |vs| ==> ValueOk(f, vs[i])
    requires s.Valid()
    modifies s
    ensures var b := TaggedBytes(f, vs);
            Encoded(s, ok, (forall i :: 0 <= i < |vs| ==> Encodable(f, vs[i])) && old(s.Fits(|b|)),
                    old(s.bytesWritten), old(s.data), b)
    decreases f, 2
  {
    for i := 0 to |vs|
      invariant s.Valid() && Took(s, old(s.bytesWritten), old(s.data), TaggedBytes(f, vs[..i]))
      invariant forall j :: 0 <= j < i ==> Encodable(f, vs[j])
    {
      ok := EncodeNextTagged(s, f, vs, i, old(s.bytesWritten), old(s.data));
      if !ok {
        return;
      }
    }
    assert vs[..|vs|] == vs;
    ok := true;
  }

  method EncodeNextTagged(s: OStream, f: Field, vs: seq<Value>, i: nat, ghost written: nat, ghost data: Bytes)
    returns (ok: bool)
    requires i < |vs| && forall j :: 0 <= j < |vs| ==> ValueOk(f, vs[j])
    requires s.Valid() && Took(s, written, data, TaggedBytes(f, vs[..i]))
    modifies s
    ensures s.Valid()
    ensures if ok then Encodable(f, vs[i]) && Took(s, written, data, TaggedBytes(f, vs[..i + 1]))
            else !Encodable(f, vs[i]) || !(s.sizing || written + |TaggedBytes(f, vs)| <= s.maxSize)
    decreases f, 2, 0
  {
    OneMoreTagged(f, vs, i);
    ok := EncodeTagged(s, f, vs[i]);
  }

  /** pb_get_encoded_size: the number of bytes that the writing pass writes. */
  method GetEncodedSize(fields: seq<Field>, slots: seq<Slot>) returns (ok: bool, size: nat)
    requires MessageOk(fields, slots)
    ensures ok <==> EncodableMessage(fields, slots)
    ensures ok ==> size == |MessageBytes(fields, slots)|
  {
    var stream := new OStream(true, 0, []);
    ok := Encode(stream, fields, slots);
    size := stream.bytesWritten;
  }
}
