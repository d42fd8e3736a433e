/** The nanopb decoder (pb_decode.c), for static fields without callbacks. */
module PbDecode {
  import opened Coding
  import opened Visibility
  import opened PbFields
  import opened PbMessages

  // ---------- What decoding restores ----------

  /** pb_message_set_to_defaults: no optional field, no array elements, zeros. */
  function Default(f: Field): Value
    decreases f, 0
  {
    match f.kind
    case BytesOf(_) => Data([])
    case StringOf(_) => Data([])
    case Submessage(fields) => Message(Defaults(fields))
    case _ => Number(0)
  }

  function DefaultSlot(f: Field): Slot
    decreases f, 1
  {
    match f.rule
    case Required => Single(Default(f))
    case Optional => Maybe(false, Default(f))
    case Repeated(_) => Many([])
  }

  function Defaults(fields: seq<Field>): (r: seq<Slot>)
    ensures |r| == |fields| && forall i :: 0 <= i < |fields| ==> r[i] == DefaultSlot(fields[i])
    decreases fields
  {
    if fields == [] then [] else [DefaultSlot(fields[0])] + Defaults(fields[1..])
  }

  /** A decoded string is what stands before its NUL; an absent optional field has its default. */
  function Restored(f: Field, v: Value): Value
    decreases f, 0
  {
    match v
    case Number(n) => v
    case Data(b) => if f.kind.StringOf? then Data(CString(b)) else v
    case Message(slots) => if f.kind.Submessage? then Message(RestoredMessage(f.kind.fields, slots)) else v
  }

  function RestoredAll(f: Field, vs: seq<Value>): (r: seq<Value>)
    ensures |r| == |vs|
    decreases f, 1, |vs|
  {
    if vs == [] then [] else RestoredAll(f, vs[..|vs| - 1]) + [Restored(f, vs[|vs| - 1])]
  }

  function RestoredSlot(f: Field, s: Slot): Slot
    decreases f, 2
  {
    match s
    case Single(v) => Single(Restored(f, v))
    case Maybe(has, v) => if has then Maybe(true, Restored(f, v)) else Maybe(false, Default(f))
    case Many(vs) => Many(RestoredAll(f, vs))
  }

  function RestoredMessage(fields: seq<Field>, slots: seq<Slot>): (r: seq<Slot>)
    ensures |fields| == |slots| ==> |r| == |fields|
    decreases fields
  {
    if fields == [] || slots == [] then []
    else [RestoredSlot(fields[0], slots[0])] + RestoredMessage(fields[1..], slots[1..])
  }

  /** A string that fills its buffer has no NUL, and does not fit when it comes back. */
  predicate Decodable(f: Field, v: Value)
    decreases f, 0
  {
    match v
    case Number(_) => true
    case Data(b) => f.kind.StringOf? ==> |CString(b)| < f.kind.size
    case Message(slots) => f.kind.Submessage? && DecodableMessage(f.kind.fields, slots)
  }

  predicate DecodableSlot(f: Field, s: Slot)
    decreases f, 1
  {
    match s
    case Single(v) => Decodable(f, v)
    case Maybe(has, v) => has ==> Decodable(f, v)
    case Many(vs) => forall i :: 0 <= i < |vs| ==> Decodable(f, vs[i])
  }

  predicate DecodableMessage(fields: seq<Field>, slots: seq<Slot>)
    decreases fields
  {
    |slots| == |fields| && forall i :: 0 <= i < |fields| ==> DecodableSlot(fields[i], slots[i])
  }

  // ---------- Numbers ----------

  function Signed64(u: nat): int {
    if u < 0x8000_0000_0000_0000 then u else u - TWO64
  }

  function Signed32(u: nat): int {
    var low := u % TWO32;
    if low < 0x8000_0000 then low else low - TWO32
  }

  /** The casts of pb_dec_varint, pb_dec_uvarint and pb_dec_svarint; a number that does not fit is an error. */
  function FromVarint(k: Kind, u: nat): Option<int> {
    match k
    case Varint(size) =>
      var s := if size == 8 then Signed64(u) else Signed32(u);
      if NumberOk(k, s) then Some(s) else None
    case UVarint(size) => if NumberOk(k, u) then Some(u) else None
    case SVarint(size) =>
      var s: int := if u % 2 == 1 then -(u / 2) - 1 else u / 2;
      if NumberOk(k, s) then Some(s) else None
    case _ => None
  }

  function ToVarint(k: Kind, n: int): nat
    requires NumberOk(k, n)
  {
    match k
    case Varint(_) => Unsigned(n)
    case SVarint(_) => ZigZag(n)
    case _ => n
  }

  lemma VarintFits(k: Kind, n: int)
    requires NumberOk(k, n)
    ensures ToVarint(k, n) < TWO64
    ensures !k.Fixed32? && !k.Fixed64? ==> FromVarint(k, ToVarint(k, n)) == Some(n)
  {
  }

  // ---------- Streams ----------

  class IStream {
    /** What is left to read. */
    var rest: Bytes

    constructor (rest: Bytes)
      ensures this.rest == rest
    {
      this.rest := rest;
    }

    /** pb_read. */
    method Read(n: nat) returns (ok: bool, b: Bytes)
      modifies this
      ensures ok <==> n <= |old(rest)|
      ensures ok ==> b == old(rest)[..n] && rest == old(rest)[n..]
      ensures !ok ==> rest == old(rest)
    {
      if |rest| < n {
        return false, [];
      }
      ok, b, rest := true, rest[..n], rest[n..];
    }

    /** pb_decode_varint: ten groups of seven bits at most. */
    method ReadVarint() returns (ok: bool, v: nat)
      modifies this
      ensures match GetVarint64(old(rest))
              case Failed => !ok && rest == old(rest)
              case Got(u, r) => ok && v == u && rest == r
    {
      var d := Coding.GetVarint(rest, 10, TWO64);
      match d
      case Failed => return false, 0;
      case Got(u, r) =>
        ok, v, rest := true, u, r;
    }

    method ReadByte() returns (ok: bool, byte: Byte)
      modifies this
      ensures ok <==> old(rest) != []
      ensures ok ==> byte == old(rest)[0] && rest == old(rest)[1..]
      ensures !ok ==> rest == old(rest)
    {
      if rest == [] {
        return false, 0;
      }
      ok, byte, rest := true, rest[0], rest[1..];
    }

    /** pb_decode_varint32. */
    method ReadVarint32() returns (ok: bool, v: nat)
      modifies this
      ensures match DecodeVarint32(old(rest))
              case Failed => !ok
              case Got(u, r) => ok && v == u && rest == r
    {
      var byte;
      ok, byte := ReadByte();
      if !ok {
        return false, 0;
      }
      if byte < 128 {
        return true, byte as int;
      }
      ok, v := ReadGroups(byte as int % 128);
    }

    /** The groups behind the first one. */
    method ReadGroups(first: nat) returns (ok: bool, v: nat)
      modifies this
      ensures match DecodeGroups(first, 7, 128, old(rest))
              case Failed => !ok
              case Got(u, r) => ok && v == u && rest == r
    {
      var unit: nat, bitpos: nat, byte: Byte := 128, 7, 0;
      v := first;
      while true
        invariant DecodeGroups(first, 7, 128, old(rest)) == DecodeGroups(v, bitpos, unit, rest)
        decreases |rest|
      {
        ok, byte := ReadByte();
        if !ok {
          return false, 0;
        }
        if bitpos >= 32 {
          var signExtension := if bitpos < 63 then 0xff else 0x01;
          if byte as int % 128 != 0 && (v < 0x8000_0000 || byte as int != signExtension) {
            return false, 0;
          }
        } else {
          v := AddGroup(v, byte as int % 128, unit);
        }
        bitpos := bitpos + 7;
        if byte < 128 {
          break;
        }
        unit := unit * 128;
      }
      if bitpos == 35 && byte as int / 16 % 8 != 0 {
        return false, 0;
      }
      ok := true;
    }
  }

  /** A number of 32 bits, which may be longer than five bytes if the rest is zeros or a sign. */
  function DecodeVarint32(b: Bytes): (r: Decoded<nat>)
    ensures r.Got? ==> |r.rest| < |b|
  {
    if b == [] then Failed
    else if b[0] < 128 then Got(b[0] as int, b[1..])
    else DecodeGroups(b[0] as int % 128, 7, 128, b[1..])
  }

  /** The groups from a bit position on; `unit` is their weight there. */
  function DecodeGroups(v: nat, bitpos: nat, unit: nat, b: Bytes): (r: Decoded<nat>)
    ensures r.Got? ==> |r.rest| < |b|
    decreases |b|
  {
    if b == [] then Failed
    else
      var low := b[0] as int % 128;
      if bitpos >= 32 && low != 0 && (v < 0x8000_0000 || b[0] as int != if bitpos < 63 then 0xff else 0x01) then Failed
      else
        var w := if bitpos >= 32 then v else AddGroup(v, low, unit);
        if b[0] >= 128 then DecodeGroups(w, bitpos + 7, unit * 128, b[1..])
        else if bitpos + 7 == 35 && b[0] as int / 16 % 8 != 0 then Failed
        else Got(w, b[1..])
  }

  /** Canonical numbers read back. */
  lemma Varint32Reads(value: nat, after: Bytes)
    requires value < TWO32
    ensures DecodeVarint32(Coding.Varint(value) + after) == Got(value, after)
  {
    var b := Coding.Varint(value) + after;
    FirstOfVarint(value, b, after);
    if value >= 128 {
      GroupsRead(7, 128, value % 128, value / 128, value, b[1..], after);
    }
  }

  lemma {:induction false} GroupsRead(bitpos: nat, unit: nat, v: nat, left: nat, value: nat, b: Bytes, after: Bytes)
    requires value < TWO32 && InGroups(bitpos, unit, v, left, value, b, after)
    ensures DecodeGroups(v, bitpos, unit, b) == Got(value, after)
    decreases left
  {
    NextGroup(bitpos, unit, v, left, value, b, after);
    FirstOfVarint(left, b, after);
    if b[0] >= 128 {
      GroupsRead(bitpos + 7, unit * 128, AddGroup(v, b[0] as int % 128, unit), left / 128, value, b[1..], after);
    }
  }

  /** result |= group << bitpos, in 32 bits */
  function AddGroup(v: nat, group: nat, unit: nat): nat {
    (v + group * unit) % TWO32
  }

  /** The weight of the group of bits at a position. */
  predicate Group(bitpos: int, unit: int) {
    (bitpos == 7 && unit == 0x80) || (bitpos == 14 && unit == 0x4000) || (bitpos == 21 && unit == 0x20_0000)
    || (bitpos == 28 && unit == 0x1000_0000)
  }

  /** What is left to read of a plain number: `left`, above the bits that are in v already. */
  ghost predicate InGroups(bitpos: int, unit: nat, v: nat, left: nat, value: nat, b: Bytes, after: Bytes) {
    && Group(bitpos, unit) && left > 0 && value == v + unit * left && b == Coding.Varint(left) + after
  }

  lemma Distribute(unit: nat, low: nat, high: nat)
    ensures unit * (low + 128 * high) == low * unit + unit * 128 * high
  {
  }

  lemma AddFits(v: nat, group: nat, unit: nat)
    requires v + group * unit < TWO32
    ensures AddGroup(v, group, unit) == v + group * unit
  {
  }

  lemma FirstOfVarint(left: nat, b: Bytes, after: Bytes)
    requires b == Coding.Varint(left) + after
    ensures b != [] && b[0] as int % 128 == left % 128 && (b[0] < 128 <==> left < 128)
    ensures left < 128 ==> b[1..] == after
    ensures left >= 128 ==> b[1..] == Coding.Varint(left / 128) + after
  {
  }

  lemma NextGroup(bitpos: int, unit: nat, v: nat, left: nat, value: nat, b: Bytes, after: Bytes)
    requires value < TWO32 && InGroups(bitpos, unit, v, left, value, b, after)
    ensures b != [] && bitpos < 32
    ensures if b[0] < 128 then
              && AddGroup(v, b[0] as int % 128, unit) == value && b[1..] == after
              && (bitpos == 28 ==> b[0] as int / 16 % 8 == 0)
            else
              && bitpos + 7 < 35
              && InGroups(bitpos + 7, unit * 128, AddGroup(v, b[0] as int % 128, unit), left / 128, value, b[1..],
                          after)
  {
    var low, high := left % 128, left / 128;
    assert left == low + 128 * high;
    FirstOfVarint(left, b, after);
    Distribute(unit, low, high);
    HighFits(bitpos, unit, v, low, high, value);
    AddFits(v, low, unit);
  }

  lemma HighFits(bitpos: int, unit: nat, v: nat, low: nat, high: nat, value: nat)
    requires Group(bitpos, unit) && value == v + (low * unit + unit * 128 * high) && value < TWO32
    ensures v + low * unit <= value
    ensures bitpos == 28 ==> high == 0 && low < 16
  {
  }

  /** The tag at the front of the input: none at its end, and none behind a zero. */
  datatype TagRead = Malformed | NoTag | TagRead(tag: nat, wireType: nat, rest: Bytes)

  function TagAt(b: Bytes): (r: TagRead)
    ensures r.TagRead? ==> |r.rest| < |b|
  {
    if b == [] then NoTag
    else
      match DecodeVarint32(b)
      case Failed => Malformed
      case Got(u, rest) => if u == 0 then NoTag else TagRead(u / 8, u % 8, rest)
  }

  /** pb_decode_tag. */
  method ReadTag(s: IStream) returns (ok: bool, eof: bool, tag: nat, wireType: nat)
    modifies s
    ensures match TagAt(old(s.rest))
            case Malformed => !ok && !eof
            case NoTag => !ok && eof
            case TagRead(t, w, r) => ok && !eof && tag == t && wireType == w && s.rest == r
  {
    ok, eof, tag, wireType := false, s.rest == [], 0, 0;
    var read, temp := s.ReadVarint32();
    if !read {
      return;
    }
    if temp == 0 {
      eof := true;
      return;
    }
    ok, tag, wireType := true, temp / 8, temp % 8;
  }

  lemma TagReads(tag: nat, wireType: nat, after: Bytes)
    requires 0 < tag * 8 + wireType < TWO32 && wireType < 8
    ensures TagAt(Tag(tag, wireType) + after) == TagRead(tag, wireType, after)
  {
    Varint32Reads(tag * 8 + wireType, after);
    assert Tag(tag, wireType) + after != [];
  }

  /** What is behind the groups of a varint, however many there are. */
  function BehindVarint(b: Bytes): (r: Option<Bytes>)
    ensures r.Some? ==> |r.value| < |b|
  {
    if b == [] then None else if b[0] < 128 then Some(b[1..]) else BehindVarint(b[1..])
  }

  function Behind(b: Bytes, n: nat): (r: Option<Bytes>)
    ensures r.Some? ==> |r.value| <= |b|
  {
    if n <= |b| then Some(b[n..]) else None
  }

  /** What is behind the payload of a field that nobody knows. */
  function Skipped(b: Bytes, wireType: nat): (r: Option<Bytes>)
    ensures r.Some? ==> |r.value| <= |b|
  {
    if wireType == WT_VARINT then BehindVarint(b)
    else if wireType == WT_64BIT then Behind(b, 8)
    else if wireType == WT_STRING then
      match DecodeVarint32(b)
      case Failed => None
      case Got(size, rest) => Behind(rest, size)
    else if wireType == WT_32BIT then Behind(b, 4)
    else None
  }

  /** pb_skip_field. */
  method SkipField(s: IStream, wireType: nat) returns (ok: bool)
    modifies s
    ensures match Skipped(old(s.rest), wireType)
            case None => !ok
            case Some(r) => ok && s.rest == r
  {
    if wireType == WT_VARINT {
      var byte: Byte := 0x80;
      ok := true;
      while ok && byte >= 0x80
        invariant if !ok then BehindVarint(old(s.rest)) == None
                  else BehindVarint(old(s.rest)) == if byte >= 0x80 then BehindVarint(s.rest) else Some(s.rest)
        decreases ok, |s.rest|
      {
        ok, byte := s.ReadByte();
      }
    } else if wireType == WT_64BIT {
      var b;
      ok, b := s.Read(8);
    } else if wireType == WT_STRING {
      var size;
      ok, size := s.ReadVarint32();
      if ok {
        var b;
        ok, b := s.Read(size);
      }
    } else if wireType == WT_32BIT {
      var b;
      ok, b := s.Read(4);
    } else {
      ok := false;
    }
  }

  // ---------- Values ----------

  /** The fields of a message have different tags of at most 29 bits, at every depth. */
  predicate Distinct(f: Field)
    decreases f
  {
    f.kind.Submessage? ==> AllDistinct(f.kind.fields)
  }

  predicate AllDistinct(fields: seq<Field>)
    decreases fields
  {
    && (forall i, j :: 0 <= i < j < |fields| ==> fields[i].tag != fields[j].tag)
    && forall i :: 0 <= i < |fields| ==>
         0 < fields[i].tag < 0x2000_0000 && !fields[i].kind.Extension? && Distinct(fields[i])
  }

  /** The structure has a slot of the right shape for every field. */
  predicate Shaped(f: Field, v: Value)
    decreases f, 0
  {
    match v
    case Number(_) => f.kind.Extension? || Scalar(f.kind)
    case Data(_) => f.kind.BytesOf? || f.kind.StringOf?
    case Message(slots) => f.kind.Submessage? && ShapedMessage(f.kind.fields, slots)
  }

  predicate ShapedSlot(f: Field, s: Slot)
    decreases f, 1
  {
    match s
    case Single(v) => f.rule.Required? && Shaped(f, v)
    case Maybe(_, v) => f.rule.Optional? && Shaped(f, v)
    case Many(vs) => f.rule.Repeated? && |vs| <= f.rule.arraySize
  }

  predicate ShapedMessage(fields: seq<Field>, slots: seq<Slot>)
    decreases fields
  {
    |slots| == |fields| && forall i :: 0 <= i < |fields| ==> ShapedSlot(fields[i], slots[i])
  }

  lemma {:induction false} DefaultShaped(f: Field)
    ensures Shaped(f, Default(f)) && ShapedSlot(f, DefaultSlot(f))
    decreases f
  {
    if f.kind.Submessage? {
      DefaultsShaped(f.kind.fields);
    }
  }

  lemma {:induction false} DefaultsShaped(fields: seq<Field>)
    ensures ShapedMessage(fields, Defaults(fields))
    decreases fields
  {
    forall i | 0 <= i < |fields| ensures ShapedSlot(fields[i], Defaults(fields)[i]) {
      DefaultShaped(fields[i]);
    }
  }

  /** The number at the front of the input, if there is one that fits the type. */
  function NumberAt(k: Kind, b: Bytes): (r: Decoded<int>)
    requires Scalar(k)
    ensures r.Got? ==> |r.rest| < |b|
  {
    if k.Fixed32? || k.Fixed64? then
      var width := if k.Fixed32? then 4 else 8;
      if width <= |b| then Got(DecodeFixed(b[..width], width), b[width..]) else Failed
    else
      match GetVarint64(b)
      case Failed => Failed
      case Got(u, rest) => if FromVarint(k, u).Some? then Got(FromVarint(k, u).value, rest) else Failed
  }

  /** pb_dec_varint, pb_dec_uvarint, pb_dec_svarint, pb_dec_fixed32 and pb_dec_fixed64. */
  method DecodeNumber(s: IStream, k: Kind) returns (ok: bool, n: int)
    requires Scalar(k)
    modifies s
    ensures match NumberAt(k, old(s.rest))
            case Failed => !ok
            case Got(m, r) => ok && n == m && s.rest == r
  {
    n := 0;
    if k.Fixed32? || k.Fixed64? {
      var width := if k.Fixed32? then 4 else 8;
      var b;
      ok, b := s.Read(width);
      if ok {
        n := DecodeFixed(b, width);
      }
    } else {
      var u;
      ok, u := s.ReadVarint();
      if ok {
        var r := FromVarint(k, u);
        if r.None? {
          return false, 0;
        }
        n := r.value;
      }
    }
  }

  /** Every number of every type reads back. */
  lemma NumberReads(k: Kind, n: int, after: Bytes)
    requires NumberOk(k, n)
    ensures NumberAt(k, NumberBytes(k, n) + after) == Got(n, after)
  {
    VarintFits(k, n);
    if k.Fixed32? || k.Fixed64? {
      FixedRead(n, if k.Fixed32? then 4 else 8, after);
    } else {
      Varint64RoundTrip(ToVarint(k, n), after);
    }
  }

  lemma FixedRead(n: nat, width: nat, after: Bytes)
    requires n < Power256(width) || (width == 4 && n < TWO32) || (width == 8 && n < TWO64)
    ensures var b := Fixed(n, width) + after;
            |b| >= width && DecodeFixed(b[..width], width) == n && b[width..] == after
  {
    Powers();
    assert (Fixed(n, width) + after)[..width] == Fixed(n, width) + [];
    FixedRoundTrip(n, width, []);
  }
}
