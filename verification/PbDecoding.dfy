/** What the bytes of a message decode to, whatever they are (pb_decode.c). */
module PbDecoding {
  import opened Coding
  import opened Visibility
  import opened PbFields
  import opened PbMessages
  import opened PbRequired
  import opened PbDecode

  /** The content that a length announces. */
  function ContentAt(b: Bytes): (r: Decoded<Bytes>)
    ensures r.Got? ==> |r.rest| < |b|
  {
    match DecodeVarint32(b)
    case Failed => Failed
    case Got(size, rest) => if size <= |rest| then Got(rest[..size], rest[size..]) else Failed
  }

  /** The numbers of a packed array, behind those that are there already, as far as it has room. */
  function PackedAt(f: Field, vs: seq<Value>, b: Bytes): (r: Option<seq<Value>>)
    requires f.rule.Repeated? && Scalar(f.kind) && |vs| <= f.rule.arraySize
    ensures r.Some? ==> |r.value| <= f.rule.arraySize
    decreases |b|
  {
    if b == [] then Some(vs)
    else if |vs| == f.rule.arraySize then None
    else
      match NumberAt(f.kind, b)
      case Failed => None
      case Got(n, rest) => PackedAt(f, vs + [Number(n)], rest)
  }

  /** Bytes, or a string with room for its NUL. */
  function DataAt(f: Field, b: Bytes): (r: Decoded<Value>)
    requires f.kind.BytesOf? || f.kind.StringOf?
    ensures r.Got? ==> |r.rest| < |b| && r.value.Data?
  {
    match DecodeVarint32(b)
    case Failed => Failed
    case Got(size, rest) =>
      if (if f.kind.StringOf? then size + 1 else size) <= f.kind.size && size <= |rest|
      then Got(Data(rest[..size]), rest[size..]) else Failed
  }

  /** A value of the field's type; what a submessage does not mention stays as it was. */
  function ValueAt(f: Field, w: Value, b: Bytes): (r: Decoded<Value>)
    requires Distinct(f) && !f.kind.Extension? && Shaped(f, w)
    ensures r.Got? ==> |r.rest| < |b| && Shaped(f, r.value)
    decreases f, 0
  {
    if f.kind.Submessage? then
      match ContentAt(b)
      case Failed => Failed
      case Got(content, rest) =>
        DefaultsShaped(f.kind.fields);
        match MessageAt(f.kind.fields, if f.rule.Repeated? then Defaults(f.kind.fields) else w.slots, content)
        case None => Failed
        case Some(slots) => Got(Message(slots), rest)
    else if f.kind.BytesOf? || f.kind.StringOf? then DataAt(f, b)
    else
      match NumberAt(f.kind, b)
      case Failed => Failed
      case Got(n, rest) => Got(Number(n), rest)
  }

  /** The slot after one more record of its field. */
  function SlotAt(f: Field, wireType: nat, slot: Slot, b: Bytes): (r: Decoded<Slot>)
    requires Distinct(f) && !f.kind.Extension? && ShapedSlot(f, slot)
    ensures r.Got? ==> |r.rest| < |b| && ShapedSlot(f, r.value)
    decreases f, 1
  {
    match f.rule
    case Required =>
      (match ValueAt(f, slot.value, b) case Failed => Failed case Got(w, rest) => Got(Single(w), rest))
    case Optional =>
      (match ValueAt(f, slot.value, b) case Failed => Failed case Got(w, rest) => Got(Maybe(true, w), rest))
    case Repeated(arraySize) =>
      if wireType == WT_STRING && Scalar(f.kind) then
        match ContentAt(b)
        case Failed => Failed
        case Got(content, rest) =>
          (match PackedAt(f, slot.values, content) case None => Failed case Some(vs) => Got(Many(vs), rest))
      else if |slot.values| >= arraySize then Failed
      else
        DefaultShaped(f);
        match ValueAt(f, Default(f), b)
        case Failed => Failed
        case Got(w, rest) => Got(Many(slot.values + [w]), rest)
  }

  /** The position of the field with the tag; behind the last one if there is none. */
  function FieldWithTag(fields: seq<Field>, tag: nat): (i: nat)
    ensures i <= |fields| && (i < |fields| ==> fields[i].tag == tag)
    ensures i == |fields| ==> forall n :: 0 <= n < |fields| ==> fields[n].tag != tag
  {
    if fields == [] then 0
    else if fields[|fields| - 1].tag == tag then |fields| - 1
    else
      var i := FieldWithTag(fields[..|fields| - 1], tag);
      if i == |fields| - 1 then |fields| else i
  }

  /** The structure as far as it has been filled, and which fields have occurred. */
  datatype Partial = Partial(dest: seq<Slot>, seen: set<nat>)

  /** One record, behind its tag: of a field, or of no field. In an empty descriptor tag 0 finds the terminator, which
      is no field to decode. */
  function RecordAt(fields: seq<Field>, p: Partial, tag: nat, wireType: nat, b: Bytes): (r: Decoded<Partial>)
    requires AllDistinct(fields) && ShapedMessage(fields, p.dest)
    ensures r.Got? ==> |r.rest| <= |b| && ShapedMessage(fields, r.value.dest)
    decreases fields, 0
  {
    var i := FieldWithTag(fields, tag);
    if i < |fields| then
      match SlotAt(fields[i], wireType, p.dest[i], b)
      case Failed => Failed
      case Got(slot, rest) => Got(Partial(p.dest[i := slot], p.seen + {i}), rest)
    else if fields == [] && tag == 0 then Failed
    else
      match Skipped(b, wireType)
      case None => Failed
      case Some(rest) => Got(p, rest)
  }

  /** All records, up to the end or a tag of zero. */
  function RecordsAt(fields: seq<Field>, p: Partial, b: Bytes): (r: Option<Partial>)
    requires AllDistinct(fields) && ShapedMessage(fields, p.dest)
    ensures r.Some? ==> ShapedMessage(fields, r.value.dest)
    decreases fields, 1, |b|
  {
    match TagAt(b)
    case NoTag => Some(p)
    case Malformed => None
    case TagRead(tag, wireType, rest) =>
      match RecordAt(fields, p, tag, wireType, rest)
      case Failed => None
      case Got(q, left) => RecordsAt(fields, q, left)
  }

  /** Every one of the first 64 required fields has occurred. */
  predicate RequiredSeen(fields: seq<Field>, seen: set<nat>) {
    forall n ::
        0 <= n < |fields| && fields[n].rule.Required? && RequiredBefore(fields, n) < MAX_REQUIRED_FIELDS ==> n in seen
  }

  /** The message, if all records can be decoded and no required field is missing. */
  function MessageAt(fields: seq<Field>, dest: seq<Slot>, b: Bytes): (r: Option<seq<Slot>>)
    requires AllDistinct(fields) && ShapedMessage(fields, dest)
    ensures r.Some? ==> ShapedMessage(fields, r.value)
    decreases fields, 2
  {
    match RecordsAt(fields, Partial(dest, {}), b)
    case None => None
    case Some(p) => if RequiredSeen(fields, p.seen) then Some(p.dest) else None
  }

  // ---------- Which inputs are accepted ----------

  /** The input from every record on that decoding comes to. */
  function Heads(fields: seq<Field>, p: Partial, b: Bytes): seq<Bytes>
    requires AllDistinct(fields) && ShapedMessage(fields, p.dest)
    decreases |b|
  {
    match TagAt(b)
    case NoTag => []
    case Malformed => []
    case TagRead(tag, wireType, rest) =>
      match RecordAt(fields, p, tag, wireType, rest)
      case Failed => [b]
      case Got(q, left) => [b] + Heads(fields, q, left)
  }

  /** A record of field n begins at one of these places. */
  ghost predicate Occurs(fields: seq<Field>, heads: seq<Bytes>, n: nat) {
    n < |fields| && exists i :: 0 <= i < |heads| && TagAt(heads[i]).TagRead? && TagAt(heads[i]).tag == fields[n].tag
  }

  lemma OccursFirst(fields: seq<Field>, head: Bytes, heads: seq<Bytes>, n: nat)
    requires n < |fields| && TagAt(head).TagRead?
    ensures Occurs(fields, [head] + heads, n) <==> TagAt(head).tag == fields[n].tag || Occurs(fields, heads, n)
  {
    var all := [head] + heads;
    assert all[0] == head;
    if i :| 0 <= i < |heads| && TagAt(heads[i]).TagRead? && TagAt(heads[i]).tag == fields[n].tag {
      assert all[i + 1] == heads[i];
    }
  }

  lemma {:induction false} SeenIsRead(fields: seq<Field>, p: Partial, b: Bytes, n: nat)
    requires AllDistinct(fields) && ShapedMessage(fields, p.dest) && n < |fields|
    ensures var r := RecordsAt(fields, p, b);
            r.Some? ==> (n in r.value.seen <==> n in p.seen || Occurs(fields, Heads(fields, p, b), n))
    decreases |b|
  {
    if TagAt(b).TagRead? {
      var t := TagAt(b);
      var r := RecordAt(fields, p, t.tag, t.wireType, t.rest);
      if r.Got? {
        SeenIsRead(fields, r.value, r.rest, n);
        OccursFirst(fields, b, Heads(fields, r.value, r.rest), n);
        assert n in r.value.seen <==> n in p.seen || t.tag == fields[n].tag;
      }
    }
  }

  /** An input is accepted exactly if all its records can be decoded, one after the other, and a record of every one of
      the first 64 required fields is among them. */
  lemma AcceptedExactly(fields: seq<Field>, dest: seq<Slot>, b: Bytes)
    requires AllDistinct(fields) && ShapedMessage(fields, dest)
    ensures var p := Partial(dest, {});
            MessageAt(fields, dest, b).Some? <==>
            RecordsAt(fields, p, b).Some? &&
            forall n :: 0 <= n < |fields| && fields[n].rule.Required? && RequiredBefore(fields, n) < 64
                        ==> Occurs(fields, Heads(fields, p, b), n)
  {
    forall n | 0 <= n < |fields| && RecordsAt(fields, Partial(dest, {}), b).Some?
      ensures n in RecordsAt(fields, Partial(dest, {}), b).value.seen
              <==> Occurs(fields, Heads(fields, Partial(dest, {}), b), n)
    {
      SeenIsRead(fields, Partial(dest, {}), b, n);
    }
  }
}
