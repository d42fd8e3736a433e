/** Decoding a message of any nesting (pb_decode.c): the methods compute what module PbDecoding says of any bytes. */
module PbDecoder {
  import opened Coding
  import opened Visibility
  import opened PbFields
  import opened PbMessages
  import opened PbRequired
  import opened PbDecode
  import opened PbDecoding
  import opened PbRoundTrip

  // ---------- Values ----------

  /** Reads numbers until the substream is empty or the array is full. */
  method DecodePacked(content: Bytes, f: Field, vs: seq<Value>) returns (ok: bool, r: seq<Value>)
    requires f.rule.Repeated? && Scalar(f.kind) && |vs| <= f.rule.arraySize
    ensures match PackedAt(f, vs, content)
            case None => !ok
            case Some(all) => ok && r == all
  {
    var substream := new IStream(content);
    r := vs;
    while substream.rest != [] && |r| < f.rule.arraySize
      invariant |r| <= f.rule.arraySize && PackedAt(f, vs, content) == PackedAt(f, r, substream.rest)
      decreases |substream.rest|
    {
      var n;
      ok, n := DecodeNumber(substream, f.kind);
      if !ok {
        return;
      }
      r := r + [Number(n)];
    }
    ok := substream.rest == [];
  }

  /** pb_make_string_substream: the bytes that a length announces. */
  method MakeSubstream(s: IStream) returns (ok: bool, content: Bytes)
    modifies s
    ensures match ContentAt(old(s.rest))
            case Failed => !ok
            case Got(c, r) => ok && content == c && s.rest == r
  {
    var size;
    content := [];
    ok, size := s.ReadVarint32();
    if ok {
      ok, content := s.Read(size);
    }
  }

  /** pb_dec_bytes and pb_dec_string; a string needs room for its NUL. */
  method DecodeData(s: IStream, f: Field) returns (ok: bool, w: Value)
    requires f.kind.BytesOf? || f.kind.StringOf?
    modifies s
    ensures match DataAt(f, old(s.rest))
            case Failed => !ok
            case Got(v, r) => ok && w == v && s.rest == r
  {
    w := Data([]);
    var size;
    ok, size := s.ReadVarint32();
    if !ok {
      return;
    }
    if (if f.kind.StringOf? then size + 1 else size) > f.kind.size {
      return false, w;
    }
    var b;
    ok, b := s.Read(size);
    w := Data(b);
  }

  /** One value, as PB_DECODERS has it for the field's type. */
  method DecodeValue(s: IStream, f: Field, w0: Value) returns (ok: bool, w: Value)
    requires Distinct(f) && !f.kind.Extension? && Shaped(f, w0)
    modifies s
    ensures match ValueAt(f, w0, old(s.rest))
            case Failed => !ok
            case Got(v, r) => ok && w == v && s.rest == r
    decreases f, 1
  {
    w := w0;
    if f.kind.Submessage? {
      ok, w := DecodeSubmessage(s, f, w0);
    } else if f.kind.BytesOf? || f.kind.StringOf? {
      ok, w := DecodeData(s, f);
    } else {
      var n;
      ok, n := DecodeNumber(s, f.kind);
      w := Number(n);
    }
  }

  /** pb_dec_submessage. */
  method DecodeSubmessage(s: IStream, f: Field, w0: Value) returns (ok: bool, w: Value)
    requires Distinct(f) && f.kind.Submessage? && Shaped(f, w0)
    modifies s
    ensures match ValueAt(f, w0, old(s.rest))
            case Failed => !ok
            case Got(v, r) => ok && w == v && s.rest == r
    decreases f, 0
  {
    w := w0;
    var content;
    ok, content := MakeSubstream(s);
    if !ok {
      return;
    }
    DefaultsShaped(f.kind.fields);
    var substream := new IStream(content);
    var dest;
    ok, dest := DecodeNoInit(substream, f.kind.fields, if f.rule.Repeated? then Defaults(f.kind.fields) else w0.slots);
    w := Message(dest);
  }

  /** decode_static_field. */
  method DecodeSlot(s: IStream, f: Field, wireType: nat, slot0: Slot) returns (ok: bool, slot: Slot)
    requires Distinct(f) && !f.kind.Extension? && ShapedSlot(f, slot0)
    modifies s
    ensures match SlotAt(f, wireType, slot0, old(s.rest))
            case Failed => !ok
            case Got(x, r) => ok && slot == x && s.rest == r
    decreases f, 2
  {
    slot := slot0;
    var w;
    match f.rule
    case Required =>
      ok, w := DecodeValue(s, f, slot0.value);
      slot := Single(w);
    case Optional =>
      ok, w := DecodeValue(s, f, slot0.value);
      slot := Maybe(true, w);
    case Repeated(arraySize) =>
      if wireType == WT_STRING && Scalar(f.kind) {
        var content, vs;
        ok, content := MakeSubstream(s);
        if ok {
          ok, vs := DecodePacked(content, f, slot0.values);
          slot := Many(vs);
        }
      } else if |slot0.values| >= arraySize {
        ok := false;
      } else {
        DefaultShaped(f);
        ok, w := DecodeValue(s, f, Default(f));
        slot := Many(slot0.values + [w]);
      }
  }

  // ---------- Required fields ----------

  /** The bitmap has the numbers of the required fields that have occurred. */
  ghost predicate Marked(fields: seq<Field>, bitmap: FieldsSeen, seen: set<nat>)
    reads bitmap
  {
    && bitmap.Valid()
    && (forall k :: RequiredBefore(fields, |fields|) <= k < MAX_REQUIRED_FIELDS ==> !bitmap.Seen(k))
    && forall n :: 0 <= n < |fields| && fields[n].rule.Required? && RequiredBefore(fields, n) < MAX_REQUIRED_FIELDS ==>
         (bitmap.Seen(RequiredBefore(fields, n)) <==> n in seen)
  }

  lemma NumbersDiffer(fields: seq<Field>, i: nat, n: nat)
    requires i < |fields| && n < |fields| && i != n && fields[i].rule.Required? && fields[n].rule.Required?
    ensures RequiredBefore(fields, i) != RequiredBefore(fields, n)
  {
    if n < i {
      RequiredBeforeGrows(fields, n, i);
    } else {
      RequiredBeforeGrows(fields, i, n);
    }
  }

  method MarkField(iter: FieldIter, bitmap: FieldsSeen, ghost seen: set<nat>)
    requires iter.Valid() && iter.pos < |iter.fields| && Marked(iter.fields, bitmap, seen)
    modifies bitmap
    ensures Marked(iter.fields, bitmap, seen + {iter.pos})
  {
    ghost var fields, i := iter.fields, iter.pos;
    if fields[i].rule.Required? {
      RequiredBeforeGrows(fields, i, |fields|);
    }
    forall n | 0 <= n < |fields| && n != i && fields[i].rule.Required? && fields[n].rule.Required?
      ensures RequiredBefore(fields, n) != RequiredBefore(fields, i)
    {
      NumbersDiffer(fields, i, n);
    }
    if At(iter.fields, iter.pos).rule.Required? && iter.requiredFieldIndex < MAX_REQUIRED_FIELDS {
      bitmap.Mark(iter.requiredFieldIndex);
    }
  }

  lemma AllNumbers(fields: seq<Field>, bitmap: FieldsSeen, seen: set<nat>)
    requires Marked(fields, bitmap, seen)
    ensures (forall k :: 0 <= k < RequiredBefore(fields, |fields|) && k < MAX_REQUIRED_FIELDS ==> bitmap.Seen(k))
            <==> RequiredSeen(fields, seen)
  {
    var total := RequiredBefore(fields, |fields|);
    if RequiredSeen(fields, seen) {
      forall k | 0 <= k < total && k < MAX_REQUIRED_FIELDS ensures bitmap.Seen(k) {
        var n := FieldWithNumber(fields, |fields|, k);
      }
    }
    forall n | 0 <= n < |fields| && fields[n].rule.Required? ensures RequiredBefore(fields, n) < total {
      RequiredBeforeGrows(fields, n, |fields|);
    }
  }

  lemma {:induction false} FieldWithNumber(fields: seq<Field>, m: nat, k: nat) returns (n: nat)
    requires m <= |fields| && k < RequiredBefore(fields, m)
    ensures n < m && fields[n].rule.Required? && RequiredBefore(fields, n) == k
  {
    if fields[m - 1].rule.Required? && RequiredBefore(fields, m - 1) == k {
      n := m - 1;
    } else {
      n := FieldWithNumber(fields, m - 1, k);
    }
  }

  /** Seeks to the end of the descriptor to count the required fields. */
  method CountRequired(iter: FieldIter) returns (count: nat)
    requires iter.Valid()
    modifies iter
    ensures count == RequiredBefore(iter.fields, |iter.fields|)
  {
    var last, more := TERMINATOR, true;
    count := 0;
    while more
      invariant iter.Valid()
      invariant !more ==> iter.pos == 0
      invariant !more && iter.fields == [] ==> count == 0 && last == TERMINATOR
      invariant !more && iter.fields != [] ==> last == iter.fields[|iter.fields| - 1]
      invariant !more && iter.fields != [] ==> count == RequiredBefore(iter.fields, |iter.fields| - 1)
      decreases more, |iter.fields| - iter.pos
    {
      count, last := iter.requiredFieldIndex, At(iter.fields, iter.pos);
      more := iter.Next();
    }
    if last.rule.Required? && At(iter.fields, iter.pos).tag != 0 {
      count := count + 1;
    }
  }

  /** The check behind the loop: every one of the first 64 required fields has occurred. */
  method CheckRequired(iter: FieldIter, bitmap: FieldsSeen, ghost seen: set<nat>) returns (ok: bool)
    requires iter.Valid() && Marked(iter.fields, bitmap, seen)
    modifies iter
    ensures ok <==> RequiredSeen(iter.fields, seen)
  {
    var count := CountRequired(iter);
    ok := bitmap.AllPresent(count);
    AllNumbers(iter.fields, bitmap, seen);
  }

  // ---------- Messages ----------

  /** The iterator finds the field with the tag, or the terminator of an empty descriptor. */
  method FindField(iter: FieldIter, tag: nat) returns (found: bool)
    requires iter.Valid() && AllDistinct(iter.fields)
    modifies iter
    ensures iter.Valid()
    ensures if FieldWithTag(iter.fields, tag) < |iter.fields| then found && iter.pos == FieldWithTag(iter.fields, tag)
            else found <==> iter.fields == [] && tag == 0
  {
    found := iter.Find(tag);
    ghost var i := FieldWithTag(iter.fields, tag);
    if i < |iter.fields| {
      assert iter.Carries(i, tag);
    }
    if found && iter.pos < |iter.fields| {
      assert iter.fields[iter.pos].tag == tag;
    }
  }

  /** One record, behind its tag. */
  method DecodeRecord(s: IStream, iter: FieldIter, bitmap: FieldsSeen, tag: nat, wireType: nat, dest: seq<Slot>,
                      ghost seen: set<nat>)
    returns (ok: bool, dest': seq<Slot>, ghost seen': set<nat>)
    requires iter.Valid() && AllDistinct(iter.fields) && ShapedMessage(iter.fields, dest)
             && Marked(iter.fields, bitmap, seen)
    modifies s, iter, bitmap
    ensures match RecordAt(iter.fields, Partial(dest, seen), tag, wireType, old(s.rest))
            case Failed => !ok
            case Got(p, r) =>
              ok && Partial(dest', seen') == p && s.rest == r && iter.Valid() && Marked(iter.fields, bitmap, seen')
    decreases iter.fields, 0
  {
    dest', seen' := dest, seen;
    var found := FindField(iter, tag);
    if !found {
      ok := SkipField(s, wireType);
      return;
    }
    if iter.fields == [] {
      // The terminator reads as a required varint of no size.
      bitmap.Mark(iter.requiredFieldIndex);
      var read, v := s.ReadVarint();
      return false, dest, seen;
    }
    MarkField(iter, bitmap, seen);
    seen' := seen + {iter.pos};
    var slot;
    ok, slot := DecodeSlot(s, iter.fields[iter.pos], wireType, dest[iter.pos]);
    if ok {
      dest' := dest[iter.pos := slot];
    }
  }

  /** The loop of pb_decode_noinit. */
  method DecodeRecords(s: IStream, iter: FieldIter, bitmap: FieldsSeen, dest0: seq<Slot>)
    returns (ok: bool, dest: seq<Slot>, ghost seen: set<nat>)
    requires iter.Valid() && AllDistinct(iter.fields) && ShapedMessage(iter.fields, dest0)
             && Marked(iter.fields, bitmap, {})
    modifies s, iter, bitmap
    ensures match RecordsAt(iter.fields, Partial(dest0, {}), old(s.rest))
            case None => !ok
            case Some(p) => ok && Partial(dest, seen) == p && iter.Valid() && Marked(iter.fields, bitmap, seen)
    decreases iter.fields, 1
  {
    dest, seen := dest0, {};
    while s.rest != []
      invariant iter.Valid() && ShapedMessage(iter.fields, dest) && Marked(iter.fields, bitmap, seen)
      invariant RecordsAt(iter.fields, Partial(dest0, {}), old(s.rest))
                == RecordsAt(iter.fields, Partial(dest, seen), s.rest)
      decreases |s.rest|
    {
      var eof, tag, wireType;
      ok, eof, tag, wireType := ReadTag(s);
      if !ok {
        return eof, dest, seen;
      }
      ok, dest, seen := DecodeRecord(s, iter, bitmap, tag, wireType, dest, seen);
      if !ok {
        return;
      }
    }
    ok := true;
  }

  /** pb_decode_noinit. */
  method DecodeNoInit(s: IStream, fields: seq<Field>, dest0: seq<Slot>) returns (ok: bool, dest: seq<Slot>)
    requires AllDistinct(fields) && ShapedMessage(fields, dest0)
    modifies s
    ensures match MessageAt(fields, dest0, old(s.rest))
            case None => !ok
            case Some(r) => ok && dest == r
    decreases fields, 2
  {
    var iter := new FieldIter(fields);
    var nonEmpty := iter.Begin();
    var bitmap := new FieldsSeen();
    ghost var seen;
    ok, dest, seen := DecodeRecords(s, iter, bitmap, dest0);
    if ok {
      ok := CheckRequired(iter, bitmap, seen);
    }
  }

  /** pb_decode. */
  method Decode(s: IStream, fields: seq<Field>) returns (ok: bool, dest: seq<Slot>)
    requires AllDistinct(fields)
    modifies s
    ensures ShapedMessage(fields, Defaults(fields))
    ensures match MessageAt(fields, Defaults(fields), old(s.rest))
            case None => !ok
            case Some(r) => ok && dest == r
    ensures forall slots :: HoldsMessage(fields, slots, old(s.rest)) ==>
              (ok <==> DecodableMessage(fields, slots)) && (ok ==> dest == RestoredMessage(fields, slots))
  {
    DefaultsShaped(fields);
    forall slots | HoldsMessage(fields, slots, s.rest)
      ensures MessageAt(fields, Defaults(fields), s.rest)
              == if DecodableMessage(fields, slots) then Some(RestoredMessage(fields, slots)) else None
    {
      MessageReads(fields, slots, s.rest);
    }
    ok, dest := DecodeNoInit(s, fields, Defaults(fields));
  }
}
