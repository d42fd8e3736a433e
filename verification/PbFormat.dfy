/** The wire format in numbers (pb_encode.c, pb_decode.c; sections "Message Structure", "Signed Integers" and "Packed
    Repeated Fields" of the Protocol Buffers encoding guide), and arrays that come in several pieces. */
module PbFormat {
  import opened Coding
  import opened Visibility
  import opened PbFields
  import opened PbMessages
  import opened PbDecode
  import opened PbDecoding

  /** A key is eight times the tag and the wire type: 0 for varints, 1 for eight bytes, 2 for a length and as many
      bytes, 5 for four bytes. */
  lemma KeysOfRecords(tag: nat, k: Kind, after: Bytes)
    requires 0 < tag < 0x2000_0000
    ensures var wireType := if k.Varint? || k.UVarint? || k.SVarint? then 0
                            else if k.Fixed64? then 1 else if k.Fixed32? then 5 else 2;
            TagAt(Coding.Varint(8 * tag + wireType) + after) == TagRead(tag, wireType, after)
            && Tag(tag, WireType(k)) == Coding.Varint(8 * tag + wireType)
  {
    TagReads(tag, WireType(k), after);
  }

  /** Plain numbers are the low bits of two's complement; those of signed types alternate, 0, -1, 1, -2, 2 and so on;
      fixed ones are little-endian. */
  lemma NumbersInBytes(k: Kind, n: int, after: Bytes)
    requires NumberOk(k, n)
    ensures NumberAt(k, (match k
                         case Varint(_) => Coding.Varint(if n < 0 then n + 0x1_0000_0000_0000_0000 else n)
                         case UVarint(_) => Coding.Varint(n)
                         case SVarint(_) => Coding.Varint(if n < 0 then -2 * n - 1 else 2 * n)
                         case Fixed32 => Fixed(n, 4)
                         case Fixed64 => Fixed(n, 8)) + after) == Got(n, after)
  {
    NumberReads(k, n, after);
  }

  // ---------- Arrays in pieces ----------

  /** A packed piece of an array, or a single number with a tag of its own. */
  datatype Piece = Packed(ns: seq<int>) | Plain(n: int)

  function Numbers(piece: Piece): seq<int> {
    match piece case Packed(ns) => ns case Plain(n) => [n]
  }

  predicate AllOk(k: Kind, ns: seq<int>) {
    forall i :: 0 <= i < |ns| ==> NumberOk(k, ns[i])
  }

  predicate PieceOk(k: Kind, piece: Piece) {
    match piece case Packed(ns) => AllOk(k, ns) case Plain(n) => NumberOk(k, n)
  }

  function BytesOf(k: Kind, ns: seq<int>): Bytes
    requires AllOk(k, ns)
  {
    if ns == [] then [] else NumberBytes(k, ns[0]) + BytesOf(k, ns[1..])
  }

  function PieceWireType(k: Kind, piece: Piece): nat {
    if piece.Packed? then 2 else WireType(k)
  }

  function Payload(k: Kind, piece: Piece): Bytes
    requires PieceOk(k, piece)
  {
    match piece case Packed(ns) => Prefixed(BytesOf(k, ns)) case Plain(n) => NumberBytes(k, n)
  }

  function PieceBytes(f: Field, piece: Piece): Bytes
    requires PieceOk(f.kind, piece)
  {
    Tag(f.tag, PieceWireType(f.kind, piece)) + Payload(f.kind, piece)
  }

  function AsValues(ns: seq<int>): (vs: seq<Value>)
    ensures |vs| == |ns|
  {
    seq(|ns|, i requires 0 <= i < |ns| => Number(ns[i]))
  }

  lemma {:induction false} PackedAppends(f: Field, vs: seq<Value>, ns: seq<int>)
    requires f.rule.Repeated? && Scalar(f.kind) && |vs| + |ns| <= f.rule.arraySize
    requires AllOk(f.kind, ns)
    ensures PackedAt(f, vs, BytesOf(f.kind, ns)) == Some(vs + AsValues(ns))
    decreases |ns|
  {
    if ns == [] {
      assert vs + AsValues(ns) == vs;
    } else {
      var rest := BytesOf(f.kind, ns[1..]);
      NumberReads(f.kind, ns[0], rest);
      PackedAppends(f, vs + [Number(ns[0])], ns[1..]);
      assert AsValues(ns) == [Number(ns[0])] + AsValues(ns[1..]);
      assert vs + AsValues(ns) == vs + [Number(ns[0])] + AsValues(ns[1..]);
    }
  }

  lemma PieceAppends(f: Field, vs: seq<Value>, piece: Piece, after: Bytes)
    requires Distinct(f) && f.rule.Repeated? && Scalar(f.kind) && PieceOk(f.kind, piece)
    requires ShapedSlot(f, Many(vs)) && |vs| + |Numbers(piece)| <= f.rule.arraySize
    requires |PieceBytes(f, piece)| < TWO32
    ensures SlotAt(f, PieceWireType(f.kind, piece), Many(vs), Payload(f.kind, piece) + after)
            == Got(Many(vs + AsValues(Numbers(piece))), after)
  {
    match piece
    case Packed(ns) =>
      var content := BytesOf(f.kind, ns);
      Associate(Coding.Varint(|content|), content, after);
      Varint32Reads(|content|, content + after);
      assert (content + after)[..|content|] == content && (content + after)[|content|..] == after;
      PackedAppends(f, vs, ns);
    case Plain(n) =>
      NumberReads(f.kind, n, after);
      assert AsValues([n]) == [Number(n)];
  }

  /** However the numbers of an array are divided into packed pieces and single ones, they add up in order, as long as
      the array has room. */
  lemma PieceIsRead(fields: seq<Field>, p: Partial, i: nat, piece: Piece, after: Bytes)
    requires AllDistinct(fields) && ShapedMessage(fields, p.dest) && i < |fields|
    requires var f := fields[i];
             && f.rule.Repeated? && Scalar(f.kind) && 0 < f.tag < 0x2000_0000 && PieceOk(f.kind, piece)
             && p.dest[i].Many? && |p.dest[i].values| + |Numbers(piece)| <= f.rule.arraySize
             && |PieceBytes(f, piece)| < TWO32
    ensures RecordsAt(fields, p, PieceBytes(fields[i], piece) + after) ==
            var more := Many(p.dest[i].values + AsValues(Numbers(piece)));
            RecordsAt(fields, Partial(p.dest[i := more], p.seen + {i}), after)
  {
    hide SlotAt, Payload, PieceWireType, TagAt, Distinct;
    var f := fields[i];
    var wireType, payload := PieceWireType(f.kind, piece), Payload(f.kind, piece);
    PieceAppends(f, p.dest[i].values, piece, after);
    Associate(Tag(f.tag, wireType), payload, after);
    PieceTag(f, piece, payload + after);
    OnlyField(fields, i);
  }

  lemma PieceTag(f: Field, piece: Piece, after: Bytes)
    requires 0 < f.tag < 0x2000_0000
    ensures TagAt(Tag(f.tag, PieceWireType(f.kind, piece)) + after)
            == TagRead(f.tag, PieceWireType(f.kind, piece), after)
  {
    TagReads(f.tag, PieceWireType(f.kind, piece), after);
  }

  lemma OnlyField(fields: seq<Field>, i: nat)
    requires AllDistinct(fields) && i < |fields|
    ensures FieldWithTag(fields, fields[i].tag) == i
  {
  }

  // ---------- Fields without a record ----------

  ghost predicate IsUnset(f: Field, s: Slot) {
    match f.rule
    case Repeated(_) => s == Many([])
    case Optional => s.Maybe? && !s.has
    case Required => s.Single? && (Scalar(f.kind) ==> s.value == Number(0))
                     && (f.kind.StringOf? || f.kind.BytesOf? ==> s.value == Data([]))
  }

  lemma {:induction false} NoRecords(fields: seq<Field>, p: Partial)
    requires AllDistinct(fields) && ShapedMessage(fields, p.dest)
    ensures RecordsAt(fields, p, []) == Some(p)
  {
  }

  lemma {:induction false} DefaultIsUnset(f: Field)
    ensures IsUnset(f, DefaultSlot(f))
  {
  }

  /** The empty input is a message exactly if none of the first 64 required fields is in the descriptor. Then no
      optional field is present, arrays are empty, numbers are zero, and strings and byte arrays are empty. */
  lemma {:induction false} EmptyInput(fields: seq<Field>, i: nat)
    requires AllDistinct(fields) && i < |fields|
    ensures ShapedMessage(fields, Defaults(fields))
    ensures var r := MessageAt(fields, Defaults(fields), []);
            && (r.None? <==> exists n ::
                  0 <= n < |fields| && fields[n].rule.Required? && RequiredBefore(fields, n) < 64)
            && (r.Some? ==> |r.value| == |fields| && IsUnset(fields[i], r.value[i]))
  {
    DefaultsShaped(fields);
    NoRecords(fields, Partial(Defaults(fields), {}));
    DefaultIsUnset(fields[i]);
    hide RecordsAt, DefaultSlot, AllDistinct, ShapedMessage, IsUnset;
  }
}
