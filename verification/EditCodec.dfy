/** Version edits as byte strings: the records of the manifest (db/version_edit.cc). */
module EditCodec {
  import opened Coding
  import opened Visibility

  const NUM_LEVELS: nat := 7

  const COMPARATOR: nat := 1
  const LOG_NUMBER: nat := 2
  const NEXT_FILE_NUMBER: nat := 3
  const LAST_SEQUENCE: nat := 4
  const COMPACT_POINTER: nat := 5
  const DELETED_FILE: nat := 6
  const NEW_FILE: nat := 7
  const PREV_LOG_NUMBER: nat := 9

  /** FileMetaData; keys are encoded internal keys. */
  datatype FileData = FileData(number: nat, size: nat, smallest: Bytes, largest: Bytes)

  datatype FileEdit = FileEdit(
    comparator: Option<Bytes>, logNumber: Option<nat>, prevLogNumber: Option<nat>,
    nextFileNumber: Option<nat>, lastSequence: Option<nat>,
    compactPointers: seq<(nat, Bytes)>, deleted: set<(nat, nat)>, added: seq<(nat, FileData)>)

  /** One tagged field. */
  datatype Item =
    | Comparator(name: Bytes)
    | LogNumber(n: nat)
    | PrevLogNumber(n: nat)
    | NextFileNumber(n: nat)
    | LastSequence(n: nat)
    | CompactPointer(level: nat, key: Bytes)
    | DeletedFile(level: nat, n: nat)
    | NewFile(level: nat, file: FileData)

  // ---------- Fields ----------

  function Number(tag: nat, n: nat): Bytes {
    Varint(tag) + Varint(n)
  }

  function Encode(i: Item): (r: Bytes)
    ensures r != []
  {
    match i
    case Comparator(name) => Varint(COMPARATOR) + LengthPrefixed(name)
    case LogNumber(n) => Number(LOG_NUMBER, n)
    case PrevLogNumber(n) => Number(PREV_LOG_NUMBER, n)
    case NextFileNumber(n) => Number(NEXT_FILE_NUMBER, n)
    case LastSequence(n) => Number(LAST_SEQUENCE, n)
    case CompactPointer(level, key) => Varint(COMPACT_POINTER) + (Varint(level) + LengthPrefixed(key))
    case DeletedFile(level, n) => Varint(DELETED_FILE) + (Varint(level) + Varint(n))
    case NewFile(level, f) => Varint(NEW_FILE) + (Varint(level) + FileBytes(f))
  }

  function FileBytes(f: FileData): Bytes {
    Varint(f.number) + (Varint(f.size) + (LengthPrefixed(f.smallest) + LengthPrefixed(f.largest)))
  }

  /** The tags of the fields, byte for byte. (Tag 8 is no longer in use.) */
  lemma TagBytes(i: Item)
    ensures Encode(i) == match i {
              case Comparator(name) => [1] + LengthPrefixed(name)
              case LogNumber(n) => [2] + Varint(n)
              case NextFileNumber(n) => [3] + Varint(n)
              case LastSequence(n) => [4] + Varint(n)
              case CompactPointer(level, key) => [5] + (Varint(level) + LengthPrefixed(key))
              case DeletedFile(level, n) => [6] + (Varint(level) + Varint(n))
              case NewFile(level, f) =>
                [7] + (Varint(level) + (Varint(f.number)
                                        + (Varint(f.size) + (LengthPrefixed(f.smallest) + LengthPrefixed(f.largest)))))
              case PrevLogNumber(n) => [9] + Varint(n)
            }
  {
  }

  function Map<T, U>(d: Decoded<T>, f: T -> U): Decoded<U> {
    match d case Failed => Failed case Got(v, rest) => Got(f(v), rest)
  }

  function GetLevel(b: Bytes): Decoded<nat> {
    match GetVarint32(b)
    case Failed => Failed
    case Got(v, rest) => if v < NUM_LEVELS then Got(v, rest) else Failed
  }

  function GetFile(b: Bytes): Decoded<FileData> {
    match GetVarint64(b)
    case Failed => Failed
    case Got(number, b1) =>
      match GetVarint64(b1)
      case Failed => Failed
      case Got(size, b2) =>
        match GetLengthPrefixed(b2)
        case Failed => Failed
        case Got(smallest, b3) =>
          match GetLengthPrefixed(b3)
          case Failed => Failed
          case Got(largest, rest) => Got(FileData(number, size, smallest, largest), rest)
  }

  /** What follows the level of a compaction pointer, a deleted file or a new file. */
  function DecodeAtLevel(tag: nat, level: nat, b: Bytes): Decoded<Item> {
    if tag == COMPACT_POINTER then Map(GetLengthPrefixed(b), key => CompactPointer(level, key))
    else if tag == DELETED_FILE then Map(GetVarint64(b), n => DeletedFile(level, n))
    else Map(GetFile(b), f => NewFile(level, f))
  }

  /** What follows a tag. */
  function DecodeTagged(tag: nat, b: Bytes): Decoded<Item> {
    if tag == COMPARATOR then Map(GetLengthPrefixed(b), name => Comparator(name))
    else if tag == LOG_NUMBER then Map(GetVarint64(b), n => LogNumber(n))
    else if tag == PREV_LOG_NUMBER then Map(GetVarint64(b), n => PrevLogNumber(n))
    else if tag == NEXT_FILE_NUMBER then Map(GetVarint64(b), n => NextFileNumber(n))
    else if tag == LAST_SEQUENCE then Map(GetVarint64(b), n => LastSequence(n))
    else if tag == COMPACT_POINTER || tag == DELETED_FILE || tag == NEW_FILE then
      match GetLevel(b)
      case Failed => Failed
      case Got(level, rest) => DecodeAtLevel(tag, level, rest)
    else Failed
  }

  function Decode(b: Bytes): Decoded<Item> {
    match GetVarint32(b)
    case Failed => Failed
    case Got(tag, rest) => DecodeTagged(tag, rest)
  }

  predicate FileFits(f: FileData) {
    f.number < TWO64 && f.size < TWO64 && |f.smallest| < TWO32 && |f.largest| < TWO32
  }

  /** Numbers of 64 bits, levels of the store, and strings whose length fits in 32 bits. */
  predicate Fits(i: Item) {
    match i
    case Comparator(name) => |name| < TWO32
    case LogNumber(n) => n < TWO64
    case PrevLogNumber(n) => n < TWO64
    case NextFileNumber(n) => n < TWO64
    case LastSequence(n) => n < TWO64
    case CompactPointer(level, key) => level < NUM_LEVELS && |key| < TWO32
    case DeletedFile(level, n) => level < NUM_LEVELS && n < TWO64
    case NewFile(level, f) => level < NUM_LEVELS && FileFits(f)
  }

  lemma FileRoundTrip(f: FileData, rest: Bytes)
    requires FileFits(f)
    ensures GetFile(FileBytes(f) + rest) == Got(f, rest)
  {
    var b3 := LengthPrefixed(f.largest) + rest;
    var b2 := LengthPrefixed(f.smallest) + b3;
    var b1 := Varint(f.size) + b2;
    assert FileBytes(f) + rest == Varint(f.number) + b1;
    Varint64RoundTrip(f.number, b1);
    Varint64RoundTrip(f.size, b2);
    LengthPrefixedRoundTrip(f.smallest, b3);
    LengthPrefixedRoundTrip(f.largest, rest);
  }

  lemma NumberRoundTrip(tag: nat, n: nat, rest: Bytes)
    requires tag < TWO32 && n < TWO64
    ensures Decode(Number(tag, n) + rest) == DecodeTagged(tag, Varint(n) + rest)
    ensures GetVarint64(Varint(n) + rest) == Got(n, rest)
  {
    assert Number(tag, n) + rest == Varint(tag) + (Varint(n) + rest);
    Varint32RoundTrip(tag, Varint(n) + rest);
    Varint64RoundTrip(n, rest);
  }

  lemma LevelRoundTrip(tag: nat, level: nat, body: Bytes, rest: Bytes)
    requires tag in {COMPACT_POINTER, DELETED_FILE, NEW_FILE} && level < NUM_LEVELS
    ensures Decode(Varint(tag) + (Varint(level) + body) + rest) == DecodeAtLevel(tag, level, body + rest)
  {
    assert Varint(tag) + (Varint(level) + body) + rest == Varint(tag) + (Varint(level) + (body + rest));
    Varint32RoundTrip(tag, Varint(level) + (body + rest));
    Varint32RoundTrip(level, body + rest);
  }

  lemma LevelItemRoundTrip(i: Item, rest: Bytes)
    requires Fits(i) && (i.CompactPointer? || i.DeletedFile? || i.NewFile?)
    ensures Decode(Encode(i) + rest) == Got(i, rest)
  {
    match i
    case CompactPointer(level, key) =>
      LevelRoundTrip(COMPACT_POINTER, level, LengthPrefixed(key), rest);
      LengthPrefixedRoundTrip(key, rest);
    case DeletedFile(level, n) =>
      LevelRoundTrip(DELETED_FILE, level, Varint(n), rest);
      Varint64RoundTrip(n, rest);
    case NewFile(level, f) =>
      LevelRoundTrip(NEW_FILE, level, FileBytes(f), rest);
      FileRoundTrip(f, rest);
  }

  lemma NameRoundTrip(name: Bytes, rest: Bytes)
    requires |name| < TWO32
    ensures Decode(Varint(COMPARATOR) + LengthPrefixed(name) + rest) == Got(Comparator(name), rest)
  {
    assert Varint(COMPARATOR) + LengthPrefixed(name) + rest == Varint(COMPARATOR) + (LengthPrefixed(name) + rest);
    Varint32RoundTrip(COMPARATOR, LengthPrefixed(name) + rest);
    LengthPrefixedRoundTrip(name, rest);
  }

  lemma ItemRoundTrip(i: Item, rest: Bytes)
    requires Fits(i)
    ensures Decode(Encode(i) + rest) == Got(i, rest)
  {
    match i
    case Comparator(name) => NameRoundTrip(name, rest);
    case LogNumber(n) => NumberRoundTrip(LOG_NUMBER, n, rest);
    case PrevLogNumber(n) => NumberRoundTrip(PREV_LOG_NUMBER, n, rest);
    case NextFileNumber(n) => NumberRoundTrip(NEXT_FILE_NUMBER, n, rest);
    case LastSequence(n) => NumberRoundTrip(LAST_SEQUENCE, n, rest);
    case CompactPointer(_, _) => LevelItemRoundTrip(i, rest);
    case DeletedFile(_, _) => LevelItemRoundTrip(i, rest);
    case NewFile(_, _) => LevelItemRoundTrip(i, rest);
  }

  // ---------- Lists of fields ----------

  function EncodeAll<T>(encode: T -> Bytes, items: seq<T>): Bytes {
    if items == [] then [] else encode(items[0]) + EncodeAll(encode, items[1..])
  }

  /** Decodes to the end of the input. */
  function DecodeAll<T>(decode: Bytes -> Decoded<T>, b: Bytes): Option<seq<T>>
    decreases |b|
  {
    if b == [] then Some([])
    else
      match decode(b)
      case Failed => None
      case Got(i, rest) =>
        if |rest| >= |b| then None
        else
          match DecodeAll(decode, rest)
          case None => None
          case Some(items) => Some([i] + items)
  }

  ghost predicate Inverse<T>(encode: T -> Bytes, decode: Bytes -> Decoded<T>, i: T) {
    encode(i) != [] && forall rest :: decode(encode(i) + rest) == Got(i, rest)
  }

  lemma {:induction false} ListRoundTrip<T>(encode: T -> Bytes, decode: Bytes -> Decoded<T>, items: seq<T>)
    requires forall i :: i in items ==> Inverse(encode, decode, i)
    ensures DecodeAll(decode, EncodeAll(encode, items)) == Some(items)
  {
    if items != [] {
      ListRoundTrip(encode, decode, items[1..]);
      var rest := EncodeAll(encode, items[1..]);
      assert Inverse(encode, decode, items[0]);
      assert decode(encode(items[0]) + rest) == Got(items[0], rest);
      assert EncodeAll(encode, items) == encode(items[0]) + rest;
      assert [items[0]] + items[1..] == items;
    }
  }

  lemma {:induction false} EncodeAllAppend<T>(encode: T -> Bytes, a: seq<T>, b: seq<T>)
    ensures EncodeAll(encode, a + b) == EncodeAll(encode, a) + EncodeAll(encode, b)
  {
    if a == [] {
      assert a + b == b;
    } else {
      assert (a + b)[0] == a[0] && (a + b)[1..] == a[1..] + b;
      EncodeAllAppend(encode, a[1..], b);
    }
  }

  lemma ItemsRoundTrip(items: seq<Item>)
    requires forall i :: i in items ==> Fits(i)
    ensures DecodeAll(Decode, EncodeAll(Encode, items)) == Some(items)
  {
    forall i | i in items ensures Inverse(Encode, Decode, i) {
      forall rest: Bytes ensures Decode(Encode(i) + rest) == Got(i, rest) {
        ItemRoundTrip(i, rest);
      }
    }
    ListRoundTrip(Encode, Decode, items);
  }

  // ---------- Edits ----------

  /** What DecodeFrom does with a field. */
  function Apply(e: FileEdit, i: Item): FileEdit {
    match i
    case Comparator(name) => e.(comparator := Some(name))
    case LogNumber(n) => e.(logNumber := Some(n))
    case PrevLogNumber(n) => e.(prevLogNumber := Some(n))
    case NextFileNumber(n) => e.(nextFileNumber := Some(n))
    case LastSequence(n) => e.(lastSequence := Some(n))
    case CompactPointer(level, key) => e.(compactPointers := e.compactPointers + [(level, key)])
    case DeletedFile(level, n) => e.(deleted := e.deleted + {(level, n)})
    case NewFile(level, f) => e.(added := e.added + [(level, f)])
  }

  function ApplyAll(e: FileEdit, items: seq<Item>): FileEdit
    decreases |items|
  {
    if items == [] then e else ApplyAll(Apply(e, items[0]), items[1..])
  }

  lemma {:induction false} ApplyAppend(e: FileEdit, a: seq<Item>, b: seq<Item>)
    ensures ApplyAll(e, a + b) == ApplyAll(ApplyAll(e, a), b)
    decreases |a|
  {
    if a == [] {
      assert a + b == b;
    } else {
      assert (a + b)[0] == a[0] && (a + b)[1..] == a[1..] + b;
      ApplyAppend(Apply(e, a[0]), a[1..], b);
    }
  }

  /** Clear leaves the compaction pointers alone. */
  function Cleared(e: FileEdit): FileEdit {
    FileEdit(None, None, None, None, None, e.compactPointers, {}, [])
  }

  function OneIf(o: Option<nat>, f: nat -> Item): seq<Item> {
    if o.Some? then [f(o.value)] else []
  }

  function Header(e: FileEdit): seq<Item> {
    (if e.comparator.Some? then [Comparator(e.comparator.value)] else [])
    + OneIf(e.logNumber, (n: nat) => LogNumber(n)) + OneIf(e.prevLogNumber, (n: nat) => PrevLogNumber(n))
    + OneIf(e.nextFileNumber, (n: nat) => NextFileNumber(n)) + OneIf(e.lastSequence, (n: nat) => LastSequence(n))
  }

  function Pointers(ps: seq<(nat, Bytes)>): seq<Item> {
    seq(|ps|, i requires 0 <= i < |ps| => CompactPointer(ps[i].0, ps[i].1))
  }

  function Deletions(ds: seq<(nat, nat)>): seq<Item> {
    seq(|ds|, i requires 0 <= i < |ds| => DeletedFile(ds[i].0, ds[i].1))
  }

  function Additions(fs: seq<(nat, FileData)>): seq<Item> {
    seq(|fs|, i requires 0 <= i < |fs| => NewFile(fs[i].0, fs[i].1))
  }

  /** The fields of an edit, its deleted files in some order. */
  function Items(e: FileEdit, order: seq<(nat, nat)>): seq<Item> {
    Header(e) + Pointers(e.compactPointers) + Deletions(order) + Additions(e.added)
  }

  ghost predicate Lists(order: seq<(nat, nat)>, s: set<(nat, nat)>) {
    forall d :: d in s <==> d in order
  }

  lemma {:induction false} ApplyPointers(e: FileEdit, ps: seq<(nat, Bytes)>)
    ensures ApplyAll(e, Pointers(ps)) == e.(compactPointers := e.compactPointers + ps)
    decreases |ps|
  {
    if ps != [] {
      assert Pointers(ps)[1..] == Pointers(ps[1..]);
      ApplyPointers(e.(compactPointers := e.compactPointers + [ps[0]]), ps[1..]);
      assert (e.compactPointers + [ps[0]]) + ps[1..] == e.compactPointers + ps;
    } else {
      assert e.compactPointers + ps == e.compactPointers;
    }
  }

  lemma {:induction false} ApplyAdditions(e: FileEdit, fs: seq<(nat, FileData)>)
    ensures ApplyAll(e, Additions(fs)) == e.(added := e.added + fs)
    decreases |fs|
  {
    if fs != [] {
      assert Additions(fs)[1..] == Additions(fs[1..]);
      ApplyAdditions(e.(added := e.added + [fs[0]]), fs[1..]);
      assert (e.added + [fs[0]]) + fs[1..] == e.added + fs;
    } else {
      assert e.added + fs == e.added;
    }
  }

  function Set(ds: seq<(nat, nat)>): set<(nat, nat)> {
    set d | d in ds
  }

  lemma {:induction false} ApplyDeletions(e: FileEdit, ds: seq<(nat, nat)>)
    ensures ApplyAll(e, Deletions(ds)) == e.(deleted := e.deleted + Set(ds))
    decreases |ds|
  {
    if ds != [] {
      assert Deletions(ds)[1..] == Deletions(ds[1..]);
      ApplyDeletions(e.(deleted := e.deleted + {ds[0]}), ds[1..]);
      assert ds == [ds[0]] + ds[1..];
      assert (e.deleted + {ds[0]}) + Set(ds[1..]) == e.deleted + Set(ds);
    } else {
      assert e.deleted + Set(ds) == e.deleted;
    }
  }

  lemma ApplyHeader(e: FileEdit, was: FileEdit)
    ensures ApplyAll(Cleared(was), Header(e))
            == e.(compactPointers := was.compactPointers, deleted := {}, added := [])
  {
    var a := if e.comparator.Some? then [Comparator(e.comparator.value)] else [];
    var b, c := OneIf(e.logNumber, (n: nat) => LogNumber(n)), OneIf(e.prevLogNumber, (n: nat) => PrevLogNumber(n));
    var d, f := OneIf(e.nextFileNumber, (n: nat) => NextFileNumber(n)),
        OneIf(e.lastSequence, (n: nat) => LastSequence(n));
    var s0 := Cleared(was);
    ApplyAppend(s0, a + b + c + d, f);
    ApplyAppend(s0, a + b + c, d);
    ApplyAppend(s0, a + b, c);
    ApplyAppend(s0, a, b);
    var s1 := s0.(comparator := e.comparator);
    assert ApplyAll(s0, a) == s1;
    var s2 := s1.(logNumber := e.logNumber);
    ApplyOne(s1, b, s2);
    var s3 := s2.(prevLogNumber := e.prevLogNumber);
    ApplyOne(s2, c, s3);
    var s4 := s3.(nextFileNumber := e.nextFileNumber);
    ApplyOne(s3, d, s4);
    ApplyOne(s4, f, s4.(lastSequence := e.lastSequence));
  }

  lemma ApplyOne(e: FileEdit, items: seq<Item>, after: FileEdit)
    requires |items| <= 1 && after == if items == [] then e else Apply(e, items[0])
    ensures ApplyAll(e, items) == after
  {
    if items != [] {
      assert items[1..] == [];
    }
  }

  /** Decoding the fields of e into an edit restores e, behind the compaction pointers that the edit had before. */
  lemma ItemsRestore(e: FileEdit, order: seq<(nat, nat)>, was: FileEdit)
    requires Lists(order, e.deleted)
    ensures ApplyAll(Cleared(was), Items(e, order)) == e.(compactPointers := was.compactPointers + e.compactPointers)
  {
    var h, p, d, a := Header(e), Pointers(e.compactPointers), Deletions(order), Additions(e.added);
    ApplyAppend(Cleared(was), h + p + d, a);
    ApplyAppend(Cleared(was), h + p, d);
    ApplyAppend(Cleared(was), h, p);
    ApplyHeader(e, was);
    var e1 := e.(compactPointers := was.compactPointers, deleted := {}, added := []);
    ApplyPointers(e1, e.compactPointers);
    var e2 := e1.(compactPointers := was.compactPointers + e.compactPointers);
    ApplyDeletions(e2, order);
    assert Set(order) == e.deleted && e2.deleted + Set(order) == e.deleted;
    var e3 := e2.(deleted := e.deleted);
    ApplyAdditions(e3, e.added);
    assert e3.added + e.added == e.added;
  }

  // ---------- The methods ----------

  /** EncodeTo: a set of deleted files is iterated in increasing order. */
  method EncodeTo(e: FileEdit, dst: Bytes, order: seq<(nat, nat)>) returns (r: Bytes)
    requires Lists(order, e.deleted)
    ensures r == dst + EncodeAll(Encode, Items(e, order))
  {
    r := PutItems(Encode, dst, Header(e));
    r := PutItems(Encode, r, Pointers(e.compactPointers));
    r := PutItems(Encode, r, Deletions(order));
    r := PutItems(Encode, r, Additions(e.added));
    var h, p, d, a := Header(e), Pointers(e.compactPointers), Deletions(order), Additions(e.added);
    EncodeAllAppend(Encode, h + p + d, a);
    EncodeAllAppend(Encode, h + p, d);
    EncodeAllAppend(Encode, h, p);
    AppendFour(dst, EncodeAll(Encode, h), EncodeAll(Encode, p), EncodeAll(Encode, d), EncodeAll(Encode, a));
  }

  lemma AppendFour(z: Bytes, a: Bytes, b: Bytes, c: Bytes, d: Bytes)
    ensures z + a + b + c + d == z + (a + b + c + d)
  {
  }

  lemma OneMore<T>(encode: T -> Bytes, items: seq<T>, i: nat)
    requires i < |items|
    ensures EncodeAll(encode, items[..i + 1]) == EncodeAll(encode, items[..i]) + encode(items[i])
  {
    assert items[..i + 1] == items[..i] + [items[i]];
    EncodeAllAppend(encode, items[..i], [items[i]]);
    assert [items[i]][1..] == [];
  }

  method PutItems(encode: Item -> Bytes, dst: Bytes, items: seq<Item>) returns (r: Bytes)
    ensures r == dst + EncodeAll(encode, items)
  {
    r := dst;
    for i := 0 to |items|
      invariant r == dst + EncodeAll(encode, items[..i])
    {
      OneMore(encode, items, i);
      r := r + encode(items[i]);
    }
    assert items[..|items|] == items;
  }

  /** What DecodeFrom leaves behind if the input holds these fields, or fails to decode. */
  ghost predicate Outcome(start: FileEdit, items: Option<seq<Item>>, e: FileEdit, ok: bool) {
    match items
    case None => !ok
    case Some(items) => ok && e == ApplyAll(start, items)
  }

  /** The loop of DecodeFrom. */
  method DecodeFields(decode: Bytes -> Decoded<Item>, start: FileEdit, src: Bytes) returns (e: FileEdit, ok: bool)
    requires forall b :: decode(b).Got? ==> |decode(b).rest| < |b|
    ensures Outcome(start, DecodeAll(decode, src), e, ok)
  {
    e := start;
    var input := src;
    while input != []
      invariant forall x, y ::
                Outcome(e, DecodeAll(decode, input), x, y) ==> Outcome(start, DecodeAll(decode, src), x, y)
      decreases |input|
    {
      var d := decode(input);
      match d
      case Failed =>
        ok := false;
        assert Outcome(e, DecodeAll(decode, input), e, ok);
        return;
      case Got(i, rest) =>
        e := Apply(e, i);
        input := rest;
    }
    ok := true;
    assert Outcome(e, DecodeAll(decode, input), e, ok);
  }

  /** DecodeFrom, into an edit that may have been used before. */
  method DecodeFrom(was: FileEdit, src: Bytes) returns (e: FileEdit, ok: bool)
    ensures match DecodeAll(Decode, src)
            case None => !ok
            case Some(items) => ok && e == ApplyAll(Cleared(was), items)
  {
    forall b ensures Decode(b).Got? ==> |Decode(b).rest| < |b| {
      DecodeShortens(b);
    }
    e, ok := DecodeFields(Decode, Cleared(was), src);
  }

  lemma DecodeShortens(b: Bytes)
    ensures Decode(b).Got? ==> |Decode(b).rest| < |b|
  {
  }

  /** An edit that is written and read back is the same; but reading into an edit that has compaction pointers
      keeps them, so the result is the same exactly if it has none. */
  lemma EditRoundTrip(e: FileEdit, order: seq<(nat, nat)>, was: FileEdit)
    requires Lists(order, e.deleted) && forall i :: i in Items(e, order) ==> Fits(i)
    ensures DecodeAll(Decode, EncodeAll(Encode, Items(e, order))) == Some(Items(e, order))
    ensures ApplyAll(Cleared(was), Items(e, order)) == e <==> was.compactPointers == []
  {
    ItemsRoundTrip(Items(e, order));
    ItemsRestore(e, order, was);
    assert |was.compactPointers + e.compactPointers| == |was.compactPointers| + |e.compactPointers|;
    assert [] + e.compactPointers == e.compactPointers;
  }
}
