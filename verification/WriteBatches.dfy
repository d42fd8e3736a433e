/** Write batches as byte strings: the records of the log (db/write_batch.cc). */
module WriteBatches {
  import opened Coding
  import opened InternalKeys
  import opened Bytewise
  import opened History
  import opened Visibility

  const HEADER: nat := 12
  const TYPE_DELETION: Byte := 0
  const TYPE_VALUE: Byte := 1

  datatype Update = Write(key: Bytes, value: Bytes) | Remove(key: Bytes)

  /** The order of user keys is all the store uses of them. */
  function ToOp(u: Update): Op {
    match u
    case Write(key, value) => Op(Put, Rank(key), value)
    case Remove(key) => Op(Deletion, Rank(key), [])
  }

  function ToOps(us: seq<Update>): (ops: seq<Op>)
    ensures |ops| == |us|
  {
    seq(|us|, i requires 0 <= i < |us| => ToOp(us[i]))
  }

  // ---------- What updates leave in a memtable ----------

  /** The entries of updates numbered from `first`: a value for a write, a tombstone without one for a removal. */
  ghost function UpdateEntries(us: seq<Update>, first: nat): set<Entry> {
    set i | 0 <= i < |us| :: match us[i] {
      case Write(key, value) => Entry(IKey(Rank(key), first + i, Put), value)
      case Remove(key) => Entry(IKey(Rank(key), first + i, Deletion), [])
    }
  }

  lemma UpdateIsOp(u: Update, sequence: nat, e: Entry)
    ensures e == OpEntry(ToOp(u), sequence) <==>
            e == match u {
              case Write(key, value) => Entry(IKey(Rank(key), sequence, Put), value)
              case Remove(key) => Entry(IKey(Rank(key), sequence, Deletion), [])
            }
  {
  }

  lemma UpdatesAreOps(us: seq<Update>, first: nat)
    ensures UpdateEntries(us, first) == EntriesFrom(ToOps(us), first)
  {
    var ops := ToOps(us);
    forall e, i: nat | i < |us| && e == OpEntry(ops[i], first + i) ensures e in UpdateEntries(us, first) {
      UpdateIsOp(us[i], first + i, e);
    }
    forall e | e in UpdateEntries(us, first) ensures e in EntriesFrom(ops, first) {
      var i: nat :| i < |us| && e == match us[i] {
        case Write(key, value) => Entry(IKey(Rank(key), first + i, Put), value)
        case Remove(key) => Entry(IKey(Rank(key), first + i, Deletion), [])
      };
      UpdateIsOp(us[i], first + i, e);
      assert e == OpEntry(ops[i], first + i);
    }
  }

  /** Update i is the last one of a key that is visible at s. */
  ghost predicate IsLastUpdate(us: seq<Update>, first: nat, key: Bytes, s: nat, i: nat) {
    && i < |us| && first + i <= s && us[i].key == key
    && forall j: nat :: i < j < |us| && first + j <= s ==> us[j].key != key
  }

  /** What a reader of a key, byte for byte, finds among updates alone: its last visible update decides. A write is
      found with its value, and a removal hides what was there. */
  ghost predicate FindsLast(us: seq<Update>, first: nat, key: Bytes, s: nat, found: Option<Bytes>) {
    && ((forall i: nat :: i < |us| && first + i <= s ==> us[i].key != key) ==> found == None)
    && forall i: nat :: IsLastUpdate(us, first, key, s, i) ==>
                          found == if us[i].Write? then Some(us[i].value) else None
  }

  lemma NumberedUpdate(us: seq<Update>, first: nat, e: Entry) returns (i: nat)
    requires e in UpdateEntries(us, first)
    ensures i < |us| && e.key == IKey(Rank(us[i].key), first + i, if us[i].Write? then Put else Deletion)
  {
    i :| 0 <= i < |us| && e == match us[i] {
      case Write(key, value) => Entry(IKey(Rank(key), first + i, Put), value)
      case Remove(key) => Entry(IKey(Rank(key), first + i, Deletion), [])
    };
  }

  lemma EntryOfLast(us: seq<Update>, first: nat, key: Bytes, s: nat, i: nat, S: set<Entry>)
    requires IsLastUpdate(us, first, key, s, i) && S == UpdateEntries(us, first)
    ensures Read(S, Rank(key), s) == if us[i].Write? then Some(us[i].value) else None
  {
    var e := match us[i] {
      case Write(key, value) => Entry(IKey(Rank(key), first + i, Put), value)
      case Remove(key) => Entry(IKey(Rank(key), first + i, Deletion), [])
    };
    assert e in S;
    forall x | x in S && x.key.user == Rank(key) && x.key.sequence <= s ensures x.key.sequence <= first + i {
      var j := NumberedUpdate(us, first, x);
      RankEmbeds(us[j].key, key);
    }
    UpdatesAreOps(us, first);
    EntriesAreNumbered(ToOps(us), first);
    FindIs(S, Rank(key), s, e);
  }

  lemma LastUpdateDecides(us: seq<Update>, first: nat, key: Bytes, s: nat)
    ensures FindsLast(us, first, key, s, Read(UpdateEntries(us, first), Rank(key), s))
  {
    var S := UpdateEntries(us, first);
    if forall i: nat :: i < |us| && first + i <= s ==> us[i].key != key {
      forall x | x in S && x.key.user == Rank(key) ensures x.key.sequence > s {
        var j := NumberedUpdate(us, first, x);
        RankEmbeds(us[j].key, key);
      }
      FindIsAbsent(S, Rank(key), s);
    }
    forall i: nat | IsLastUpdate(us, first, key, s, i)
      ensures Read(S, Rank(key), s) == if us[i].Write? then Some(us[i].value) else None
    {
      EntryOfLast(us, first, key, s, i, S);
    }
  }

  // ---------- Encoding ----------

  function Encode(u: Update): (r: Bytes)
    ensures r != []
  {
    match u
    case Write(key, value) => [TYPE_VALUE] + LengthPrefixed(key) + LengthPrefixed(value)
    case Remove(key) => [TYPE_DELETION] + LengthPrefixed(key)
  }

  function Body(us: seq<Update>): Bytes {
    if us == [] then [] else Encode(us[0]) + Body(us[1..])
  }

  /** A batch; its count has 32 bits. */
  function Batch(sequence: nat, us: seq<Update>): Bytes
    requires sequence < TWO64
  {
    Fixed64(sequence) + Fixed(|us|, 4) + Body(us)
  }

  /** What the count field says of n updates. */
  function CountOf(n: nat): (c: nat)
    ensures c < TWO32 && c <= n && (n - c) % TWO32 == 0
    ensures c == n <==> n < TWO32
  {
    Wrapped(n);
    DecodeFixed32(Fixed(n, 4))
  }

  lemma Wrapped(n: nat)
    ensures var c := DecodeFixed32(Fixed(n, 4)); c <= n && (n - c) % TWO32 == 0 && (c == n <==> n < TWO32)
  {
    Powers();
    var q := FixedKeepsLowBytes(n, 4);
  }

  /** Adding to a count that has wrapped around. */
  lemma CountsAdd(a: nat, n: nat, b: nat)
    requires n <= b && (b - n) % TWO32 == 0
    ensures Fixed(CountOf(a) + n, 4) == Fixed(a + b, 4)
  {
    Powers();
    FixedWraps(a + b, CountOf(a) + n, 4, (a - CountOf(a)) / TWO32 + (b - n) / TWO32);
  }

  lemma {:induction false} BodyOfConcat(a: seq<Update>, b: seq<Update>)
    ensures Body(a + b) == Body(a) + Body(b)
  {
    if a == [] {
      assert a + b == b;
    } else {
      assert (a + b)[0] == a[0] && (a + b)[1..] == a[1..] + b;
      BodyOfConcat(a[1..], b);
    }
  }

  lemma PartsOf(a: Bytes, c: Bytes, body: Bytes)
    requires |a| == 8 && |c| == 4
    ensures var rep := a + c + body;
            |rep| >= HEADER && rep[HEADER..] == body && rep[8..] == c + body && rep == a + (c + body)
  {
  }

  lemma HeaderParts(sequence: nat, count: nat, a: Bytes, c: Bytes, body: Bytes)
    requires sequence < TWO64 && a == Fixed64(sequence) && c == Fixed(count, 4)
    ensures var rep := a + c + body;
            && |rep| >= HEADER && rep[HEADER..] == body && rep[8..] == c + body
            && DecodeFixed64(rep) == sequence && DecodeFixed32(rep[8..]) == CountOf(count)
  {
    PartsOf(a, c, body);
    Fixed64RoundTrip(sequence, c + body);
    DecodesFront(c, body, 4);
  }

  lemma BatchParts(sequence: nat, us: seq<Update>)
    requires sequence < TWO64
    ensures var rep := Batch(sequence, us);
            && |rep| >= HEADER && rep[HEADER..] == Body(us) && rep[8..] == Fixed(|us|, 4) + Body(us)
            && DecodeFixed64(rep) == sequence && DecodeFixed32(rep[8..]) == CountOf(|us|)
  {
    HeaderParts(sequence, |us|, Fixed64(sequence), Fixed(|us|, 4), Body(us));
  }

  // ---------- Decoding ----------

  datatype Status = Ok | TooSmall | BadPut | BadDelete | UnknownTag | WrongCount

  datatype Item = Item(update: Update, rest: Bytes) | Malformed(status: Status)

  function ParseItem(b: Bytes): (r: Item)
    requires b != []
    ensures r.Item? ==> |r.rest| < |b|
    ensures r.Malformed? ==> r.status != Ok
  {
    if b[0] == TYPE_VALUE then
      match GetLengthPrefixed(b[1..])
      case Failed => Malformed(BadPut)
      case Got(key, rest) =>
        match GetLengthPrefixed(rest)
        case Failed => Malformed(BadPut)
        case Got(value, rest) => Item(Write(key, value), rest)
    else if b[0] == TYPE_DELETION then
      match GetLengthPrefixed(b[1..])
      case Failed => Malformed(BadDelete)
      case Got(key, rest) => Item(Remove(key), rest)
    else
      Malformed(UnknownTag)
  }

  /** What a handler is told of a batch body, and how the iteration ends. */
  datatype Told = Told(updates: seq<Update>, status: Status)

  function ParseBody(b: Bytes): Told
    decreases |b|
  {
    if b == [] then Told([], Ok)
    else
      match ParseItem(b)
      case Malformed(status) => Told([], status)
      case Item(u, rest) => var told := ParseBody(rest); Told([u] + told.updates, told.status)
  }

  /** The count in the header must be right. */
  function Counted(told: Told, count: nat): Told {
    if told.status == Ok && |told.updates| != count then told.(status := WrongCount) else told
  }

  /** Iterate, over a whole batch. */
  function Parse(rep: Bytes): Told {
    if |rep| < HEADER then Told([], TooSmall)
    else Counted(ParseBody(rep[HEADER..]), DecodeFixed32(rep[8..]))
  }

  /** Keys and values whose length fits in 32 bits. */
  predicate Fits(us: seq<Update>) {
    forall u :: u in us ==> |u.key| < TWO32 && (u.Write? ==> |u.value| < TWO32)
  }

  lemma ItemRoundTrip(u: Update, rest: Bytes)
    requires |u.key| < TWO32 && (u.Write? ==> |u.value| < TWO32)
    ensures ParseItem(Encode(u) + rest) == Item(u, rest)
  {
    match u
    case Write(key, value) =>
      var k, v := LengthPrefixed(key), LengthPrefixed(value);
      LengthPrefixedRoundTrip(key, v + rest);
      LengthPrefixedRoundTrip(value, rest);
      BehindTag(TYPE_VALUE, k, v, rest);
      ParsesPut([TYPE_VALUE] + k + v + rest, key, value, k + (v + rest), v + rest, rest);
    case Remove(key) =>
      var k := LengthPrefixed(key);
      LengthPrefixedRoundTrip(key, rest);
      BehindTag(TYPE_DELETION, k, [], rest);
      assert [TYPE_DELETION] + k + rest == [TYPE_DELETION] + k + [] + rest && [] + rest == rest;
      ParsesDelete([TYPE_DELETION] + k + rest, key, k + rest, rest);
  }

  lemma BehindTag(t: Byte, k: Bytes, v: Bytes, rest: Bytes)
    ensures var b := [t] + k + v + rest; b[0] == t && b[1..] == k + (v + rest)
  {
  }

  lemma ParsesPut(b: Bytes, key: Bytes, value: Bytes, b1: Bytes, b2: Bytes, rest: Bytes)
    requires b != [] && b[0] == TYPE_VALUE && b[1..] == b1
    requires GetLengthPrefixed(b1) == Got(key, b2) && GetLengthPrefixed(b2) == Got(value, rest)
    ensures ParseItem(b) == Item(Write(key, value), rest)
  {
  }

  lemma ParsesDelete(b: Bytes, key: Bytes, b1: Bytes, rest: Bytes)
    requires b != [] && b[0] == TYPE_DELETION && b[1..] == b1 && GetLengthPrefixed(b1) == Got(key, rest)
    ensures ParseItem(b) == Item(Remove(key), rest)
  {
  }

  lemma {:induction false} BodyRoundTrip(us: seq<Update>)
    requires Fits(us)
    ensures ParseBody(Body(us)) == Told(us, Ok)
  {
    if us != [] {
      ItemRoundTrip(us[0], Body(us[1..]));
      BodyRoundTrip(us[1..]);
    }
  }

  /** A batch reads back as the updates put into it, exactly if there are not too many of them to count. */
  lemma BatchRoundTrip(sequence: nat, us: seq<Update>)
    requires sequence < TWO64 && Fits(us)
    ensures Parse(Batch(sequence, us)) == Told(us, if |us| < TWO32 then Ok else WrongCount)
  {
    BatchParts(sequence, us);
    BodyRoundTrip(us);
    ParseParts(Batch(sequence, us), Body(us), CountOf(|us|));
  }

  lemma ParseParts(rep: Bytes, body: Bytes, count: nat)
    requires |rep| >= HEADER && rep[HEADER..] == body && DecodeFixed32(rep[8..]) == count
    ensures Parse(rep) == Counted(ParseBody(body), count)
  {
  }

  /** The loop of Iterate: the handler is called for every update up to the first malformed one. */
  method IterateBody(body: Bytes) returns (told: Told)
    ensures told == ParseBody(body)
  {
    var input, handled := body, [];
    while input != []
      invariant ParseBody(body) == Told(handled + ParseBody(input).updates, ParseBody(input).status)
      decreases |input|
    {
      var item := ParseItem(input);
      match item
      case Malformed(status) =>
        return Told(handled, status);
      case Item(u, rest) =>
        assert handled + ([u] + ParseBody(rest).updates) == (handled + [u]) + ParseBody(rest).updates;
        handled := handled + [u];
        input := rest;
    }
    return Told(handled, Ok);
  }

  method Iterate(rep: Bytes) returns (told: Told)
    ensures told == Parse(rep)
  {
    if |rep| < HEADER {
      return Told([], TooSmall);
    }
    told := IterateBody(rep[HEADER..]);
    told := Counted(told, DecodeFixed32(rep[8..]));
  }

  lemma NoUpdates(us: seq<Update>, first: nat)
    ensures EntriesFrom(ToOps(us)[..0], first) == {}
  {
  }

  lemma OneMoreUpdate(us: seq<Update>, i: nat, first: nat)
    requires i < |us|
    ensures EntriesFrom(ToOps(us)[..i + 1], first) ==
            EntriesFrom(ToOps(us)[..i], first) + {OpEntry(ToOp(us[i]), first + i)}
  {
    var ops := ToOps(us);
    assert ops[..i + 1] == ops[..i] + [ops[i]];
    EntriesOfConcat(ops[..i], [ops[i]], first);
    assert EntriesFrom([ops[i]], first + i) == {OpEntry(ops[i], first + i)};
  }

  /** MemTableInserter: adds updates to a memtable, numbered from `sequence` on. */
  method Insert(us: seq<Update>, sequence: nat, mem: set<Entry>) returns (mem': set<Entry>)
    ensures mem' == mem + UpdateEntries(us, sequence)
  {
    hide EntriesFrom, UpdateEntries;
    mem' := mem;
    NoUpdates(us, sequence);
    for i := 0 to |us|
      invariant mem' == mem + EntriesFrom(ToOps(us)[..i], sequence)
    {
      OneMoreUpdate(us, i, sequence);
      mem' := mem' + {OpEntry(ToOp(us[i]), sequence + i)};
    }
    assert ToOps(us)[..|us|] == ToOps(us);
    UpdatesAreOps(us, sequence);
  }

  /** InsertInto: every update that the handler is told of becomes an entry. */
  method InsertInto(rep: Bytes, mem: set<Entry>) returns (mem': set<Entry>, status: Status)
    requires |rep| >= HEADER
    ensures status == Parse(rep).status
    ensures mem' == mem + UpdateEntries(Parse(rep).updates, DecodeFixed64(rep))
  {
    var told := Iterate(rep);
    mem' := Insert(told.updates, DecodeFixed64(rep), mem);
    status := told.status;
  }

  /** From bytes to reads: once a batch with these updates is inserted into an empty memtable, a reader of a key finds
      the value of its last update if that is a write, and nothing if it is a removal or if there is none. */
  lemma InsertedBatchReads(sequence: nat, us: seq<Update>, key: Bytes, s: nat)
    requires sequence < TWO64 && Fits(us)
    ensures var rep := Batch(sequence, us);
            |rep| >= HEADER &&
            FindsLast(us, sequence, key, s,
                      Read(UpdateEntries(Parse(rep).updates, DecodeFixed64(rep)), Rank(key), s))
  {
    BatchParts(sequence, us);
    BatchRoundTrip(sequence, us);
    LastUpdateDecides(us, sequence, key, s);
  }

  lemma Sliced(a: Bytes, c: Bytes, body: Bytes)
    requires |a| == 8 && |c| == 4
    ensures var rep := a + c + body; |rep| >= 12 && rep[..8] == a && rep[8..12] == c && rep[12..] == body
  {
  }

  /** The bytes of a batch: eight of its sequence number, four of its count, and one record for each update, with the
      type 1 for a write and 0 for a removal, and every string behind its length. */
  lemma BatchBytes(sequence: nat, us: seq<Update>, u: Update)
    requires sequence < TWO64
    ensures var rep, more := Batch(sequence, us), Batch(sequence, us + [u]);
            && |rep| >= 12 && rep[..8] == Fixed(sequence, 8) && rep[8..12] == Fixed(|us|, 4)
            && (us == [] ==> |rep| == 12)
            && |more| >= 12 && more[..8] == rep[..8] && more[8..12] == Fixed(|us| + 1, 4)
            && more[12..] == rep[12..] + match u {
                 case Write(key, value) =>
                   [1] + (Varint(|key| % 0x1_0000_0000) + key) + (Varint(|value| % 0x1_0000_0000) + value)
                 case Remove(key) => [0] + (Varint(|key| % 0x1_0000_0000) + key)
               }
  {
    BodyOfConcat(us, [u]);
    assert Body([u]) == Encode(u) + Body([]);
    Sliced(Fixed64(sequence), Fixed(|us|, 4), Body(us));
    Sliced(Fixed64(sequence), Fixed(|us| + 1, 4), Body(us + [u]));
  }

  lemma Rewritten(a: Bytes, c: Bytes, b: Bytes, rep: Bytes, c': Bytes, more: Bytes)
    requires |a| == 8 && |c| == 4 && rep == a + c + b
    ensures |rep| >= HEADER && rep[..8] + c' + rep[HEADER..] + more == a + c' + (b + more)
  {
    PartsOf(a, c, b);
  }

  /** Adding to the count and to the end of the body adds updates. */
  lemma AppendedBatch(sequence: nat, us: seq<Update>, more: seq<Update>, n: nat)
    requires sequence < TWO64 && n <= |more| && (|more| - n) % TWO32 == 0
    ensures var rep := Batch(sequence, us);
            && |rep| >= HEADER
            && rep[..8] + Fixed(CountOf(|us|) + n, 4) + rep[HEADER..] + Body(more) == Batch(sequence, us + more)
  {
    var a, c, b, m := Fixed64(sequence), Fixed(CountOf(|us|) + n, 4), Body(us), Body(more);
    CountsAdd(|us|, n, |more|);
    BodyOfConcat(us, more);
    Rewritten(a, Fixed(|us|, 4), b, Batch(sequence, us), c, m);
    BatchIs(sequence, us + more, a, c, b + m);
  }

  lemma BatchIs(sequence: nat, us: seq<Update>, a: Bytes, c: Bytes, b: Bytes)
    requires sequence < TWO64 && a == Fixed64(sequence) && c == Fixed(|us|, 4) && b == Body(us)
    ensures Batch(sequence, us) == a + c + b
  {
  }

  class WriteBatch {
    var rep: Bytes
    ghost var sequence: nat
    ghost var updates: seq<Update>

    ghost predicate Valid()
      reads this
    {
      sequence < TWO64 && rep == Batch(sequence, updates)
    }

    constructor ()
      ensures Valid() && updates == [] && sequence == 0
    {
      rep := seq(HEADER, _ => 0);
      sequence, updates := 0, [];
    }

    method Count() returns (n: nat)
      requires Valid()
      ensures n == CountOf(|updates|)
    {
      BatchParts(sequence, updates);
      n := DecodeFixed32(rep[8..]);
    }

    method SetSequence(s: nat)
      requires Valid() && s < TWO64
      modifies this
      ensures Valid() && sequence == s && updates == old(updates)
    {
      BatchParts(sequence, updates);
      PartsOf(Fixed64(s), Fixed(|updates|, 4), Body(updates));
      rep := Fixed64(s) + rep[8..];
      sequence := s;
    }

    /** Adds updates at the end: their number to the count, their bytes to the body. */
    method AppendBody(n: nat, body: Bytes, ghost us: seq<Update>)
      requires Valid() && body == Body(us) && n <= |us| && (|us| - n) % TWO32 == 0
      modifies this
      ensures Valid() && sequence == old(sequence) && updates == old(updates) + us
    {
      AppendedBatch(sequence, updates, us, n);
      var count := Count();
      rep := rep[..8] + Fixed(count + n, 4) + rep[HEADER..] + body;
      updates := updates + us;
    }

    method Put(key: Bytes, value: Bytes)
      requires Valid()
      modifies this
      ensures Valid() && sequence == old(sequence) && updates == old(updates) + [Write(key, value)]
    {
      var u := Write(key, value);
      assert Body([u]) == Encode(u) + Body([]);
      AppendBody(1, Encode(u), [u]);
    }

    method Delete(key: Bytes)
      requires Valid()
      modifies this
      ensures Valid() && sequence == old(sequence) && updates == old(updates) + [Remove(key)]
    {
      var u := Remove(key);
      assert Body([u]) == Encode(u) + Body([]);
      AppendBody(1, Encode(u), [u]);
    }

    method Append(src: WriteBatch)
      requires Valid() && src.Valid()
      modifies this
      ensures Valid() && sequence == old(sequence) && updates == old(updates + src.updates)
    {
      BatchParts(src.sequence, src.updates);
      var n := src.Count();
      AppendBody(n, src.rep[HEADER..], src.updates);
    }
  }
}
