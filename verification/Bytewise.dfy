/** User keys and internal keys as byte strings: their order, the shortened keys that index blocks use,
    and the embedding of both orders into the reals (util/comparator.cc, db/dbformat.cc). */
module Bytewise {
  import opened Coding
  import opened InternalKeys

  // ---------- The order of user keys ----------

  /** Slice::compare: the first difference decides; a proper prefix comes first. */
  function CompareBytes(a: Bytes, b: Bytes): int {
    if a == [] || b == [] then (if a == b then 0 else if a == [] then -1 else 1)
    else if a[0] < b[0] then -1
    else if a[0] > b[0] then 1
    else CompareBytes(a[1..], b[1..])
  }

  predicate BytesLess(a: Bytes, b: Bytes) {
    CompareBytes(a, b) < 0
  }

  /** A byte string as a fraction in base 257, whose digit 0 ends the string. */
  function Rank(a: Bytes): (r: real)
    ensures 0.0 <= r < 1.0
    ensures r == 0.0 <==> a == []
  {
    if a == [] then 0.0 else (a[0] as real + 1.0 + Rank(a[1..])) / 257.0
  }

  /** Comparing byte strings is comparing their ranks. */
  lemma {:induction false} RankEmbeds(a: Bytes, b: Bytes)
    ensures CompareBytes(a, b) == if Rank(a) < Rank(b) then -1 else if Rank(a) > Rank(b) then 1 else 0
    ensures Rank(a) == Rank(b) <==> a == b
  {
    if a != [] && b != [] {
      RankEmbeds(a[1..], b[1..]);
      assert a == [a[0]] + a[1..] && b == [b[0]] + b[1..];
      if a[0] < b[0] {
        assert a[0] as real + 1.0 <= b[0] as real;
      } else if a[0] > b[0] {
        assert b[0] as real + 1.0 <= a[0] as real;
      }
    }
  }

  lemma {:induction false} CommonPrefix(p: Bytes, a: Bytes, b: Bytes)
    ensures CompareBytes(p + a, p + b) == CompareBytes(a, b)
  {
    if p == [] {
      assert p + a == a && p + b == b;
    } else {
      assert (p + a)[1..] == p[1..] + a && (p + b)[1..] == p[1..] + b;
      CommonPrefix(p[1..], a, b);
    }
  }

  /** The first difference decides. */
  lemma FirstDifference(a: Bytes, b: Bytes, i: nat)
    requires i < |a| && i < |b| && a[..i] == b[..i] && a[i] < b[i]
    ensures BytesLess(a, b)
  {
    assert a == a[..i] + a[i..] && b == b[..i] + b[i..];
    CommonPrefix(a[..i], a[i..], b[i..]);
  }

  // ---------- Separators and successors ----------

  function DiffersAt(a: Bytes, b: Bytes): (i: nat)
    ensures i <= |a| && i <= |b| && a[..i] == b[..i]
    ensures i < |a| && i < |b| ==> a[i] != b[i]
  {
    if a == [] || b == [] || a[0] != b[0] then 0
    else
      assert forall n :: 0 <= n <= |a| - 1 ==> a[..n + 1] == [a[0]] + a[1..][..n];
      assert forall n :: 0 <= n <= |b| - 1 ==> b[..n + 1] == [b[0]] + b[1..][..n];
      1 + DiffersAt(a[1..], b[1..])
  }

  lemma DiffersOnce(a: Bytes, b: Bytes, i: nat)
    requires i <= |a| && i <= |b| && a[..i] == b[..i]
    requires i == |a| || i == |b| || a[i] != b[i]
    ensures DiffersAt(a, b) == i
  {
    SamePrefix(a, b, i);
    SamePrefix(a, b, DiffersAt(a, b));
  }

  lemma SamePrefix(a: Bytes, b: Bytes, i: nat)
    requires i <= |a| && i <= |b| && a[..i] == b[..i]
    ensures forall j :: 0 <= j < i ==> a[j] == b[j]
  {
    forall j | 0 <= j < i ensures a[j] == b[j] {
      assert a[..i][j] == a[j] && b[..i][j] == b[j];
    }
  }

  /** A short string from start on and before limit; start itself where the code finds none. */
  method FindShortestSeparator(start: Bytes, limit: Bytes) returns (r: Bytes)
    ensures r == start || (BytesLess(start, r) && BytesLess(r, limit) && |r| <= |start|)
    ensures var i := DiffersAt(start, limit);
            r == if i < |start| && i < |limit| && start[i] as int + 1 < limit[i] as int
                 then start[..i] + [start[i] as int + 1] else start
  {
    var minLength := if |start| < |limit| then |start| else |limit|;
    var diffIndex := 0;
    while diffIndex < minLength && start[diffIndex] == limit[diffIndex]
      invariant diffIndex <= minLength && start[..diffIndex] == limit[..diffIndex]
    {
      diffIndex := diffIndex + 1;
    }
    DiffersOnce(start, limit, diffIndex);
    r := start;
    if diffIndex < minLength {
      var diffByte := start[diffIndex];
      if diffByte < 0xff && diffByte as int + 1 < limit[diffIndex] as int {
        r := start[..diffIndex] + [diffByte as int + 1];
        assert r[..diffIndex] == start[..diffIndex];
        FirstDifference(start, r, diffIndex);
        FirstDifference(r, limit, diffIndex);
      }
    }
  }

  /** A short string from key on; key itself if it has no byte to increment. */
  method FindShortSuccessor(key: Bytes) returns (r: Bytes)
    ensures |r| <= |key|
    ensures |r| < |key| <==> exists i :: 0 <= i < |key| - 1 && key[i] != 0xff
    ensures if forall i :: 0 <= i < |key| ==> key[i] == 0xff then r == key else BytesLess(key, r)
  {
    var n := |key|;
    for i := 0 to n
      invariant forall j :: 0 <= j < i ==> key[j] == 0xff
    {
      var byte := key[i];
      if byte != 0xff {
        r := key[..i] + [byte as int + 1];
        assert r[..i] == key[..i];
        FirstDifference(key, r, i);
        return;
      }
    }
    r := key;
  }

  // ---------- Internal keys ----------

  /** PackSequenceAndType. */
  function Pack(sequence: nat, kind: Kind): nat {
    Tag(IKey(0.0, sequence, kind))
  }

  function InternalKey(user: Bytes, tag: nat): (r: Bytes)
    requires tag < TWO64
    ensures |r| == |user| + 8
  {
    user + Fixed64(tag)
  }

  function ExtractUserKey(k: Bytes): Bytes
    requires |k| >= 8
  {
    k[..|k| - 8]
  }

  function ExtractTag(k: Bytes): nat
    requires |k| >= 8
  {
    DecodeFixed64(k[|k| - 8..])
  }

  /** InternalKeyComparator::Compare on encoded keys. */
  function CompareInternal(a: Bytes, b: Bytes): int
    requires |a| >= 8 && |b| >= 8
  {
    var r := CompareBytes(ExtractUserKey(a), ExtractUserKey(b));
    if r != 0 then r
    else if ExtractTag(a) > ExtractTag(b) then -1
    else if ExtractTag(a) < ExtractTag(b) then 1
    else 0
  }

  lemma ExtractsParts(user: Bytes, tag: nat)
    requires tag < TWO64
    ensures ExtractUserKey(InternalKey(user, tag)) == user
    ensures ExtractTag(InternalKey(user, tag)) == tag
  {
    var k := InternalKey(user, tag);
    assert k[..|k| - 8] == user && k[|k| - 8..] == Fixed64(tag) + [];
    Fixed64RoundTrip(tag, []);
  }

  /** The encoded key of an entry orders as its parts do, with user keys taken by rank. */
  lemma EncodingKeepsOrder(u: Bytes, s: nat, k: Kind, u': Bytes, s': nat, k': Kind)
    requires s <= MAX_SEQUENCE && s' <= MAX_SEQUENCE
    ensures CompareInternal(InternalKey(u, Pack(s, k)), InternalKey(u', Pack(s', k')))
            == Compare(IKey(Rank(u), s, k), IKey(Rank(u'), s', k'))
  {
    ExtractsParts(u, Pack(s, k));
    ExtractsParts(u', Pack(s', k'));
    RankEmbeds(u, u');
  }

  /** An encoded internal key, its user key taken by rank. */
  function KeyOf(b: Bytes): IKey {
    if |b| < 8 then IKey(0.0, 0, Deletion)
    else
      var tag := ExtractTag(b);
      IKey(Rank(ExtractUserKey(b)), tag / 256, if tag % 256 == 1 then Put else Deletion)
  }

  lemma KeyOfEncoding(user: Bytes, sequence: nat, kind: Kind)
    requires sequence <= MAX_SEQUENCE
    ensures KeyOf(InternalKey(user, Pack(sequence, kind))) == IKey(Rank(user), sequence, kind)
  {
    ExtractsParts(user, Pack(sequence, kind));
  }

  /** Encoded keys of known types order as what they stand for. */
  lemma KeyOfKeepsOrder(a: Bytes, b: Bytes)
    requires |a| >= 8 && |b| >= 8 && ExtractTag(a) % 256 <= 1 && ExtractTag(b) % 256 <= 1
    ensures CompareInternal(a, b) == Compare(KeyOf(a), KeyOf(b))
  {
    RankEmbeds(ExtractUserKey(a), ExtractUserKey(b));
  }

  // ---------- Internal keys by rank ----------

  /** A user key followed by a tag, larger tags first. */
  function TaggedRank(user: Bytes, tag: nat): (r: real)
    requires tag < TWO64
    ensures 0.0 < r < 1.0
    ensures user == [] <==> r < 1.0 / 257.0
  {
    if user == [] then (TWO64 - tag) as real / (257 * (TWO64 + 1)) as real
    else (user[0] as real + 1.0 + TaggedRank(user[1..], tag)) / 257.0
  }

  lemma {:induction false} TaggedRankEmbeds(u: Bytes, t: nat, u': Bytes, t': nat)
    requires t < TWO64 && t' < TWO64
    ensures var c := CompareBytes(u, u');
            TaggedRank(u, t) < TaggedRank(u', t') <==> c < 0 || (c == 0 && t > t')
    ensures TaggedRank(u, t) == TaggedRank(u', t') <==> u == u' && t == t'
  {
    if u != [] && u' != [] {
      TaggedRankEmbeds(u[1..], t, u'[1..], t');
      assert u == [u[0]] + u[1..] && u' == [u'[0]] + u'[1..];
      if u[0] < u'[0] {
        assert u[0] as real + 1.0 <= u'[0] as real;
      } else if u[0] > u'[0] {
        assert u'[0] as real + 1.0 <= u[0] as real;
      }
    }
  }

  /** Encoded internal keys as reals. Anything shorter than a tag is no internal key. */
  function InternalRank(k: Bytes): real {
    if |k| < 8 then 0.0 else TaggedRank(ExtractUserKey(k), ExtractTag(k))
  }

  lemma InternalRankEmbeds(a: Bytes, b: Bytes)
    requires |a| >= 8 && |b| >= 8
    ensures CompareInternal(a, b) < 0 <==> InternalRank(a) < InternalRank(b)
    ensures CompareInternal(a, b) == 0 <==> InternalRank(a) == InternalRank(b)
  {
    TaggedRankEmbeds(ExtractUserKey(a), ExtractTag(a), ExtractUserKey(b), ExtractTag(b));
    RankEmbeds(ExtractUserKey(a), ExtractUserKey(b));
  }

  /** The rank of the user key of an internal key. */
  function UserRank(k: Bytes): real {
    if |k| < 8 then 0.0 else Rank(ExtractUserKey(k))
  }

  lemma UserRankFollows(a: Bytes, b: Bytes)
    requires |a| >= 8 && |b| >= 8
    ensures InternalRank(a) <= InternalRank(b) ==> UserRank(a) <= UserRank(b)
    ensures UserRank(a) < UserRank(b) ==> InternalRank(a) < InternalRank(b)
    ensures UserRank(a) < UserRank(b) <==> BytesLess(ExtractUserKey(a), ExtractUserKey(b))
  {
    InternalRankEmbeds(a, b);
    RankEmbeds(ExtractUserKey(a), ExtractUserKey(b));
  }

  // ---------- Separators and successors of internal keys ----------

  /** The first internal key of a user key: the one every entry of the key comes after. */
  function FirstOf(user: Bytes): Bytes {
    InternalKey(user, Pack(MAX_SEQUENCE, Put))
  }

  lemma FirstOfIsBetween(start: Bytes, user: Bytes, limit: Bytes)
    requires |start| >= 8 && |limit| >= 8
    requires BytesLess(ExtractUserKey(start), user)
    ensures CompareInternal(start, FirstOf(user)) < 0 && ExtractUserKey(FirstOf(user)) == user
    ensures BytesLess(user, ExtractUserKey(limit)) ==> CompareInternal(FirstOf(user), limit) < 0
  {
    ExtractsParts(user, Pack(MAX_SEQUENCE, Put));
  }

  /** An internal key from start on and before limit, if start is. */
  method FindShortestInternalSeparator(start: Bytes, limit: Bytes) returns (r: Bytes)
    requires |start| >= 8 && |limit| >= 8
    ensures 8 <= |r| <= |start| && (|r| == |start| ==> r == start)
    ensures var u, l := ExtractUserKey(start), ExtractUserKey(limit);
            var i := DiffersAt(u, l);
            |r| < |start| <==> i < |u| - 1 && i < |l| && u[i] as int + 1 < l[i] as int
    ensures r == start || (CompareInternal(start, r) < 0 && CompareInternal(r, limit) < 0)
    ensures r == start || (BytesLess(ExtractUserKey(start), ExtractUserKey(r))
                           && BytesLess(ExtractUserKey(r), ExtractUserKey(limit)))
  {
    var userStart, userLimit := ExtractUserKey(start), ExtractUserKey(limit);
    var tmp := FindShortestSeparator(userStart, userLimit);
    r := start;
    if |tmp| < |userStart| && CompareBytes(userStart, tmp) < 0 {
      r := FirstOf(tmp);
      FirstOfIsBetween(start, tmp, limit);
    }
  }

  method FindShortInternalSuccessor(key: Bytes) returns (r: Bytes)
    requires |key| >= 8
    ensures 8 <= |r| <= |key| && (|r| == |key| ==> r == key)
    ensures var u := ExtractUserKey(key);
            |r| < |key| <==> exists i :: 0 <= i < |u| - 1 && u[i] != 0xff
    ensures r == key || (CompareInternal(key, r) < 0 && BytesLess(ExtractUserKey(key), ExtractUserKey(r)))
  {
    var userKey := ExtractUserKey(key);
    var tmp := FindShortSuccessor(userKey);
    r := key;
    if |tmp| < |userKey| && CompareBytes(userKey, tmp) < 0 {
      r := FirstOf(tmp);
      FirstOfIsBetween(key, tmp, key);
    }
  }
}
