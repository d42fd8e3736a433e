/** Filter policies and the filter block of a table (table/filter_block.cc). */
module Filters {
  import opened Coding

  /** How filters are made and asked. */
  datatype Policy = Policy(create: seq<Bytes> -> Bytes, mayMatch: (Bytes, Bytes) -> bool)

  ghost predicate NoFalseNegatives(p: Policy) {
    forall keys: seq<Bytes>, k: Bytes :: k in keys ==> p.mayMatch(k, p.create(keys))
  }

  const FILTER_BASE_LG: Byte := 11
  const FILTER_BASE: nat := 2048

  /** The bytes of the i-th filter. */
  function FilterOf(p: Policy, group: seq<Bytes>): Bytes {
    if group == [] then [] else p.create(group)
  }

  function Concat(p: Policy, groups: seq<seq<Bytes>>): Bytes {
    if groups == [] then [] else Concat(p, groups[..|groups| - 1]) + FilterOf(p, groups[|groups| - 1])
  }

  function StartOf(p: Policy, groups: seq<seq<Bytes>>, i: nat): nat
    requires i <= |groups|
  {
    |Concat(p, groups[..i])|
  }

  /** Where each filter starts. */
  ghost predicate OffsetsAre(p: Policy, groups: seq<seq<Bytes>>, offsets: seq<nat>) {
    |offsets| == |groups| && forall i :: 0 <= i < |offsets| ==> offsets[i] == StartOf(p, groups, i)
  }

  lemma OneMoreGroup(p: Policy, groups: seq<seq<Bytes>>, group: seq<Bytes>)
    ensures Concat(p, groups + [group]) == Concat(p, groups) + FilterOf(p, group)
    ensures forall i :: 0 <= i <= |groups| ==> StartOf(p, groups + [group], i) == StartOf(p, groups, i)
  {
    var more := groups + [group];
    assert more[..|groups|] == groups;
    forall i | 0 <= i <= |groups| ensures more[..i] == groups[..i] {
    }
  }

  /** The keys of every filter are exactly those that were added for it. */
  ghost predicate KeysAre(groups: seq<seq<Bytes>>, keys: seq<Bytes>, added: set<(nat, Bytes)>) {
    && (forall i, k :: 0 <= i < |groups| ==> (k in groups[i] <==> (i, k) in added))
    && (forall k :: k in keys <==> (|groups|, k) in added)
    && forall a :: a in added ==> a.0 <= |groups|
  }

  class FilterBlockBuilder {
    const policy: Policy
    /** The keys for the filter to come. */
    var keys: seq<Bytes>
    var result: Bytes
    var filterOffsets: seq<nat>
    /** The keys of every finished filter, and the keys added so far with the number of their filter. */
    ghost var groups: seq<seq<Bytes>>
    ghost var added: set<(nat, Bytes)>
    ghost var started: nat

    ghost predicate Valid()
      reads this
    {
      && OffsetsAre(policy, groups, filterOffsets) && result == Concat(policy, groups)
      && started / FILTER_BASE == |groups| && KeysAre(groups, keys, added)
    }

    constructor (policy: Policy)
      ensures Valid() && this.policy == policy && added == {} && started == 0
    {
      this.policy := policy;
      keys, result, filterOffsets := [], [], [];
      groups, added, started := [], {}, 0;
    }

    method StartBlock(blockOffset: nat)
      requires Valid() && started <= blockOffset
      modifies this
      ensures Valid() && started == blockOffset && added == old(added)
    {
      var filterIndex := blockOffset / FILTER_BASE;
      assert filterIndex >= |filterOffsets|;
      while filterIndex > |filterOffsets|
        invariant Valid0() && |filterOffsets| <= filterIndex && added == old(added)
        decreases filterIndex - |filterOffsets|
      {
        GenerateFilter();
      }
      started := blockOffset;
    }

    ghost predicate Valid0()
      reads this
    {
      && OffsetsAre(policy, groups, filterOffsets) && result == Concat(policy, groups) && KeysAre(groups, keys, added)
    }

    /** Adds a key of the block that started last. */
    method AddKey(key: Bytes)
      requires Valid()
      modifies this`keys, this`added
      ensures Valid() && added == old(added) + {(started / FILTER_BASE, key)}
    {
      keys := keys + [key];
      added := added + {(started / FILTER_BASE, key)};
    }

    method GenerateFilter()
      requires Valid0()
      modifies this
      ensures Valid0() && |groups| == old(|groups|) + 1 && added == old(added) && keys == [] && started == old(started)
    {
      OneMoreGroup(policy, groups, keys);
      assert groups[..|groups|] == groups;
      filterOffsets := filterOffsets + [|result|];
      groups := groups + [keys];
      if keys != [] {
        result := result + policy.create(keys);
        keys := [];
      }
    }

    method Finish() returns (contents: Bytes)
      requires Valid()
      modifies this
      ensures added == old(added) && contents == Finished(policy, groups)
      ensures forall a :: a in added ==> a.0 < |groups| && a.1 in groups[a.0]
      ensures forall i, k :: 0 <= i < |groups| && k in groups[i] ==> (i, k) in added
    {
      if keys != [] {
        GenerateFilter();
      }
      var arrayOffset := |result|;
      assert filterOffsets == Offsets(policy, groups);
      contents := PutFixed32s(result, filterOffsets);
      contents := contents + Fixed(arrayOffset, 4);
      OneMoreWord(filterOffsets, arrayOffset);
      Associate(result, Fixed32Array(filterOffsets), Fixed(arrayOffset, 4));
      contents := contents + [FILTER_BASE_LG];
    }
  }

  function Offsets(p: Policy, groups: seq<seq<Bytes>>): (r: seq<nat>)
    ensures OffsetsAre(p, groups, r)
  {
    seq(|groups|, i requires 0 <= i < |groups| => StartOf(p, groups, i))
  }

  function Words(p: Policy, groups: seq<seq<Bytes>>): (r: seq<nat>)
    ensures |r| == |groups| + 1
    ensures forall i :: 0 <= i <= |groups| ==> r[i] == StartOf(p, groups, i)
  {
    assert groups[..|groups|] == groups;
    Offsets(p, groups) + [|Concat(p, groups)|]
  }

  /** The filters, where each starts, where the last one ends, and the logarithm of the base. */
  function Finished(p: Policy, groups: seq<seq<Bytes>>): Bytes {
    Concat(p, groups) + Fixed32Array(Words(p, groups)) + [FILTER_BASE_LG]
  }

  // ---------- Reading ----------

  function Shift(n: nat, bits: nat): nat {
    if bits == 0 then n else Shift(n / 2, bits - 1)
  }

  /** The filter between two offsets; what does not make sense matches everything. */
  function Matches(p: Policy, contents: Bytes, words: nat, start: nat, limit: nat, key: Bytes): bool
    requires words <= |contents|
  {
    if start <= limit <= words then p.mayMatch(key, contents[start..limit]) else start != limit
  }

  lemma WordsInArray(n: nat, words: nat, index: nat)
    requires 5 <= n && words <= n - 5
    ensures index < (n - 5 - words) / 4 <==> words + index * 4 + 8 <= n - 1
  {
  }

  /** FilterBlockReader: malformed contents match everything. */
  function KeyMayMatch(p: Policy, contents: Bytes, blockOffset: nat, key: Bytes): bool {
    var n := |contents|;
    if n < 5 then true
    else
      var words := Word(contents, n - 5);
      if words > n - 5 then true
      else
        var num, index := (n - 5 - words) / 4, Shift(blockOffset, contents[n - 1] as int);
        WordsInArray(n, words, index);
        if index >= num then true
        else
          var start, limit := Word(contents, words + index * 4), Word(contents, words + index * 4 + 4);
          Matches(p, contents, words, start, limit, key)
  }

  lemma {:induction false} ConcatGrows(p: Policy, groups: seq<seq<Bytes>>, i: nat)
    requires i < |groups|
    ensures StartOf(p, groups, i) + |FilterOf(p, groups[i])| == StartOf(p, groups, i + 1) <= |Concat(p, groups)|
    ensures Concat(p, groups)[StartOf(p, groups, i)..StartOf(p, groups, i + 1)] == FilterOf(p, groups[i])
  {
    var n := |groups| - 1;
    var front := groups[..n];
    assert groups[..n + 1] == groups;
    if i < n {
      assert front[..i] == groups[..i] && front[..i + 1] == groups[..i + 1];
      ConcatGrows(p, front, i);
      InFront(Concat(p, front), FilterOf(p, groups[n]), |Concat(p, groups[..i])|, |Concat(p, groups[..i + 1])|);
    } else {
      InFront(Concat(p, front), FilterOf(p, groups[n]), 0, 0);
    }
  }

  lemma InFront(a: Bytes, b: Bytes, i: nat, j: nat)
    requires i <= j <= |a|
    ensures (a + b)[i..j] == a[i..j]
    ensures (a + b)[|a|..|a + b|] == b
  {
  }

  lemma ShiftBase(n: nat)
    ensures Shift(n, FILTER_BASE_LG as int) == n / FILTER_BASE
  {
    ShiftFour(n, 7);
    ShiftFour(n / 16, 3);
    assert Shift(n / 256, 3) == Shift(n / 512, 2) == Shift(n / 1024, 1) == Shift(n / 2048, 0);
  }

  lemma ShiftFour(n: nat, bits: nat)
    ensures Shift(n, bits + 4) == Shift(n / 16, bits)
  {
    assert Shift(n, bits + 4) == Shift(n / 2, bits + 3) == Shift(n / 4, bits + 2) == Shift(n / 8, bits + 1);
  }

  lemma OneMoreWord(vs: seq<nat>, v: nat)
    ensures Fixed32Array(vs + [v]) == Fixed32Array(vs) + Fixed(v, 4)
  {
    assert (vs + [v])[..|vs|] == vs;
  }

  lemma InMiddle(a: Bytes, b: Bytes, c: Bytes, i: nat, j: nat)
    requires i <= j <= |b|
    ensures (a + b + c)[|a| + i..|a| + j] == b[i..j]
  {
  }

  lemma WordInMiddle(a: Bytes, b: Bytes, c: Bytes, i: nat, v: nat, all: Bytes)
    requires i + 4 <= |b| && v < TWO32 && b[i..i + 4] == Fixed(v, 4) && all == a + b + c
    ensures Word(all, |a| + i) == v
  {
    InMiddle(a, b, c, i, i + 4);
    Fixed32At(all, |a| + i, v);
  }

  /** The bytes of an array of words. */
  ghost predicate IsArray(b: Bytes, words: seq<nat>) {
    && |b| == 4 * |words|
    && forall i {:trigger words[i]} :: 0 <= i < |words| ==> b[4 * i..4 * i + 4] == Fixed(words[i], 4)
  }

  lemma ArrayOf(words: seq<nat>)
    ensures IsArray(Fixed32Array(words), words)
  {
    forall i | 0 <= i < |words| ensures Fixed32Array(words)[4 * i..4 * i + 4] == Fixed(words[i], 4) {
      Fixed32ArrayAt(words, i);
    }
  }

  /** What the reader finds in the offset array and in the word behind it. */
  ghost predicate WordsAre(all: Bytes, words: seq<nat>, end: nat) {
    && |all| == end + 4 * |words| + 1 && all[|all| - 1] == FILTER_BASE_LG
    && forall i {:trigger words[i]} :: 0 <= i < |words| ==> Word(all, end + 4 * i) == words[i] <= end
  }

  lemma WordsRead(c: Bytes, b: Bytes, words: seq<nat>, all: Bytes)
    requires all == c + b + [FILTER_BASE_LG] && IsArray(b, words) && |all| < TWO32
    requires forall i :: 0 <= i < |words| ==> words[i] <= |c|
    ensures WordsAre(all, words, |c|)
  {
    forall i | 0 <= i < |words| ensures Word(all, |c| + 4 * i) == words[i] {
      WordInMiddle(c, b, [FILTER_BASE_LG], 4 * i, words[i], all);
    }
  }

  /** Reading with those words asks the right filter. */
  lemma AsksFilter(p: Policy, all: Bytes, words: seq<nat>, end: nat, blockOffset: nat, key: Bytes)
    requires WordsAre(all, words, end) && blockOffset / FILTER_BASE + 1 < |words| && words[|words| - 1] == end
    ensures var i := blockOffset / FILTER_BASE;
            KeyMayMatch(p, all, blockOffset, key) == Matches(p, all, end, words[i], words[i + 1], key)
  {
    var i, m := blockOffset / FILTER_BASE, |words| - 1;
    ShiftBase(blockOffset);
    assert Word(all, end + 4 * m) == words[m];
    assert Word(all, end + 4 * i) == words[i];
    assert Word(all, end + 4 * (i + 1)) == words[i + 1];
    KeyMayMatchReads(p, all, end, blockOffset, i, words[i], words[i + 1], key);
  }

  lemma WordsWithin(p: Policy, groups: seq<seq<Bytes>>)
    ensures forall i :: 0 <= i <= |groups| ==> Words(p, groups)[i] <= |Concat(p, groups)|
  {
    assert groups[..|groups|] == groups;
    forall i | 0 <= i < |groups| ensures StartOf(p, groups, i) <= |Concat(p, groups)| {
      ConcatGrows(p, groups, i);
    }
  }

  /** The bytes of filter i in the finished filter block. */
  lemma FilterBytes(p: Policy, groups: seq<seq<Bytes>>, i: nat)
    requires i < |groups|
    ensures StartOf(p, groups, i) <= StartOf(p, groups, i + 1) <= |Concat(p, groups)|
    ensures Finished(p, groups)[StartOf(p, groups, i)..StartOf(p, groups, i + 1)] == FilterOf(p, groups[i])
  {
    ConcatGrows(p, groups, i);
    Associate(Concat(p, groups), Fixed32Array(Words(p, groups)), [FILTER_BASE_LG]);
    InFront(Concat(p, groups), Fixed32Array(Words(p, groups)) + [FILTER_BASE_LG],
            StartOf(p, groups, i), StartOf(p, groups, i + 1));
  }

  /** A key that was added for a block is never reported as missing from it. */
  lemma AddedKeysMatch(p: Policy, groups: seq<seq<Bytes>>, blockOffset: nat, key: Bytes)
    requires NoFalseNegatives(p) && |Finished(p, groups)| < TWO32
    requires blockOffset / FILTER_BASE < |groups| && key in groups[blockOffset / FILTER_BASE]
    ensures KeyMayMatch(p, Finished(p, groups), blockOffset, key)
  {
    var i, words, all := blockOffset / FILTER_BASE, Words(p, groups), Finished(p, groups);
    FinishedReads(p, groups);
    FilterBytes(p, groups, i);
    MatchesGroup(p, all, words, |Concat(p, groups)|, blockOffset, key, groups[i]);
  }

  /** The finished filter block answers as the policy does about the filter of the range; there is none for keys behind
      the last range, which match. */
  lemma AsksThePolicy(p: Policy, groups: seq<seq<Bytes>>, blockOffset: nat, key: Bytes)
    requires |Finished(p, groups)| < TWO32
    ensures KeyMayMatch(p, Finished(p, groups), blockOffset, key) ==
            if blockOffset / 2048 >= |groups| then true
            else
              var group := groups[blockOffset / 2048];
              p.mayMatch(key, if group == [] then [] else p.create(group))
  {
    hide WordsAre, Finished, Words, Concat, KeyMayMatch;
    var i, words, all := blockOffset / FILTER_BASE, Words(p, groups), Finished(p, groups);
    FinishedReads(p, groups);
    if i < |groups| {
      FilterBytes(p, groups, i);
      StartsAre(p, groups, i);
      AsksFilter(p, all, words, |Concat(p, groups)|, blockOffset, key);
      FinishedIsLonger(p, groups);
    } else {
      BehindTheRanges(p, all, words, |Concat(p, groups)|, blockOffset, key);
    }
  }

  lemma StartsAre(p: Policy, groups: seq<seq<Bytes>>, i: nat)
    requires i < |groups|
    ensures Words(p, groups)[i] == StartOf(p, groups, i) && Words(p, groups)[i + 1] == StartOf(p, groups, i + 1)
  {
    assert groups[..|groups|] == groups;
  }

  lemma FinishedIsLonger(p: Policy, groups: seq<seq<Bytes>>)
    ensures |Concat(p, groups)| <= |Finished(p, groups)|
  {
  }

  lemma BehindTheRanges(p: Policy, all: Bytes, words: seq<nat>, end: nat, blockOffset: nat, key: Bytes)
    requires WordsAre(all, words, end) && words != [] && words[|words| - 1] == end
    requires blockOffset / FILTER_BASE >= |words| - 1
    ensures KeyMayMatch(p, all, blockOffset, key)
  {
    ShiftBase(blockOffset);
    assert Word(all, end + 4 * (|words| - 1)) == words[|words| - 1];
  }

  lemma FinishedReads(p: Policy, groups: seq<seq<Bytes>>)
    requires |Finished(p, groups)| < TWO32
    ensures WordsAre(Finished(p, groups), Words(p, groups), |Concat(p, groups)|)
    ensures Words(p, groups)[|groups|] == |Concat(p, groups)|
  {
    var words := Words(p, groups);
    WordsWithin(p, groups);
    ArrayOf(words);
    WordsRead(Concat(p, groups), Fixed32Array(words), words, Finished(p, groups));
    assert groups[..|groups|] == groups;
  }

  lemma MatchesGroup(
    p: Policy, all: Bytes, words: seq<nat>, end: nat, blockOffset: nat, key: Bytes, group: seq<Bytes>)
    requires NoFalseNegatives(p) && key in group
    requires WordsAre(all, words, end) && blockOffset / FILTER_BASE + 1 < |words| && words[|words| - 1] == end
    requires var i := blockOffset / FILTER_BASE;
             words[i] <= words[i + 1] <= end <= |all| && all[words[i]..words[i + 1]] == FilterOf(p, group)
    ensures KeyMayMatch(p, all, blockOffset, key)
  {
    AsksFilter(p, all, words, end, blockOffset, key);
    assert p.mayMatch(key, p.create(group));
  }

  lemma KeyMayMatchReads(
    p: Policy, all: Bytes, end: nat, blockOffset: nat, i: nat, start: nat, limit: nat, key: Bytes)
    requires |all| >= end + 4 * i + 9 && Word(all, |all| - 5) == end && i == Shift(blockOffset, all[|all| - 1] as int)
    requires Word(all, end + 4 * i) == start && Word(all, end + 4 * i + 4) == limit
    ensures KeyMayMatch(p, all, blockOffset, key) == Matches(p, all, end, start, limit, key)
  {
    WordsInArray(|all|, end, i);
  }
}
