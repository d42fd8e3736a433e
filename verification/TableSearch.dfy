/** Why looking a key up through the index finds it: the order of data blocks and separators. */
module TableSearch {
  import opened Coding
  import opened BlockFormat
  import opened BlockReader
  import opened TableContent

  /** Index position j is the first separator at or after key k. */
  ghost predicate SeekedTo(o: Order, seps: seq<Bytes>, k: Bytes, j: nat) {
    && j <= |seps|
    && (forall i {:trigger seps[i]} :: 0 <= i < j ==> o.key(seps[i]) < o.key(k))
    && (j < |seps| ==> o.key(k) <= o.key(seps[j]))
  }

  lemma AtMostLast(o: Order, entries: seq<KV>, i: nat)
    requires DataBlock(o, entries) && i < |entries|
    ensures o.key(First(entries)) <= o.key(entries[i].key) <= o.key(Last(entries))
  {
  }

  /** Everything before entry q of block j is before k, if that holds in the block. */
  lemma BeforeIsBefore(o: Order, blocks: seq<seq<KV>>, seps: seq<Bytes>, k: Bytes, j: nat, q: nat, p: nat)
    requires Sound(o, blocks, seps) && |seps| == |blocks| && SeekedTo(o, seps, k, j)
    requires if j < |blocks| then q <= |blocks[j]| && (forall i :: 0 <= i < q ==> o.key(blocks[j][i].key) < o.key(k))
             else q == 0
    requires p < Start(blocks, j) + q && p < |Flat(blocks)|
    ensures o.key(Flat(blocks)[p].key) < o.key(k)
  {
    var i, n := InSomeBlock(blocks, p);
    FlatAt(blocks, i, n);
    if i < j {
      assert DataBlock(o, blocks[i]) && SeparatorIs(o, blocks, seps, i);
      AtMostLast(o, blocks[i], n);
      assert o.key(seps[i]) < o.key(k);
    } else {
      StartsGrow(blocks, j, i);
    }
  }

  lemma {:induction false} StartsGrow(blocks: seq<seq<KV>>, i: nat, j: nat)
    requires i <= j <= |blocks|
    ensures Start(blocks, i) <= Start(blocks, j)
    ensures i < j ==> Start(blocks, i) + |blocks[i]| <= Start(blocks, j)
  {
    if i < j {
      assert blocks[..j][..j - 1] == blocks[..j - 1];
      StartsGrow(blocks, i, j - 1);
    }
  }

  lemma StartAtEnd(blocks: seq<seq<KV>>)
    ensures Start(blocks, |blocks|) == |Flat(blocks)|
  {
    assert blocks[..|blocks|] == blocks;
  }

  /** Where the first entry at or after k is, given the first separator at or after k and the place of k in
      that separator's block. */
  ghost function Target(blocks: seq<seq<KV>>, j: nat, q: nat): nat
    requires j <= |blocks|
  {
    Start(blocks, j) + q
  }

  lemma TargetIsLowerBound(o: Order, blocks: seq<seq<KV>>, seps: seq<Bytes>, k: Bytes, j: nat, q: nat)
    requires Sound(o, blocks, seps) && |seps| == |blocks| && SeekedTo(o, seps, k, j)
    requires if j < |blocks| then IsLowerBound(blocks[j], o.key, k, q) else q == 0
    ensures IsLowerBound(Flat(blocks), o.key, k, Target(blocks, j, q))
  {
    var all, p := Flat(blocks), Target(blocks, j, q);
    StartAtEnd(blocks);
    if j < |blocks| {
      assert DataBlock(o, blocks[j]) && SeparatorIs(o, blocks, seps, j);
      FlatAt(blocks, j, 0);
      if q < |blocks[j]| {
        FlatAt(blocks, j, q);
      } else if j + 1 < |blocks| {
        assert DataBlock(o, blocks[j + 1]);
        FlatAt(blocks, j + 1, 0);
      } else {
        assert blocks[..j + 1] == blocks;
      }
    }
    forall i | 0 <= i < p ensures o.key(all[i].key) < o.key(k) {
      BeforeIsBefore(o, blocks, seps, k, j, q, i);
    }
  }

  /** If the block holds nothing from k on, the next entry belongs to another user key. */
  lemma OtherUserKey(o: Order, blocks: seq<seq<KV>>, seps: seq<Bytes>, k: Bytes, j: nat)
    requires Sound(o, blocks, seps) && |seps| == |blocks| && SeekedTo(o, seps, k, j) && j + 1 < |blocks|
    requires blocks[j] != [] && o.key(Last(blocks[j])) < o.key(k)
    requires o.user(k) <= o.user(seps[j])
    ensures blocks[j + 1] != [] && Target(blocks, j, |blocks[j]|) < |Flat(blocks)|
    ensures Flat(blocks)[Target(blocks, j, |blocks[j]|)] == blocks[j + 1][0]
    ensures o.user(k) < o.user(First(blocks[j + 1]))
  {
    assert SeparatorIs(o, blocks, seps, j) && DataBlock(o, blocks[j + 1]);
    FlatAt(blocks, j, 0);
    FlatAt(blocks, j + 1, 0);
  }
}
