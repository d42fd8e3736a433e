/** The merging iterator (table/merger.cc): several sorted children presented as one. */
module Merging {
  import opened InternalKeys
  import opened Versions
  import opened CompactionWork
  import opened Cursors

  // ---------- The union of the children ----------

  /** How many entries of a child come before position n of the union. */
  function CountBefore(es: seq<Entry>, union: seq<Entry>, n: nat): nat
    requires n <= |union|
  {
    if n == |union| then |es| else LowerBound(es, union[n].key)
  }

  /** `union` lists exactly the entries of the children, in order, and no two children share one. */
  ghost predicate IsUnion(children: seq<Cursor>, union: seq<Entry>) {
    && Sorted(union)
    && (forall i :: 0 <= i < |children| ==> Sorted(children[i].entries))
    && (forall e {:trigger e in union} :: e in union <==> exists i :: 0 <= i < |children| && e in children[i].entries)
    && (forall i, j, e :: 0 <= i < j < |children| && e in children[i].entries ==> e !in children[j].entries)
  }

  lemma CountIs(es: seq<Entry>, target: IKey, c: nat)
    requires Sorted(es) && c <= |es|
    requires forall i :: 0 <= i < c ==> Less(es[i].key, target)
    requires forall i :: c <= i < |es| ==> !Less(es[i].key, target)
    ensures LowerBound(es, target) == c
  {
    var b := LowerBound(es, target);
    assert b < |es| ==> !Less(es[b].key, target);
    assert c < |es| ==> !Less(es[c].key, target);
  }

  lemma BoundSplits(es: seq<Entry>, target: IKey)
    requires Sorted(es)
    ensures forall i :: LowerBound(es, target) <= i < |es| ==> !Less(es[i].key, target)
  {
    var b := LowerBound(es, target);
    forall i | b <= i < |es| ensures !Less(es[i].key, target) {
      assert b < i ==> Less(es[b].key, es[i].key);
    }
  }

  /** Where the child stands before position n of the union: entries below come earlier in the union. */
  ghost predicate SplitsChild(es: seq<Entry>, union: seq<Entry>, n: nat, c: nat) {
    && n <= |union| && c <= |es|
    && (forall a, b :: 0 <= a < c && n <= b < |union| ==> Less(es[a].key, union[b].key))
    && (forall a, b :: c <= a < |es| && 0 <= b < n ==> Less(union[b].key, es[a].key))
  }

  lemma CountSplits(es: seq<Entry>, union: seq<Entry>, n: nat)
    requires Sorted(es) && Sorted(union) && n <= |union| && forall e :: e in es ==> e in union
    ensures SplitsChild(es, union, n, CountBefore(es, union, n))
  {
    var c := CountBefore(es, union, n);
    if n < |union| {
      BoundSplits(es, union[n].key);
      forall a, b | 0 <= a < c && n <= b < |union| ensures Less(es[a].key, union[b].key) {
        assert Less(es[a].key, union[n].key);
        assert n < b ==> Less(union[n].key, union[b].key);
      }
      forall a, b | c <= a < |es| && 0 <= b < n ensures Less(union[b].key, es[a].key) {
        assert Less(union[b].key, union[n].key) && !Less(es[a].key, union[n].key);
      }
    }
  }

  lemma SplitIsCount(es: seq<Entry>, union: seq<Entry>, n: nat, c: nat)
    requires Sorted(es) && Sorted(union) && SplitsChild(es, union, n, c) && forall e :: e in es ==> e in union
    ensures c == CountBefore(es, union, n)
  {
    if n < |union| {
      forall i | c <= i < |es| ensures !Less(es[i].key, union[n].key) {
        assert es[i] in union;
        var b :| 0 <= b < |union| && union[b] == es[i];
        assert b < n ==> Less(union[b].key, es[i].key);
        assert n < b ==> Less(union[n].key, union[b].key);
      }
      CountIs(es, union[n].key, c);
    } else {
      if es != [] {
        var last := |es| - 1;
        assert es[last] in union;
        var b :| 0 <= b < |union| && union[b] == es[last];
        assert !Less(union[b].key, es[last].key);
      }
    }
  }

  /** Passing one entry of the union passes one entry of the child it belongs to, and none of another. */
  lemma CountStep(es: seq<Entry>, union: seq<Entry>, n: nat)
    requires Sorted(es) && Sorted(union) && n < |union| && forall e :: e in es ==> e in union
    ensures CountBefore(es, union, n + 1) == CountBefore(es, union, n) + if union[n] in es then 1 else 0
    ensures union[n] in es ==> CountBefore(es, union, n) < |es| && es[CountBefore(es, union, n)] == union[n]
  {
    var c, u := CountBefore(es, union, n), union[n];
    CountSplits(es, union, n);
    if u in es {
      var i :| 0 <= i < |es| && es[i] == u;
      CountIs(es, u.key, i);
      forall a, b | 0 <= a < c + 1 && n + 1 <= b < |union| ensures Less(es[a].key, union[b].key) {
        assert a == c ==> Less(union[n].key, union[b].key);
      }
      forall a, b | c + 1 <= a < |es| && 0 <= b < n + 1 ensures Less(union[b].key, es[a].key) {
        assert b == n ==> Less(es[c].key, es[a].key);
      }
      SplitIsCount(es, union, n + 1, c + 1);
    } else {
      forall a, b | c <= a < |es| && 0 <= b < n + 1 ensures Less(union[b].key, es[a].key) {
        if b == n {
          BoundSplits(es, u.key);
          assert es[a] in es && es[a] in union;
          SameKeySameEntry(union, n, es[a]);
        }
      }
      SplitIsCount(es, union, n + 1, c);
    }
  }

  lemma SameKeySameEntry(union: seq<Entry>, n: nat, e: Entry)
    requires Sorted(union) && n < |union| && e in union && e != union[n]
    ensures Less(e.key, union[n].key) || Less(union[n].key, e.key)
  {
    var b :| 0 <= b < |union| && union[b] == e;
    assert b < n || n < b;
  }

  // ---------- The iterator ----------

  datatype Direction = Forward | Reverse

  class MergingIterator {
    const children: seq<Cursor>
    /** The child that holds the current entry; -1 if there is none. */
    var current: int
    var direction: Direction
    ghost const union: seq<Entry>
    /** Where in the union it stands; -1 and |union| are not valid positions. */
    ghost var pos: int

    ghost predicate Wired()
      reads this, children
    {
      && (forall i, j :: 0 <= i < j < |children| ==> children[i] != children[j])
      && (forall i :: 0 <= i < |children| ==> children[i].Ok())
      && IsUnion(children, union)
      && -1 <= current < |children|
    }

    /** Every child stands at its first entry from position n of the union on. */
    ghost predicate AllFrom(n: nat)
      requires n <= |union|
      reads this, children
    {
      forall i {:trigger children[i]} ::
          0 <= i < |children| ==> children[i].pos == CountBefore(children[i].entries, union, n)
    }

    /** Every child stands at its last entry before position n of the union. */
    ghost predicate AllBefore(n: nat)
      requires n <= |union|
      reads this, children
    {
      forall i {:trigger children[i]} ::
          0 <= i < |children| ==> children[i].pos == CountBefore(children[i].entries, union, n) - 1
    }

    ghost predicate At(n: int)
      reads this, children
    {
      && Wired()
      && -1 <= n <= |union|
      && (0 <= n < |union| <==> current >= 0)
      && (current >= 0 ==> children[current].Valid() && children[current].Current() == union[n])
      && (current >= 0 && direction.Forward? ==> AllFrom(n))
      && (current >= 0 && direction.Reverse? ==> AllBefore(n + 1))
    }

    ghost predicate Ok()
      reads this, children
    {
      At(pos)
    }

    lemma UnionHasChild(i: nat)
      requires Wired() && i < |children|
      ensures Sorted(children[i].entries) && forall e :: e in children[i].entries ==> e in union
    {
      assert forall e :: e in children[i].entries ==> e in union;
    }

    /** The child that holds an entry of the union stands exactly there, and is the only one to hold it. */
    lemma Holder(n: nat) returns (h: nat)
      requires Wired() && n < |union|
      ensures h < |children| && union[n] in children[h].entries
      ensures forall i :: 0 <= i < |children| && i != h ==> union[n] !in children[i].entries
      ensures var c := CountBefore(children[h].entries, union, n);
              c < |children[h].entries| && children[h].entries[c] == union[n]
              && CountBefore(children[h].entries, union, n + 1) == c + 1
      ensures forall i :: 0 <= i < |children| && i != h
                          ==> CountBefore(children[i].entries, union, n + 1)
                              == CountBefore(children[i].entries, union, n)
    {
      assert union[n] in union;
      h :| 0 <= h < |children| && union[n] in children[h].entries;
      UnionHasChild(h);
      CountStep(children[h].entries, union, n);
      forall i | 0 <= i < |children| && i != h
        ensures union[n] !in children[i].entries
        ensures CountBefore(children[i].entries, union, n + 1) == CountBefore(children[i].entries, union, n)
      {
        assert i < h || h < i;
        UnionHasChild(i);
        CountStep(children[i].entries, union, n);
      }
    }

    /** Among children that stand from position n on, the one at union[n] has the least key. */
    lemma LeastChild(n: nat, i: nat)
      requires Wired() && n <= |union| && AllFrom(n) && i < |children| && children[i].Valid()
      ensures n < |union| && children[i].Current() in union[n..]
      ensures children[i].Current() == union[n] || Less(union[n].key, children[i].Current().key)
    {
      var e := children[i].Current();
      UnionHasChild(i);
      CountSplits(children[i].entries, union, n);
      assert e in children[i].entries;
      var b :| 0 <= b < |union| && union[b] == e;
      assert !Less(union[b].key, e.key);
      assert union[n..][b - n] == e;
    }

    lemma GreatestChild(n: nat, i: nat)
      requires Wired() && n <= |union| && AllBefore(n) && i < |children| && children[i].Valid()
      ensures n > 0 && children[i].Current() in union[..n]
      ensures children[i].Current() == union[n - 1] || Less(children[i].Current().key, union[n - 1].key)
    {
      var e := children[i].Current();
      UnionHasChild(i);
      CountSplits(children[i].entries, union, n);
      assert e in children[i].entries;
      var b :| 0 <= b < |union| && union[b] == e;
      assert !Less(e.key, union[b].key);
      assert union[..n][b] == e;
    }

    method SmallestChild(ghost n: nat) returns (smallest: int)
      requires Wired() && n <= |union| && AllFrom(n)
      ensures -1 <= smallest < |children| && (n == |union| <==> smallest == -1)
      ensures smallest >= 0 ==> children[smallest].Valid() && children[smallest].Current() == union[n]
    {
      ghost var holder := -1;
      if n < |union| {
        holder := Holder(n);
      }
      smallest := -1;
      for i := 0 to |children|
        invariant -1 <= smallest < i
        invariant smallest >= 0 ==> children[smallest].Valid()
        invariant 0 <= holder < i ==> smallest == holder
      {
        var child := children[i];
        if child.Valid() {
          LeastChild(n, i);
          if smallest == -1 {
            smallest := i;
          } else {
            LeastChild(n, smallest);
            if Less(child.Current().key, children[smallest].Current().key) {
              smallest := i;
            }
          }
        }
      }
      if smallest >= 0 {
        LeastChild(n, smallest);
      }
    }

    method LargestChild(ghost n: nat) returns (largest: int)
      requires Wired() && n <= |union| && AllBefore(n)
      ensures -1 <= largest < |children| && (n == 0 <==> largest == -1)
      ensures largest >= 0 ==> children[largest].Valid() && children[largest].Current() == union[n - 1]
    {
      ghost var holder := |children|;
      if n > 0 {
        holder := Holder(n - 1);
      }
      largest := -1;
      var i := |children| - 1;
      while i >= 0
        invariant -1 <= i < |children|
        invariant largest == -1 || i < largest < |children|
        invariant largest >= 0 ==> children[largest].Valid()
        invariant i < holder < |children| ==> largest == holder
      {
        var child := children[i];
        if child.Valid() {
          GreatestChild(n, i);
          if largest == -1 {
            largest := i;
          } else {
            GreatestChild(n, largest);
            if Less(children[largest].Current().key, child.Current().key) {
              largest := i;
            }
          }
        }
        i := i - 1;
      }
      if largest >= 0 {
        GreatestChild(n, largest);
      }
    }

    lemma SeekCounts(i: nat, target: IKey)
      requires Wired() && i < |children|
      ensures LowerBound(children[i].entries, target) ==
              CountBefore(children[i].entries, union, LowerBound(union, target))
    {
      var es, n := children[i].entries, LowerBound(union, target);
      UnionHasChild(i);
      BoundSplits(es, target);
      BoundSplits(union, target);
      SplitIsCount(es, union, n, LowerBound(es, target));
    }

    lemma CountAtEnds(i: nat)
      requires Wired() && i < |children|
      ensures CountBefore(children[i].entries, union, 0) == 0
      ensures CountBefore(children[i].entries, union, |union|) == |children[i].entries|
    {
      UnionHasChild(i);
      SplitIsCount(children[i].entries, union, 0, 0);
    }

    constructor (children: seq<Cursor>, ghost union: seq<Entry>)
      requires forall i, j :: 0 <= i < j < |children| ==> children[i] != children[j]
      requires forall i :: 0 <= i < |children| ==> children[i].Ok()
      requires IsUnion(children, union)
      ensures Ok() && pos == |union| && this.children == children && this.union == union
    {
      this.children, this.union, pos := children, union, |union|;
      current, direction := -1, Forward;
    }

    predicate Valid(): (r: bool)
      requires Ok()
      reads this, children
      ensures r <==> 0 <= pos < |union|
    {
      current >= 0
    }

    function Current(): (e: Entry)
      requires Ok() && Valid()
      reads this, children
      ensures e == union[pos]
    {
      children[current].Current()
    }

    method Seek(target: IKey)
      requires Ok()
      modifies this`current, this`direction, this`pos, children
      ensures Ok() && pos == LowerBound(union, target)
    {
      ghost var n := LowerBound(union, target);
      for i := 0 to |children|
        invariant Wired()
        invariant forall j {:trigger children[j]} ::
                  0 <= j < i ==> children[j].pos == CountBefore(children[j].entries, union, n)
      {
        SeekCounts(i, target);
        children[i].Seek(target);
      }
      current := SmallestChild(n);
      direction, pos := Forward, n;
    }

    method SeekToFirst()
      requires Ok()
      modifies this`current, this`direction, this`pos, children
      ensures Ok() && pos == 0
    {
      for i := 0 to |children|
        invariant Wired()
        invariant forall j {:trigger children[j]} ::
                  0 <= j < i ==> children[j].pos == CountBefore(children[j].entries, union, 0)
      {
        CountAtEnds(i);
        children[i].SeekToFirst();
      }
      current := SmallestChild(0);
      direction, pos := Forward, 0;
    }

    method SeekToLast()
      requires Ok()
      modifies this`current, this`direction, this`pos, children
      ensures Ok() && pos == |union| - 1
    {
      for i := 0 to |children|
        invariant Wired()
        invariant forall j {:trigger children[j]} ::
                  0 <= j < i ==> children[j].pos == CountBefore(children[j].entries, union, |union|) - 1
      {
        CountAtEnds(i);
        children[i].SeekToLast();
      }
      current := LargestChild(|union|);
      direction, pos := Reverse, |union| - 1;
    }

    /** Moves one entry on in the union, whichever way the last move went. */
    method Next()
      requires Ok() && Valid()
      modifies this`current, this`direction, this`pos, children
      ensures Ok() && pos == old(pos) + 1
    {
      hide IsUnion, CountBefore;
      FaceForward();
      AdvanceCurrent(pos);
      current := SmallestChild(pos + 1);
      pos := pos + 1;
    }

    method FaceForward()
      requires Ok() && Valid()
      modifies this`direction, children
      ensures Wired() && AllFrom(pos) && direction.Forward?
      ensures children[current].Valid() && children[current].Current() == union[pos]
    {
      hide IsUnion, CountBefore;
      if direction != Forward {
        PositionAfterKey(pos);
        direction := Forward;
      }
    }

    method AdvanceCurrent(ghost n: nat)
      requires Wired() && n < |union| && AllFrom(n)
      requires current >= 0 && children[current].Valid() && children[current].Current() == union[n]
      modifies children[current]
      ensures Wired() && AllFrom(n + 1)
    {
      ghost var h := Holder(n);
      children[current].Next();
    }

    /** Moves one entry back in the union, whichever way the last move went. */
    method Prev()
      requires Ok() && Valid()
      modifies this`current, this`direction, this`pos, children
      ensures Ok() && pos == old(pos) - 1
    {
      hide IsUnion, CountBefore;
      FaceBack();
      RetreatCurrent(pos);
      current := LargestChild(pos);
      pos := pos - 1;
    }

    method FaceBack()
      requires Ok() && Valid()
      modifies this`direction, children
      ensures Wired() && AllBefore(pos + 1) && direction.Reverse?
      ensures children[current].Valid() && children[current].Current() == union[pos]
    {
      hide IsUnion, CountBefore;
      if direction != Reverse {
        PositionBeforeKey(pos);
        direction := Reverse;
      }
    }

    method RetreatCurrent(ghost n: nat)
      requires Wired() && n < |union| && AllBefore(n + 1)
      requires current >= 0 && children[current].Valid() && children[current].Current() == union[n]
      modifies children[current]
      ensures Wired() && AllBefore(n)
    {
      ghost var h := Holder(n);
      children[current].Prev();
    }

    lemma NotTheCurrentKey(n: nat, i: nat)
      requires At(n) && current >= 0 && i < |children| && i != current
      ensures forall e :: e in children[i].entries ==> e.key != union[n].key
    {
      var h := Holder(n);
      UnionHasChild(i);
      forall e | e in children[i].entries ensures e.key != union[n].key {
        SameKeySameEntry(union, n, e);
      }
    }

    /** Direction switch before Next: the other children go to their first entry after the current key. */
    method PositionAfterKey(ghost n: int)
      requires At(n) && current >= 0 && direction.Reverse?
      modifies set i | 0 <= i < |children| && i != current :: children[i]
      ensures Wired() && AllFrom(n) && children[current].Valid() && children[current].Current() == union[n]
    {
      var key := children[current].Current().key;
      ghost var h := Holder(n);
      forall i | 0 <= i < |children| && i != current
        ensures forall e :: e in children[i].entries ==> Compare(key, e.key) != 0
      {
        NotTheCurrentKey(n, i);
        forall e | e in children[i].entries ensures Compare(key, e.key) != 0 {
          CompareIsTotalOrder(key, e.key, key);
        }
      }
      for i := 0 to |children|
        invariant Wired() && children[current].Valid() && children[current].Current() == union[n]
        invariant children[current].pos == CountBefore(children[current].entries, union, n)
        invariant forall j {:trigger children[j]} ::
                  0 <= j < i ==> children[j].pos == CountBefore(children[j].entries, union, n)
      {
        if i != current {
          children[i].Seek(key);
          // No other child holds the current key, so the source's step past an equal key is never taken.
          assert !(children[i].Valid() && Compare(key, children[i].Current().key) == 0);
        }
      }
    }

    /** Direction switch before Prev: the other children go to their last entry before the current key. */
    method PositionBeforeKey(ghost n: int)
      requires At(n) && current >= 0 && direction.Forward?
      modifies set i | 0 <= i < |children| && i != current :: children[i]
      ensures Wired() && AllBefore(n + 1) && children[current].Valid() && children[current].Current() == union[n]
    {
      var key := children[current].Current().key;
      ghost var h := Holder(n);
      for i := 0 to |children|
        invariant Wired() && children[current].Valid() && children[current].Current() == union[n]
        invariant children[current].pos == CountBefore(children[current].entries, union, n + 1) - 1
        invariant forall j {:trigger children[j]} ::
                  0 <= j < i ==> children[j].pos == CountBefore(children[j].entries, union, n + 1) - 1
      {
        if i != current {
          children[i].Seek(key);
          if children[i].Valid() {
            children[i].Prev();
          } else {
            children[i].SeekToLast();
          }
        }
      }
    }
  }
}
