/** The hash table of the cache (util/cache.cc, HandleTable): chained buckets that double in number when
    there are more elements than buckets. */
module HandleTables {
  import opened Coding

  /** What of a cache entry does not change, and its links, which module HandleLinks is about; the cache keeps its
      reference count. */
  class Handle {
    const key: Bytes
    const hash: nat
    const value: Bytes
    const charge: nat
    var nextHash: Handle?
    var next: Handle?
    var prev: Handle?

    constructor (key: Bytes, hash: nat, value: Bytes, charge: nat)
      ensures this.key == key && this.hash == hash && this.value == value && this.charge == charge
    {
      this.key, this.hash, this.value, this.charge := key, hash, value, charge;
      nextHash, next, prev := null, null, null;
    }
  }

  predicate Is(h: Handle, key: Bytes, hash: nat) {
    h.hash == hash && h.key == key
  }

  predicate SameId(a: Handle, b: Handle) {
    Is(a, b.key, b.hash)
  }

  /** A chain of handles. */
  type Chain = seq<Handle>

  ghost predicate NoDuplicates(c: Chain) {
    forall i, j :: 0 <= i < j < |c| ==> c[i] != c[j]
  }

  /** The elements of a table. */
  ghost function Elements(list: seq<Chain>): set<Handle> {
    set i, h | 0 <= i < |list| && h in list[i] :: h
  }

  predicate PowerOfTwo(n: nat) {
    n == 1 || (n > 0 && n % 2 == 0 && PowerOfTwo(n / 2))
  }

  /** Every handle is in the bucket of its hash, once. */
  ghost predicate Placed(list: seq<Chain>) {
    forall i {:trigger list[i]} :: 0 <= i < |list| ==>
      NoDuplicates(list[i]) && forall h :: h in list[i] ==> h.hash % |list| == i
  }

  ghost predicate UniqueIds(s: set<Handle>) {
    forall a, b {:trigger SameId(a, b)} :: a in s && b in s && SameId(a, b) ==> a == b
  }

  /** Element h is in the bucket of its hash and nowhere else. */
  lemma InItsBucket(list: seq<Chain>, h: Handle)
    requires Placed(list) && |list| > 0
    ensures h in Elements(list) <==> h in list[h.hash % |list|]
  {
    if h in Elements(list) {
      var i :| 0 <= i < |list| && h in list[i];
      assert h.hash % |list| == i;
    }
  }

  /** Replacing one chain changes the elements by what the chain gains and loses. */
  lemma ChainReplaced(list: seq<Chain>, b: nat, c: Chain)
    requires Placed(list) && b < |list|
    requires NoDuplicates(c) && forall h: Handle :: h in c ==> h.hash % |list| == b
    ensures Placed(list[b := c])
    ensures forall h: Handle :: h in Elements(list[b := c]) <==> if h.hash % |list| == b then h in c
                                                                 else h in Elements(list)
  {
    var after := list[b := c];
    forall i | 0 <= i < |after|
      ensures NoDuplicates(after[i]) && forall h: Handle :: h in after[i] ==> h.hash % |after| == i
    {
      if i != b {
        assert NoDuplicates(list[i]);
      }
    }
    forall h: Handle ensures h in Elements(after) <==> if h.hash % |list| == b then h in c else h in Elements(list) {
      InItsBucket(after, h);
      InItsBucket(list, h);
    }
  }

  lemma RemoveFromChain(c: Chain, p: nat)
    requires NoDuplicates(c) && p < |c|
    ensures var rest := c[..p] + c[p + 1..];
            NoDuplicates(rest) && forall h :: h in rest <==> h in c && h != c[p]
  {
    var rest := c[..p] + c[p + 1..];
    forall h | h in c && h != c[p] ensures h in rest {
      var i :| 0 <= i < |c| && c[i] == h;
      assert h == rest[if i < p then i else i - 1];
    }
  }

  lemma ReplaceInChain(c: Chain, p: nat, h: Handle)
    requires NoDuplicates(c) && p < |c| && h !in c
    ensures NoDuplicates(c[p := h]) && forall x :: x in c[p := h] <==> x == h || (x in c && x != c[p])
  {
    forall x | x in c && x != c[p] ensures x in c[p := h] {
      var i :| 0 <= i < |c| && c[i] == x;
      assert c[p := h][i] == x;
    }
    assert c[p := h][p] == h;
  }

  /** A handle that is not in the table yet goes to the front of its bucket. */
  lemma PushFront(list: seq<Chain>, h: Handle)
    requires Placed(list) && |list| > 0 && h !in Elements(list)
    ensures var b := h.hash % |list|;
            Placed(list[b := [h] + list[b]]) && Elements(list[b := [h] + list[b]]) == Elements(list) + {h}
  {
    var b := h.hash % |list|;
    InItsBucket(list, h);
    assert NoDuplicates(list[b]);
    ChainReplaced(list, b, [h] + list[b]);
    forall x: Handle ensures x in Elements(list[b := [h] + list[b]]) <==> x in Elements(list) + {h} {
      InItsBucket(list, x);
    }
  }

  lemma ReplaceElement(list: seq<Chain>, h: Handle, p: nat)
    requires Placed(list) && |list| > 0 && h !in Elements(list) && p < |list[h.hash % |list|]|
    ensures var b := h.hash % |list|;
            && Placed(list[b := list[b][p := h]]) && list[b][p] in Elements(list)
            && Elements(list[b := list[b][p := h]]) == Elements(list) - {list[b][p]} + {h}
  {
    var b := h.hash % |list|;
    InItsBucket(list, h);
    assert NoDuplicates(list[b]);
    ReplaceInChain(list[b], p, h);
    ChainReplaced(list, b, list[b][p := h]);
    forall x: Handle ensures x in Elements(list[b := list[b][p := h]]) <==> x in Elements(list) - {list[b][p]} + {h} {
      InItsBucket(list, x);
    }
  }

  lemma AppendElement(list: seq<Chain>, h: Handle)
    requires Placed(list) && |list| > 0 && h !in Elements(list)
    ensures var b := h.hash % |list|;
            Placed(list[b := list[b] + [h]]) && Elements(list[b := list[b] + [h]]) == Elements(list) + {h}
  {
    var b := h.hash % |list|;
    InItsBucket(list, h);
    assert NoDuplicates(list[b]);
    ChainReplaced(list, b, list[b] + [h]);
    forall x: Handle ensures x in Elements(list[b := list[b] + [h]]) <==> x in Elements(list) + {h} {
      InItsBucket(list, x);
    }
  }

  lemma Replaced(s: set<Handle>, a: Handle, b: Handle)
    requires UniqueIds(s) && a in s && b !in s && SameId(a, b)
    ensures UniqueIds(s - {a} + {b}) && |s - {a} + {b}| == |s|
  {
    forall x | x in s && x != a ensures !SameId(x, b) && !SameId(b, x) {
      assert SameId(x, b) == SameId(x, a) && SameId(b, x) == SameId(a, x);
    }
  }

  lemma Joined(s: set<Handle>, b: Handle)
    requires UniqueIds(s) && b !in s && forall x :: x in s ==> !SameId(x, b)
    ensures UniqueIds(s + {b}) && |s + {b}| == |s| + 1
  {
  }

  /** What a traversal of the buckets has met before place j of bucket i. */
  ghost function Met(list: seq<Chain>, i: nat, j: nat): set<Handle>
    requires i <= |list| && (i < |list| ==> j <= |list[i]|)
  {
    Elements(list[..i]) + if i < |list| then (set h | h in list[i][..j]) else {}
  }

  lemma MeetNext(list: seq<Chain>, i: nat, j: nat)
    requires Placed(list) && i < |list| && j < |list[i]|
    ensures list[i][j] !in Met(list, i, j) && Met(list, i, j + 1) == Met(list, i, j) + {list[i][j]}
  {
    var h := list[i][j];
    assert h.hash % |list| == i && NoDuplicates(list[i]);
    assert list[i][..j + 1] == list[i][..j] + [h];
    forall b | 0 <= b < i ensures h !in list[..i][b] {
      assert list[b] == list[..i][b];
    }
  }

  lemma NextBucket(list: seq<Chain>, i: nat)
    requires i < |list|
    ensures Met(list, i, |list[i]|) == Met(list, i + 1, 0)
  {
    assert list[i][..|list[i]|] == list[i] && list[..i + 1] == list[..i] + [list[i]];
    forall h | h in Met(list, i, |list[i]|) ensures h in Met(list, i + 1, 0) {
      if h in Elements(list[..i]) {
        var b :| 0 <= b < i && h in list[..i][b];
        assert list[..i + 1][b] == list[..i][b];
      } else {
        assert h in list[..i + 1][i];
      }
    }
    forall h | h in Elements(list[..i + 1]) ensures h in Met(list, i, |list[i]|) {
      var b :| 0 <= b < i + 1 && h in list[..i + 1][b];
      if b < i {
        assert list[..i][b] == list[..i + 1][b];
      }
    }
  }

  class HandleTable {
    var length: nat
    var elems: nat
    var list: seq<Chain>

    ghost predicate Valid()
      reads this
    {
      && length == |list| > 0 && PowerOfTwo(length)
      && Placed(list) && UniqueIds(Contents()) && elems == |Contents()| <= length
    }

    ghost function Contents(): set<Handle>
      reads this
    {
      Elements(list)
    }

    constructor ()
      ensures Valid() && Contents() == {}
    {
      length, elems, list := 4, 0, seq(4, _ => []);
      new;
      assert PowerOfTwo(length / 4) && PowerOfTwo(length / 2);
      assert Contents() == {};
    }

    /** The slot for a key: the bucket, and the place in its chain of the handle with this key, or its end. */
    method FindPointer(key: Bytes, hash: nat) returns (b: nat, p: nat)
      requires Valid()
      ensures b == hash % length < |list| && p <= |list[b]|
      ensures p < |list[b]| ==> Is(list[b][p], key, hash) && list[b][p] in Contents()
      ensures p == |list[b]| ==> forall h :: h in Contents() ==> !Is(h, key, hash)
    {
      b, p := hash % length, 0;
      while p < |list[b]| && !(list[b][p].hash == hash && list[b][p].key == key)
        invariant p <= |list[b]| && forall i :: 0 <= i < p ==> !Is(list[b][i], key, hash)
      {
        p := p + 1;
      }
      if p < |list[b]| {
        InItsBucket(list, list[b][p]);
      } else {
        forall h | h in Contents() ensures !Is(h, key, hash) {
          InItsBucket(list, h);
        }
      }
    }

    method Lookup(key: Bytes, hash: nat) returns (h: Handle?)
      requires Valid()
      ensures h != null ==> h in Contents() && Is(h, key, hash)
      ensures h == null ==> forall x :: x in Contents() ==> !Is(x, key, hash)
    {
      var b, p := FindPointer(key, hash);
      h := if p < |list[b]| then list[b][p] else null;
    }

    method Remove(key: Bytes, hash: nat) returns (h: Handle?)
      requires Valid()
      modifies this
      ensures Valid() && Contents() == old(Contents()) - {h}
      ensures h != null ==> h in old(Contents()) && Is(h, key, hash)
      ensures forall x :: x in Contents() ==> !Is(x, key, hash)
    {
      var b, p := FindPointer(key, hash);
      h := null;
      if p < |list[b]| {
        h := list[b][p];
        ghost var chain := list[b];
        ghost var rest := chain[..p] + chain[p + 1..];
        RemoveFromChain(chain, p);
        ChainReplaced(list, b, rest);
        list := list[b := list[b][..p] + list[b][p + 1..]];
        elems := elems - 1;
        assert Contents() == old(Contents()) - {h};
        forall x | x in Contents() ensures !Is(x, key, hash) {
          assert Is(x, key, hash) == SameId(x, h);
        }
      }
    }

    /** Puts h into the table, in the place of the handle with the same key, if there is one. */
    method Insert(h: Handle) returns (previous: Handle?)
      requires Valid() && h !in Contents()
      modifies this
      ensures Valid()
      ensures Contents() == (if previous == null then old(Contents()) else old(Contents()) - {previous}) + {h}
      ensures previous != null ==> previous in old(Contents()) && SameId(previous, h)
      ensures previous == null ==> forall x :: x in old(Contents()) ==> !SameId(x, h)
    {
      var b, p := FindPointer(h.key, h.hash);
      if p < |list[b]| {
        previous := list[b][p];
        ReplaceElement(list, h, p);
        Replaced(Contents(), previous, h);
        list := list[b := list[b][p := h]];
      } else {
        previous := null;
        Append(h, b);
      }
    }

    method Append(h: Handle, b: nat)
      requires Valid() && b == h.hash % length && forall x :: x in Contents() ==> !SameId(x, h)
      modifies this
      ensures Valid() && Contents() == old(Contents()) + {h}
    {
      AppendElement(list, h);
      Joined(Contents(), h);
      list := list[b := list[b] + [h]];
      elems := elems + 1;
      if elems > length {
        Resize();
      }
    }

    /** Doubles the buckets until there are as many as elements, and moves the elements there. */
    method Resize()
      requires length == |list| > 0 && Placed(list) && UniqueIds(Contents()) && elems == |Contents()|
      modifies this
      ensures Valid() && Contents() == old(Contents()) && elems == old(elems)
    {
      var newLength := NewLength();
      var newList := Rehash(newLength);
      list := newList;
      length := newLength;
    }

    method NewLength() returns (newLength: nat)
      ensures newLength >= elems && newLength > 0 && PowerOfTwo(newLength)
    {
      newLength := 4;
      assert PowerOfTwo(newLength / 4) && PowerOfTwo(newLength / 2);
      while newLength < elems
        invariant newLength > 0 && PowerOfTwo(newLength)
      {
        newLength := newLength * 2;
        assert newLength / 2 * 2 == newLength;
      }
    }

    method Rehash(newLength: nat) returns (newList: seq<Chain>)
      requires Placed(list) && length == |list| && newLength > 0
      ensures |newList| == newLength && Placed(newList) && Elements(newList) == Contents()
    {
      newList := seq(newLength, _ => []);
      assert Elements(newList) == {};
      assert list[..0] == [];
      for i := 0 to length
        invariant |newList| == newLength && Placed(newList) && Elements(newList) == Met(list, i, 0)
      {
        newList := MoveBucket(newList, i);
        NextBucket(list, i);
      }
      assert list[..length] == list;
    }

    method MoveBucket(newList: seq<Chain>, i: nat) returns (moved: seq<Chain>)
      requires Placed(list) && i < |list| && |newList| > 0 && Placed(newList) && Elements(newList) == Met(list, i, 0)
      ensures |moved| == |newList| && Placed(moved) && Elements(moved) == Met(list, i, |list[i]|)
    {
      moved := newList;
      for j := 0 to |list[i]|
        invariant |moved| == |newList| && Placed(moved) && Elements(moved) == Met(list, i, j)
      {
        var h := list[i][j];
        MeetNext(list, i, j);
        PushFront(moved, h);
        moved := moved[h.hash % |moved| := [h] + moved[h.hash % |moved|]];
      }
    }
  }
}
