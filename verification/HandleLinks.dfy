/** The links of cache handles (util/cache.cc): the two circular lists of the cache and the bucket chains of its hash
    table are strung on the handles themselves; relinking them does what modules LRUCaches and HandleTables do with
    sequences. */
module HandleLinks {
  import opened Coding
  import opened HandleTables
  import opened LRUCaches

  // ---------- Circular lists ----------

  ghost predicate Distinct(nodes: seq<Handle>) {
    forall i, j :: 0 <= i < j < |nodes| ==> nodes[i] != nodes[j]
  }

  ghost predicate Linked(a: Handle, b: Handle)
    reads a, b
  {
    a.next == b && b.prev == a
  }

  /** Place 0 is the dummy head. */
  function Place(head: Handle, nodes: seq<Handle>, i: nat): Handle
    requires i <= |nodes|
  {
    if i == 0 then head else nodes[i - 1]
  }

  /** The node is linked to the place before it. */
  ghost predicate LinkedAt(head: Handle, nodes: seq<Handle>, i: nat)
    requires i < |nodes|
    reads head, nodes
  {
    Linked(Place(head, nodes, i), nodes[i])
  }

  /** From the dummy head through the nodes and back. */
  ghost predicate Ring(head: Handle, nodes: seq<Handle>)
    reads head, nodes
  {
    && Distinct(nodes) && head !in nodes
    && Linked(Place(head, nodes, |nodes|), head)
    && forall i {:trigger LinkedAt(head, nodes, i)} :: 0 <= i < |nodes| ==> LinkedAt(head, nodes, i)
  }

  function Dropped(nodes: seq<Handle>, k: nat): (r: seq<Handle>)
    requires k < |nodes|
    ensures |r| == |nodes| - 1 && forall i :: 0 <= i < |r| ==> r[i] == if i < k then nodes[i] else nodes[i + 1]
  {
    nodes[..k] + nodes[k + 1..]
  }

  lemma {:induction false} WithoutAt(nodes: seq<Handle>, k: nat)
    requires Distinct(nodes) && k < |nodes|
    ensures Without(nodes, nodes[k]) == Dropped(nodes, k)
  {
    if k > 0 {
      var tail := nodes[1..];
      assert forall i :: 0 <= i < |tail| ==> tail[i] == nodes[i + 1];
      WithoutAt(tail, k - 1);
      assert tail[..k - 1] == nodes[1..k] && tail[k..] == nodes[k + 1..];
      assert nodes[..k] == [nodes[0]] + nodes[1..k];
    }
  }

  /** The neighbours of a node. */
  lemma Neighbours(head: Handle, nodes: seq<Handle>, k: nat)
    requires Ring(head, nodes) && k < |nodes|
    ensures Linked(Place(head, nodes, k), nodes[k])
    ensures Linked(nodes[k], if k + 1 < |nodes| then nodes[k + 1] else head)
  {
    assert LinkedAt(head, nodes, k) && (k + 1 < |nodes| ==> LinkedAt(head, nodes, k + 1));
  }

  /** No two nodes have the same successor, or the same predecessor. */
  lemma PlacesDiffer(head: Handle, nodes: seq<Handle>, i: nat, j: nat)
    requires Distinct(nodes) && head !in nodes && i <= |nodes| && j <= |nodes| && i != j
    ensures Place(head, nodes, i) != Place(head, nodes, j)
  {
    assert i > 0 ==> nodes[i - 1] in nodes;
    assert j > 0 ==> nodes[j - 1] in nodes;
  }

  lemma DroppedIsDistinct(head: Handle, nodes: seq<Handle>, k: nat)
    requires Distinct(nodes) && head !in nodes && k < |nodes|
    ensures Distinct(Dropped(nodes, k)) && head !in Dropped(nodes, k) && nodes[k] !in Dropped(nodes, k)
  {
    var rest := Dropped(nodes, k);
    forall i | 0 <= i < |rest| ensures rest[i] != nodes[k] && rest[i] != head {
      assert nodes[if i < k then i else i + 1] in nodes;
    }
    forall i, j | 0 <= i < j < |rest| ensures rest[i] != rest[j] {
    }
  }

  lemma PlaceDropped(head: Handle, nodes: seq<Handle>, k: nat, i: nat)
    requires k < |nodes| && i < |nodes| - 1
    ensures Dropped(nodes, k)[i] == nodes[if i < k then i else i + 1]
    ensures Place(head, Dropped(nodes, k), i) == Place(head, nodes, if i <= k then i else i + 1)
  {
  }

  lemma LastPlace(head: Handle, nodes: seq<Handle>, k: nat)
    requires Distinct(nodes) && head !in nodes && k < |nodes|
    ensures Place(head, Dropped(nodes, k), |nodes| - 1) == Place(head, nodes, if k < |nodes| - 1 then |nodes| else k)
    ensures k < |nodes| - 1
            ==> Place(head, nodes, |nodes|) in nodes && Place(head, nodes, |nodes|) != Place(head, nodes, k)
    ensures k < |nodes| - 1 ==> nodes[k + 1] != head
  {
    PlacesDiffer(head, nodes, |nodes|, k);
    assert k < |nodes| - 1 ==> nodes[k + 1] in nodes;
  }

  /** LRU_Remove, of a node between these two. */
  method LruRemove(e: Handle, ghost before: Handle, ghost after: Handle, ghost head: Handle, ghost nodes: seq<Handle>)
    requires Ring(head, nodes) && e in nodes && e.prev == before && e.next == after
    modifies before`next, after`prev
    ensures Ring(head, Without(nodes, e)) && e !in Without(nodes, e)
  {
    hide Distinct, Without, Dropped;
    ghost var k :| 0 <= k < |nodes| && nodes[k] == e;
    ghost var rest := Dropped(nodes, k);
    DroppedIsDistinct(head, nodes, k);
    WithoutAt(nodes, k);
    Neighbours(head, nodes, k);
    assert before == Place(head, nodes, k) && after == if k + 1 < |nodes| then nodes[k + 1] else head;
    label Before:
    e.next.prev := e.prev;
    e.prev.next := e.next;
    forall i | 0 <= i < |rest| ensures LinkedAt(head, rest, i) {
      PlaceDropped(head, nodes, k, i);
      if i != k {
        var j := if i < k then i else i + 1;
        assert old@Before(LinkedAt(head, nodes, j));
        PlacesDiffer(head, nodes, j, k);
        PlacesDiffer(head, nodes, j + 1, if k + 1 < |nodes| then k + 2 else 0);
      }
    }
    LastPlace(head, nodes, k);
    assert Linked(Place(head, rest, |rest|), head);
  }

  /** LRU_Append: before the head, as the newest one. */
  method LruAppend(list: Handle, e: Handle, ghost nodes: seq<Handle>)
    requires Ring(list, nodes) && e != list && e !in nodes
    modifies e`next, e`prev, list`next, list`prev, nodes`next
    ensures Ring(list, nodes + [e])
  {
    ghost var last := Place(list, nodes, |nodes|);
    label Before:
    e.next := list;
    e.prev := list.prev;
    e.prev.next := e;
    e.next.prev := e;
    assert Linked(last, e) && Linked(e, list);
    ghost var more := nodes + [e];
    forall i | 0 <= i < |more| ensures LinkedAt(list, more, i) {
      if i < |nodes| {
        assert old@Before(LinkedAt(list, nodes, i));
        PlacesDiffer(list, nodes, i, |nodes|);
      }
    }
  }

  /** The lists that Ref and Unref move a handle between. */
  method MoveToEnd(e: Handle, ghost before: Handle, ghost after: Handle, ghost source: Handle, ghost nodes: seq<Handle>,
                   list: Handle, ghost others: seq<Handle>)
    requires Ring(source, nodes) && Ring(list, others) && e in nodes && e.prev == before && e.next == after
    requires list != source && list !in nodes && source !in others && forall h :: h in nodes ==> h !in others
    modifies before`next, after`prev, e`next, e`prev, list`next, list`prev, others`next
    ensures Ring(source, Without(nodes, e)) && Ring(list, others + [e])
  {
    WithoutIsPart(nodes, e);
    Inside(source, nodes, e);
    hide Without, Distinct;
    ghost var rest := Without(nodes, e);
    LruRemove(e, before, after, source, nodes);
    assert source != e && Ring(list, others) && Ring(source, rest);
    label Removed:
    LruAppend(list, e, others);
    PlacesInside(source, rest);
    forall i | 0 <= i < |rest| ensures LinkedAt(source, rest, i) {
      assert old@Removed(LinkedAt(source, rest, i));
    }
  }

  lemma PlacesInside(head: Handle, nodes: seq<Handle>)
    ensures forall i :: 0 <= i <= |nodes| ==> Place(head, nodes, i) == head || Place(head, nodes, i) in nodes
  {
  }

  lemma Inside(head: Handle, nodes: seq<Handle>, e: Handle)
    requires Ring(head, nodes) && e in nodes
    ensures e.prev == head || e.prev in nodes
    ensures e.next == head || e.next in nodes
  {
    var k :| 0 <= k < |nodes| && nodes[k] == e;
    Neighbours(head, nodes, k);
  }

  lemma {:induction false} WithoutIsPart(nodes: seq<Handle>, e: Handle)
    ensures forall h :: h in Without(nodes, e) ==> h in nodes
  {
    if nodes != [] && nodes[0] != e {
      WithoutIsPart(nodes[1..], e);
    }
  }

  // ---------- Bucket chains ----------

  /** The next_hash links of handles. */
  type Links = map<Handle, Handle?>

  ghost function LinksOf(s: set<Handle>): Links
    reads s
  {
    map h | h in s :: h.nextHash
  }

  /** What the link to place p of a chain holds. */
  function LinkTo(c: Chain, p: nat): Handle? {
    if p < |c| then c[p] else null
  }

  ghost predicate ChainedAt(links: Links, c: Chain, i: nat)
    requires i < |c|
  {
    c[i] in links && links[c[i]] == LinkTo(c, i + 1)
  }

  /** From place p of the chain on. */
  ghost predicate Chained(links: Links, first: Handle?, c: Chain, p: nat) {
    first == LinkTo(c, p) && forall i {:trigger ChainedAt(links, c, i)} :: p <= i < |c| ==> ChainedAt(links, c, i)
  }

  ghost predicate AllChained(links: Links, heads: seq<Handle?>, chains: seq<Chain>) {
    && |heads| == |chains| > 0 && Placed(chains)
    && forall b {:trigger heads[b]} {:trigger chains[b]} :: 0 <= b < |chains| ==> Chained(links, heads[b], chains[b], 0)
  }

  /** The buckets hold these chains. */
  ghost predicate Holds(list: array<Handle?>, chains: seq<Chain>)
    reads list, Elements(chains)
  {
    AllChained(LinksOf(Elements(chains)), list[..], chains)
  }

  /** Other links of the handles of a chain do not matter to it. */
  lemma SameLinks(links: Links, links': Links, first: Handle?, c: Chain, p: nat)
    requires Chained(links, first, c, p)
    requires forall i :: p <= i < |c| ==> c[i] in links' && (c[i] in links ==> links'[c[i]] == links[c[i]])
    ensures Chained(links', first, c, p)
  {
    forall i | p <= i < |c| ensures ChainedAt(links', c, i) {
      assert ChainedAt(links, c, i);
    }
  }

  lemma SameLinksAll(links: Links, links': Links, heads: seq<Handle?>, chains: seq<Chain>)
    requires AllChained(links, heads, chains)
    requires forall h :: h in Elements(chains) ==> h in links' && (h in links ==> links'[h] == links[h])
    ensures AllChained(links', heads, chains)
  {
    forall b | 0 <= b < |chains| ensures Chained(links', heads[b], chains[b], 0) {
      InElements(chains, b);
      SameLinks(links, links', heads[b], chains[b], 0);
    }
  }

  lemma InElements(chains: seq<Chain>, b: nat)
    requires b < |chains|
    ensures forall h :: h in chains[b] ==> h in Elements(chains)
  {
  }

  /** The chains when one of them, and links of its handles alone, change. */
  lemma OneChainChanged(links: Links, heads: seq<Handle?>, chains: seq<Chain>, links': Links, b: nat, first: Handle?,
                        c: Chain)
    requires AllChained(links, heads, chains) && b < |chains| && links.Keys <= links'.Keys
    requires forall h :: h in links && h !in chains[b] && h !in c ==> links'[h] == links[h]
    requires Chained(links', first, c, 0) && NoDuplicates(c) && forall h: Handle :: h in c ==> h.hash % |chains| == b
    ensures AllChained(links', heads[b := first], chains[b := c])
  {
    ChainReplaced(chains, b, c);
    forall i | 0 <= i < |chains| && i != b ensures Chained(links', heads[i], chains[i], 0) {
      assert Chained(links, heads[i], chains[i], 0);
      forall k | 0 <= k < |chains[i]| ensures chains[i][k] in links && links'[chains[i][k]] == links[chains[i][k]] {
        assert ChainedAt(links, chains[i], k);
        assert chains[i][k].hash % |chains| == i;
      }
      SameLinks(links, links', heads[i], chains[i], 0);
    }
  }

  // ---------- Finding and changing a slot ----------

  /** The slot that holds the handle with the key, or null at the end of its chain: the bucket itself, or the link of
      the handle before. */
  method FindPointer(list: array<Handle?>, key: Bytes, hash: nat, ghost chains: seq<Chain>)
    returns (pred: Handle?, at: Handle?, ghost p: nat)
    requires Holds(list, chains)
    ensures var c := chains[hash % list.Length];
            && p <= |c| && at == LinkTo(c, p) && (pred == if p == 0 then null else c[p - 1])
            && (p < |c| ==> Is(c[p], key, hash)) && forall i :: 0 <= i < p ==> !Is(c[i], key, hash)
  {
    ghost var b := hash % list.Length;
    ghost var c := chains[b];
    InElements(chains, b);
    pred, at, p := null, list[hash % list.Length], 0;
    assert at == list[..][b];
    while at != null && !(at.hash == hash && at.key == key)
      invariant p <= |c| && at == LinkTo(c, p) && (pred == if p == 0 then null else c[p - 1])
      invariant forall i :: 0 <= i < p ==> !Is(c[i], key, hash)
      decreases |c| - p
    {
      assert ChainedAt(LinksOf(Elements(chains)), c, p);
      pred, at, p := at, at.nextHash, p + 1;
    }
  }

  /** Stores into the slot. */
  method SetPointer(list: array<Handle?>, b: nat, pred: Handle?, x: Handle?)
    requires b < list.Length
    modifies list, if pred == null then {} else {pred}
    ensures pred == null ==> list[..] == old(list[..])[b := x]
    ensures pred != null ==> pred.nextHash == x && list[..] == old(list[..]) && unchanged(pred`next, pred`prev)
  {
    if pred == null {
      list[b] := x;
    } else {
      pred.nextHash := x;
    }
  }

  lemma Suffix(links: Links, c: Chain, q: nat)
    requires Chained(links, LinkTo(c, 0), c, 0) && q <= |c|
    ensures Chained(links, LinkTo(c, q), c[q..], 0)
  {
    forall i | 0 <= i < |c| - q ensures ChainedAt(links, c[q..], i) {
      assert ChainedAt(links, c, i + q);
    }
  }

  lemma Fronted(links: Links, h: Handle, t: Chain)
    requires h in links && links[h] == LinkTo(t, 0) && Chained(links, LinkTo(t, 0), t, 0)
    ensures Chained(links, h, [h] + t, 0)
  {
    forall i | 0 <= i < |t| + 1 ensures ChainedAt(links, [h] + t, i) {
      assert i > 0 ==> ChainedAt(links, t, i - 1);
    }
  }

  /** A chain that keeps its first p handles and goes on with t. */
  lemma Spliced(links: Links, links': Links, c: Chain, p: nat, t: Chain)
    requires Chained(links, LinkTo(c, 0), c, 0) && p <= |c| && Chained(links', LinkTo(t, 0), t, 0)
    requires forall i :: 0 <= i < p ==> c[i] in links && c[i] in links' && (i < p - 1 ==> links'[c[i]] == links[c[i]])
    requires p > 0 ==> links'[c[p - 1]] == LinkTo(t, 0)
    ensures Chained(links', if p == 0 then LinkTo(t, 0) else LinkTo(c, 0), c[..p] + t, 0)
  {
    var c' := c[..p] + t;
    forall i | 0 <= i < |c'| ensures ChainedAt(links', c', i) {
      if i < p {
        assert ChainedAt(links, c, i);
      } else {
        assert ChainedAt(links', t, i - p);
      }
    }
  }

  // ---------- Insert and Remove ----------

  function WithHandle(c: Chain, p: nat, h: Handle): Chain
    requires p <= |c|
  {
    if p < |c| then c[p := h] else c + [h]
  }

  function Cut(c: Chain, p: nat): Chain
    requires p <= |c|
  {
    if p < |c| then c[..p] + c[p + 1..] else c
  }

  /** The links after those of h and of the slot have been set. */
  ghost predicate LinksSet(links: Links, links': Links, c: Chain, p: nat, h: Handle)
    requires p <= |c|
  {
    && links'.Keys == links.Keys + {h}
    && links'[h] == LinkTo(c, p + 1)
    && (p > 0 ==> c[p - 1] in links' && links'[c[p - 1]] == h)
    && forall x :: x in links && x != h && (p > 0 ==> x != c[p - 1]) ==> links'[x] == links[x]
  }

  lemma InsertedChained(links: Links, links': Links, heads: seq<Handle?>, chains: seq<Chain>, p: nat, h: Handle)
    requires AllChained(links, heads, chains) && h !in Elements(chains)
    requires var c := chains[h.hash % |chains|]; p <= |c| && LinksSet(links, links', c, p, h)
    ensures var b := h.hash % |chains|;
            AllChained(links', if p == 0 then heads[b := h] else heads, chains[b := WithHandle(chains[b], p, h)])
  {
    var b := h.hash % |chains|;
    var c := chains[b];
    var first, t := if p == 0 then h else LinkTo(c, 0), [h] + if p < |c| then c[p + 1..] else [];
    InElements(chains, b);
    assert Chained(links, heads[b], c, 0);
    forall i | 0 <= i < |c| ensures c[i] in links && c[i].hash % |chains| == b {
      assert ChainedAt(links, c, i) && c[i] in c;
    }
    assert NoDuplicates(c);
    TailStays(links, links', c, p, h);
    Spliced(links, links', c, p, t);
    assert c[..p] + t == WithHandle(c, p, h);
    WithHandleIsSet(c, p, h);
    OneChainChanged(links, heads, chains, links', b, first, WithHandle(c, p, h));
    assert p > 0 ==> heads[b := first] == heads;
  }

  lemma WithHandleIsSet(c: Chain, p: nat, h: Handle)
    requires NoDuplicates(c) && p <= |c| && h !in c
    ensures NoDuplicates(WithHandle(c, p, h))
    ensures forall x :: x in WithHandle(c, p, h) <==> x == h || (x in c && (p < |c| ==> x != c[p]))
  {
    if p < |c| {
      ReplaceInChain(c, p, h);
    }
  }

  /** The handles behind place p are linked as before, and h comes in front of them. */
  lemma TailStays(links: Links, links': Links, c: Chain, p: nat, h: Handle)
    requires Chained(links, LinkTo(c, 0), c, 0) && NoDuplicates(c) && p <= |c| && h !in c
             && LinksSet(links, links', c, p, h)
    ensures var rest := if p < |c| then c[p + 1..] else [];
            Chained(links', h, [h] + rest, 0)
  {
    var q := if p < |c| then p + 1 else p;
    Suffix(links, c, q);
    forall i | 0 <= i < |c| - q ensures c[q..][i] in links' && links'[c[q..][i]] == links[c[q..][i]] {
      assert ChainedAt(links, c, i + q);
    }
    SameLinks(links, links', LinkTo(c, q), c[q..], 0);
    Fronted(links', h, c[q..]);
  }

  /** HandleTable::Insert, as far as the links go. */
  method Insert(list: array<Handle?>, h: Handle, ghost chains: seq<Chain>) returns (previous: Handle?, ghost p: nat)
    requires Holds(list, chains) && h !in Elements(chains)
    modifies list, h, Elements(chains)
    ensures var b := h.hash % list.Length;
            && p <= |chains[b]| && previous == LinkTo(chains[b], p)
            && (previous != null ==> Is(previous, h.key, h.hash))
            && (previous == null ==> forall x :: x in chains[b] ==> !Is(x, h.key, h.hash))
            && Holds(list, chains[b := WithHandle(chains[b], p, h)])
  {
    var pred, at;
    pred, at, p := FindPointer(list, h.key, h.hash, chains);
    ghost var b := h.hash % list.Length;
    ghost var c := chains[b];
    ghost var links, heads := LinksOf(Elements(chains)), list[..];
    InElements(chains, b);
    assert p < |c| ==> ChainedAt(links, c, p);
    h.nextHash := if at == null then null else at.nextHash;
    SetPointer(list, h.hash % list.Length, pred, h);
    previous := at;
    ghost var links' := LinksOf(Elements(chains) + {h});
    assert NoDuplicates(c);
    assert LinksSet(links, links', c, p, h);
    InsertedChained(links, links', heads, chains, p, h);
    ElementsWith(chains, p, h);
    SameLinksAll(links', LinksOf(Elements(chains[b := WithHandle(c, p, h)])), list[..],
                 chains[b := WithHandle(c, p, h)]);
  }

  lemma ElementsWith(chains: seq<Chain>, p: nat, h: Handle)
    requires Placed(chains) && |chains| > 0 && h !in Elements(chains) && p <= |chains[h.hash % |chains|]|
    ensures var b := h.hash % |chains|;
            Elements(chains[b := WithHandle(chains[b], p, h)]) <= Elements(chains) + {h}
  {
    if p < |chains[h.hash % |chains|]| {
      ReplaceElement(chains, h, p);
    } else {
      AppendElement(chains, h);
    }
  }

  lemma RemovedChained(links: Links, links': Links, heads: seq<Handle?>, chains: seq<Chain>, b: nat, p: nat)
    requires AllChained(links, heads, chains) && b < |chains| && p < |chains[b]| && links'.Keys == links.Keys
    requires var c := chains[b];
             && (p > 0 ==> c[p - 1] in links' && links'[c[p - 1]] == LinkTo(c, p + 1))
             && forall x :: x in links && (p > 0 ==> x != c[p - 1]) ==> links'[x] == links[x]
    ensures AllChained(links', if p == 0 then heads[b := LinkTo(chains[b], 1)] else heads,
                       chains[b := Cut(chains[b], p)])
  {
    var c := chains[b];
    var first, t := LinkTo(Cut(c, p), 0), c[p + 1..];
    assert Chained(links, heads[b], c, 0);
    forall i | 0 <= i < |c| ensures c[i] in links && c[i].hash % |chains| == b {
      assert ChainedAt(links, c, i) && c[i] in c;
    }
    assert NoDuplicates(c);
    Suffix(links, c, p + 1);
    forall i | 0 <= i < |t| ensures t[i] in links' && links'[t[i]] == links[t[i]] {
      assert ChainedAt(links, c, i + p + 1);
    }
    SameLinks(links, links', LinkTo(c, p + 1), t, 0);
    Spliced(links, links', c, p, t);
    assert c[..p] + t == Cut(c, p);
    RemoveFromChain(c, p);
    OneChainChanged(links, heads, chains, links', b, first, Cut(c, p));
    assert p > 0 ==> heads[b := first] == heads;
  }

  /** HandleTable::Remove, as far as the links go. */
  method Remove(list: array<Handle?>, key: Bytes, hash: nat, ghost chains: seq<Chain>)
    returns (result: Handle?, ghost p: nat)
    requires Holds(list, chains)
    modifies list, Elements(chains)
    ensures var b := hash % list.Length;
            && p <= |chains[b]| && result == LinkTo(chains[b], p)
            && (result != null ==> Is(result, key, hash))
            && (result == null ==> forall h :: h in chains[b] ==> !Is(h, key, hash))
            && Holds(list, chains[b := Cut(chains[b], p)])
  {
    var pred, at;
    pred, at, p := FindPointer(list, key, hash, chains);
    ghost var b := hash % list.Length;
    ghost var c := chains[b];
    ghost var links, heads := LinksOf(Elements(chains)), list[..];
    InElements(chains, b);
    result := at;
    if result == null {
      assert chains[b := Cut(c, p)] == chains;
      return;
    }
    assert ChainedAt(links, c, p);
    SetPointer(list, hash % list.Length, pred, result.nextHash);
    ghost var links' := LinksOf(Elements(chains));
    assert NoDuplicates(c);
    RemovedChained(links, links', heads, chains, b, p);
    ElementsWithout(chains, b, p);
    SameLinksAll(links', LinksOf(Elements(chains[b := Cut(c, p)])), list[..], chains[b := Cut(c, p)]);
  }

  lemma ElementsWithout(chains: seq<Chain>, b: nat, p: nat)
    requires Placed(chains) && b < |chains| && p < |chains[b]|
    ensures Elements(chains[b := Cut(chains[b], p)]) <= Elements(chains)
  {
    var after := chains[b := Cut(chains[b], p)];
    forall h | h in Elements(after) ensures h in Elements(chains) {
      var i :| 0 <= i < |after| && h in after[i];
      assert h in chains[i];
    }
  }

  // ---------- Resize ----------

  /** The buckets before i and the first j handles of bucket i have been relinked into the new buckets. */
  ghost predicate Relinking(links: Links, heads: seq<Handle?>, chains: seq<Chain>, newHeads: seq<Handle?>,
                            moved: seq<Chain>, i: nat, j: nat)
  {
    && Placed(chains) && |heads| == |chains| && i <= |chains| && (i < |chains| ==> j <= |chains[i]|)
    && links.Keys == Elements(chains)
    && AllChained(links, newHeads, moved) && Elements(moved) == Met(chains, i, j)
    && (i < |chains| ==> Chained(links, LinkTo(chains[i], j), chains[i], j))
    && forall b {:trigger chains[b]} :: i < b < |chains| ==> Chained(links, heads[b], chains[b], 0)
  }

  function Pushed(moved: seq<Chain>, h: Handle): seq<Chain>
    requires |moved| > 0
  {
    moved[h.hash % |moved| := [h] + moved[h.hash % |moved|]]
  }

  /** One handle goes to the front of its new bucket. */
  lemma RelinkOne(links: Links, heads: seq<Handle?>, chains: seq<Chain>, newHeads: seq<Handle?>, moved: seq<Chain>,
                  i: nat, j: nat)
    requires Relinking(links, heads, chains, newHeads, moved, i, j) && i < |chains| && j < |chains[i]|
    ensures var h := chains[i][j];
            var nb := h.hash % |moved|;
            Relinking(links[h := newHeads[nb]], heads, chains, newHeads[nb := h], Pushed(moved, h), i, j + 1)
  {
    var c := chains[i];
    var h := c[j];
    var nb := h.hash % |moved|;
    var links' := links[h := newHeads[nb]];
    InElements(chains, i);
    MeetNext(chains, i, j);
    assert NoDuplicates(c) && h !in Elements(moved);
    InElements(moved, nb);
    PushFront(moved, h);
    assert Chained(links, newHeads[nb], moved[nb], 0);
    forall k | 0 <= k < |moved[nb]| ensures moved[nb][k] in links' && links'[moved[nb][k]] == links[moved[nb][k]] {
      assert ChainedAt(links, moved[nb], k) && moved[nb][k] in moved[nb];
    }
    SameLinks(links, links', newHeads[nb], moved[nb], 0);
    Fronted(links', h, moved[nb]);
    assert NoDuplicates(moved[nb]);
    OneChainChanged(links, newHeads, moved, links', nb, h, [h] + moved[nb]);
    forall k | j + 1 <= k < |c| ensures ChainedAt(links', c, k) {
      assert ChainedAt(links, c, k);
    }
    forall b | i < b < |chains| ensures Chained(links', heads[b], chains[b], 0) {
      assert Chained(links, heads[b], chains[b], 0);
      forall k | 0 <= k < |chains[b]| ensures chains[b][k] in links' && links'[chains[b][k]] == links[chains[b][k]] {
        assert ChainedAt(links, chains[b], k) && chains[b][k] in chains[b];
      }
      SameLinks(links, links', heads[b], chains[b], 0);
    }
  }

  /** The loops of HandleTable::Resize: the same handles, each in the bucket of its hash, in the new array. */
  method Relink(list: array<Handle?>, newLength: nat, ghost chains: seq<Chain>)
    returns (newList: array<Handle?>, ghost moved: seq<Chain>)
    requires Holds(list, chains) && newLength > 0
    modifies Elements(chains)
    ensures fresh(newList) && newList.Length == newLength && Holds(newList, moved)
            && Elements(moved) == Elements(chains)
  {
    newList := new Handle?[newLength](_ => null);
    moved := seq(newLength, _ => []);
    ghost var all, heads := Elements(chains), list[..];
    assert Elements(moved) == {} == Met(chains, 0, 0) by {
      assert chains[..0] == [];
    }
    for i := 0 to list.Length
      invariant list[..] == heads && fresh(newList) && newList.Length == newLength == |moved|
      invariant Relinking(LinksOf(all), heads, chains, newList[..], moved, i, 0)
    {
      moved := RelinkBucket(list[i], newList, heads, chains, moved, i);
    }
    assert chains[..list.Length] == chains;
    assert Met(chains, |chains|, 0) == Elements(chains);
  }

  method RelinkBucket(first: Handle?, newList: array<Handle?>, ghost heads: seq<Handle?>, ghost chains: seq<Chain>,
                      ghost moved: seq<Chain>, ghost i: nat)
    returns (ghost moved': seq<Chain>)
    requires Relinking(LinksOf(Elements(chains)), heads, chains, newList[..], moved, i, 0) && i < |chains|
             && first == heads[i]
    requires Chained(LinksOf(Elements(chains)), first, chains[i], 0)
    modifies newList, Elements(chains)
    ensures |moved'| == |moved| && Relinking(LinksOf(Elements(chains)), heads, chains, newList[..], moved', i + 1, 0)
  {
    ghost var c, j := chains[i], 0;
    InElements(chains, i);
    moved' := moved;
    var h := first;
    while h != null
      invariant |moved'| == |moved| && j <= |c| && h == LinkTo(c, j)
      invariant Relinking(LinksOf(Elements(chains)), heads, chains, newList[..], moved', i, j)
      decreases |c| - j
    {
      assert c[j] in Elements(chains);
      h, moved' := RelinkHandle(h, newList, heads, chains, moved', i, j);
      j := j + 1;
    }
    NextBucket(chains, i);
  }

  /** The body of the inner loop. */
  method RelinkHandle(h: Handle, newList: array<Handle?>, ghost heads: seq<Handle?>, ghost chains: seq<Chain>,
                      ghost moved: seq<Chain>, ghost i: nat, ghost j: nat)
    returns (next: Handle?, ghost moved': seq<Chain>)
    requires Relinking(LinksOf(Elements(chains)), heads, chains, newList[..], moved, i, j)
    requires i < |chains| && j < |chains[i]| && h == chains[i][j]
    modifies newList, h
    ensures next == LinkTo(chains[i], j + 1) && |moved'| == |moved|
    ensures Relinking(LinksOf(Elements(chains)), heads, chains, newList[..], moved', i, j + 1)
  {
    ghost var links := LinksOf(Elements(chains));
    InElements(chains, i);
    assert ChainedAt(links, chains[i], j);
    RelinkOne(links, heads, chains, newList[..], moved, i, j);
    next := h.nextHash;
    moved' := Pushed(moved, h);
    hide Relinking;
    var b := h.hash % newList.Length;
    h.nextHash := newList[b];
    newList[b] := h;
    assert LinksOf(Elements(chains)) == links[h := old(newList[b])];
  }
}
