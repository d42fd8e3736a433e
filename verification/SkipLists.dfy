/** The skip list of the memtable (db/skiplist.h): its pointers, its searches and its insertion. */
module SkipLists {
  import opened InternalKeys
  import opened Visibility

  const MAX_HEIGHT: nat := 12

  datatype Node = Head | At(key: IKey)

  /** The next pointers of one level; None is the null pointer. */
  type Links = map<Node, Option<IKey>>

  /** The keys that some pointer of a level leads to. */
  function Linked(links: Links): set<IKey> {
    set x | x in links && links[x].Some? :: links[x].value
  }

  predicate Passes(x: Node, k: IKey) {
    x.Head? || Less(x.key, k)
  }

  /** n is the least of these keys behind node x. */
  ghost predicate IsNext(keys: set<IKey>, x: Node, n: Option<IKey>) {
    match n
    case None => forall k :: k in keys ==> !Passes(x, k)
    case Some(m) => m in keys && Passes(x, m) && forall k :: k in keys && Passes(x, k) ==> !Less(k, m)
  }

  predicate OnLevel(links: Links, x: Node) {
    x in links && (x.Head? || x.key in Linked(links))
  }

  /** Every pointer of the level leads from its node to the least linked key behind it. */
  ghost predicate LevelOk(links: Links) {
    && Head in links
    && (forall k :: k in Linked(links) ==> At(k) in links)
    && (forall x {:trigger OnLevel(links, x)} :: OnLevel(links, x) ==> IsNext(Linked(links), x, links[x]))
  }

  // ---------- Following the pointers ----------

  ghost function Behind(links: Links, x: Node): set<IKey> {
    set k | k in Linked(links) && Passes(x, k)
  }

  lemma FewerBehind(links: Links, x: Node)
    requires LevelOk(links) && OnLevel(links, x) && links[x].Some?
    ensures OnLevel(links, At(links[x].value))
    ensures Behind(links, x) == {links[x].value} + Behind(links, At(links[x].value))
    ensures |Behind(links, At(links[x].value))| < |Behind(links, x)|
  {
    var m := links[x].value;
    forall k ensures k in Behind(links, x) <==> k == m || k in Behind(links, At(m)) {
      if k in Linked(links) {
        CompareIsTotalOrder(k, m, k);
        if x.At? {
          CompareIsTotalOrder(x.key, m, k);
        }
      }
    }
    assert m !in Behind(links, At(m));
  }

  /** The keys met on the way from node x to the end of the level. */
  ghost function Walk(links: Links, x: Node): seq<IKey>
    requires LevelOk(links) && OnLevel(links, x)
    decreases |Behind(links, x)|
  {
    if links[x].None? then []
    else
      FewerBehind(links, x);
      [links[x].value] + Walk(links, At(links[x].value))
  }

  ghost predicate Increasing(ks: seq<IKey>) {
    forall i, j :: 0 <= i < j < |ks| ==> Less(ks[i], ks[j])
  }

  /** Following the pointers visits every linked key behind x once, in increasing order. */
  lemma {:induction false} WalkVisitsAll(links: Links, x: Node)
    requires LevelOk(links) && OnLevel(links, x)
    ensures Increasing(Walk(links, x))
    ensures forall k :: k in Walk(links, x) <==> k in Behind(links, x)
    decreases |Behind(links, x)|
  {
    if links[x].Some? {
      FewerBehind(links, x);
      var m := links[x].value;
      var rest := Walk(links, At(m));
      WalkVisitsAll(links, At(m));
      forall i, j | 0 <= i < j < |Walk(links, x)| ensures Less(Walk(links, x)[i], Walk(links, x)[j]) {
        if i == 0 {
          assert Walk(links, x)[j] == rest[j - 1] && rest[j - 1] in rest;
        }
      }
    }
  }

  // ---------- The two stores of an insertion ----------

  /** The last node of the level that stands before key. */
  predicate Precedes(links: Links, x: Node, key: IKey) {
    OnLevel(links, x) && Passes(x, key) && (links[x].Some? ==> !Less(links[x].value, key))
  }

  /** Only linked nodes have a pointer on this level. */
  ghost predicate Settled(links: Links) {
    forall k :: At(k) in links ==> k in Linked(links)
  }

  /** Setting the new node's own pointer is invisible on its level. */
  lemma OwnPointer(links: Links, x: Node, key: IKey)
    requires LevelOk(links) && Settled(links) && Precedes(links, x, key) && key !in Linked(links)
    ensures var after := links[At(key) := links[x]];
            LevelOk(after) && Linked(after) == Linked(links) && Precedes(after, x, key)
  {
    var after := links[At(key) := links[x]];
    CompareIsTotalOrder(key, key, key);
    forall k ensures k in Linked(after) <==> k in Linked(links) {
      if k in Linked(links) {
        var y :| y in links && links[y] == Some(k);
        assert after[y] == Some(k);
      }
    }
    forall y | OnLevel(after, y) ensures IsNext(Linked(after), y, after[y]) {
      assert OnLevel(links, y);
    }
  }

  /** Setting the predecessor's pointer links the new node. */
  lemma Publish(links: Links, x: Node, key: IKey)
    requires LevelOk(links) && Precedes(links, x, key) && key !in Linked(links)
    requires At(key) in links && links[At(key)] == links[x]
    ensures var after := links[x := Some(key)];
            LevelOk(after) && Linked(after) == Linked(links) + {key}
  {
    var after := links[x := Some(key)];
    PublishLinks(links, x, key);
    forall y | OnLevel(after, y) ensures IsNext(Linked(after), y, after[y]) {
      PublishKeepsNext(links, x, key, y);
    }
  }

  lemma PublishLinks(links: Links, x: Node, key: IKey)
    requires LevelOk(links) && Precedes(links, x, key) && key !in Linked(links)
    requires At(key) in links && links[At(key)] == links[x]
    ensures Linked(links[x := Some(key)]) == Linked(links) + {key}
  {
    var after := links[x := Some(key)];
    CompareIsTotalOrder(key, key, key);
    assert x != At(key);
    assert after[x] == Some(key) && after[At(key)] == links[x];
    forall k | k in Linked(links) ensures k in Linked(after) {
      var y :| y in links && links[y] == Some(k);
      if y != x {
        assert after[y] == Some(k);
      }
    }
  }

  lemma PublishKeepsNext(links: Links, x: Node, key: IKey, y: Node)
    requires LevelOk(links) && Precedes(links, x, key) && key !in Linked(links)
    requires At(key) in links && links[At(key)] == links[x]
    requires OnLevel(links[x := Some(key)], y)
    ensures IsNext(Linked(links) + {key}, y, links[x := Some(key)][y])
  {
    PublishLinks(links, x, key);
    CompareIsTotalOrder(key, key, key);
    if y == x {
      assert OnLevel(links, x);
      NewNext(Linked(links), x, links[x], key);
    } else if y == At(key) {
      assert OnLevel(links, x);
      NextOfNew(Linked(links), x, links[x], key);
    } else {
      assert OnLevel(links, y) && OnLevel(links, x);
      NextOfOthers(Linked(links), x, links[x], key, y, links[y]);
    }
  }

  /** key lies between x and n, its successor among keys. */
  ghost predicate Between(keys: set<IKey>, x: Node, n: Option<IKey>, key: IKey) {
    && IsNext(keys, x, n) && key !in keys && Passes(x, key) && (n.Some? ==> !Less(n.value, key))
    && (x.At? ==> x.key in keys)
  }

  lemma NewNext(keys: set<IKey>, x: Node, n: Option<IKey>, key: IKey)
    requires Between(keys, x, n, key)
    ensures IsNext(keys + {key}, x, Some(key))
  {
    forall k | k in keys && Passes(x, k) ensures !Less(k, key) {
      CompareIsTotalOrder(k, key, n.value);
      CompareIsTotalOrder(n.value, k, key);
      CompareIsTotalOrder(n.value, key, k);
    }
    CompareIsTotalOrder(key, key, key);
  }

  lemma NextOfNew(keys: set<IKey>, x: Node, n: Option<IKey>, key: IKey)
    requires Between(keys, x, n, key)
    ensures IsNext(keys + {key}, At(key), n)
  {
    CompareIsTotalOrder(key, key, key);
    if n.Some? {
      CompareIsTotalOrder(n.value, key, key);
    }
    forall k | k in keys && Less(key, k) ensures Passes(x, k) {
      if x.At? {
        CompareIsTotalOrder(x.key, key, k);
      }
    }
    if n.Some? {
      CompareIsTotalOrder(key, n.value, key);
    }
  }

  lemma NextOfOthers(keys: set<IKey>, x: Node, n: Option<IKey>, key: IKey, y: Node, m: Option<IKey>)
    requires Between(keys, x, n, key) && y != x && y != At(key) && (y.At? ==> y.key in keys) && IsNext(keys, y, m)
    ensures IsNext(keys + {key}, y, m)
  {
    if Passes(y, key) {
      YBeforeX(keys, x, n, key, y);
      CompareIsTotalOrder(m.value, x.key, key);
      CompareIsTotalOrder(x.key, m.value, x.key);
      assert !Less(key, m.value) by {
        CompareIsTotalOrder(x.key, key, m.value);
        CompareIsTotalOrder(m.value, key, m.value);
      }
    }
  }

  /** A node before key that is not x stands before x. */
  lemma YBeforeX(keys: set<IKey>, x: Node, n: Option<IKey>, key: IKey, y: Node)
    requires Between(keys, x, n, key) && y != x && (y.At? ==> y.key in keys) && Passes(y, key)
    ensures x.At? && Passes(y, x.key)
  {
    if y.At? {
      assert !Passes(x, y.key) by {
        if n.Some? {
          CompareIsTotalOrder(y.key, n.value, key);
          CompareIsTotalOrder(n.value, y.key, key);
        }
      }
      CompareIsTotalOrder(x.key, y.key, key);
    }
  }

  // ---------- The list ----------

  datatype List = List(levels: seq<Links>, maxHeight: nat)

  function Empty(): List {
    List(seq(MAX_HEIGHT, _ => map[Head := None]), 1)
  }

  function Keys(list: List): set<IKey>
    requires |list.levels| == MAX_HEIGHT
  {
    Linked(list.levels[0])
  }

  ghost predicate Nested(levels: seq<Links>) {
    forall l, k :: 0 < l < |levels| && k in Linked(levels[l]) ==> k in Linked(levels[l - 1])
  }

  /** Every level is sorted, and each is part of the one below. */
  ghost predicate Ok(list: List) {
    && |list.levels| == MAX_HEIGHT && 1 <= list.maxHeight <= MAX_HEIGHT
    && (forall l :: 0 <= l < MAX_HEIGHT ==> LevelOk(list.levels[l]))
    && Nested(list.levels)
    && (forall l :: list.maxHeight <= l < MAX_HEIGHT ==> Linked(list.levels[l]) == {})
  }

  /** Replacing a level by one that has gained at most keys of the level below. */
  lemma GainsStayOk(list: List, l: nat, links: Links, gained: set<IKey>)
    requires Ok(list) && l < list.maxHeight && LevelOk(links) && Linked(links) == Linked(list.levels[l]) + gained
    requires 0 < l ==> gained <= Linked(list.levels[l - 1])
    ensures Ok(list.(levels := list.levels[l := links]))
  {
  }

  lemma {:induction false} OnLowestLevel(levels: seq<Links>, l: nat, k: IKey)
    requires Nested(levels) && l < |levels|
    ensures k in Linked(levels[l]) ==> k in Linked(levels[0])
  {
    if l > 0 {
      OnLowestLevel(levels, l - 1, k);
    }
  }

  // ---------- Searches ----------

  /** A search for the place of target (None: behind all keys) that has reached node at. */
  datatype Search =
    | Resting
    | Searching(target: Option<IKey>, at: Node, level: nat)
    | Stopped(target: Option<IKey>, at: Node, next: Option<IKey>)

  predicate Short(k: IKey, target: Option<IKey>) {
    target.None? || Less(k, target.value)
  }

  /** Where a search for target leaves the level. */
  ghost predicate LeavesAt(links: Links, x: Node, target: Option<IKey>) {
    && OnLevel(links, x) && (x.At? ==> Short(x.key, target))
    && (links[x].Some? ==> !Short(links[x].value, target))
  }

  /** One turn of the loops in FindGreaterOrEqual, FindLessThan and FindLast: it reads one pointer. */
  function Advance(list: List, s: Search): Search
    requires |list.levels| == MAX_HEIGHT && SearchOk(list, s) && s.Searching?
  {
    var next := list.levels[s.level][s.at];
    if next.Some? && Short(next.value, s.target) then Searching(s.target, At(next.value), s.level)
    else if s.level == 0 then Stopped(s.target, s.at, next)
    else Searching(s.target, s.at, s.level - 1)
  }

  ghost predicate SearchOk(list: List, s: Search)
    requires |list.levels| == MAX_HEIGHT
  {
    s.Searching? ==>
      s.level < MAX_HEIGHT && OnLevel(list.levels[s.level], s.at) && (s.at.At? ==> Short(s.at.key, s.target))
  }

  /** at is the last key before target (or the head), and next the first key that is not. */
  ghost predicate IsPlace(keys: set<IKey>, target: Option<IKey>, at: Node, next: Option<IKey>) {
    && (match at
        case Head => forall k :: k in keys ==> !Short(k, target)
        case At(m) => m in keys && Short(m, target) && forall k :: k in keys && Short(k, target) ==> !Less(m, k))
    && (match next
        case None => forall k :: k in keys ==> Short(k, target)
        case Some(m) => m in keys && !Short(m, target) && forall k :: k in keys && !Short(k, target) ==> !Less(k, m))
  }

  lemma PlaceFound(keys: set<IKey>, target: Option<IKey>, at: Node, next: Option<IKey>)
    requires IsNext(keys, at, next) && (at.At? ==> at.key in keys && Short(at.key, target))
    requires next.Some? ==> !Short(next.value, target)
    ensures IsPlace(keys, target, at, next)
  {
    forall k | k in keys && Short(k, target) ensures !Passes(at, k) {
      if next.Some? {
        CompareIsTotalOrder(next.value, k, target.value);
        CompareIsTotalOrder(k, next.value, target.value);
      }
    }
    forall k | k in keys && !Short(k, target) ensures Passes(at, k) {
      if at.At? {
        CompareIsTotalOrder(at.key, target.value, k);
        CompareIsTotalOrder(k, target.value, at.key);
      }
    }
  }

  /** A search step keeps its place valid; the last one finds the place among the keys of that moment. */
  lemma AdvanceIsRight(list: List, s: Search)
    requires Ok(list) && s.Searching? && SearchOk(list, s)
    ensures SearchOk(list, Advance(list, s))
    ensures Advance(list, s).Stopped? ==> IsPlace(Keys(list), s.target, s.at, Advance(list, s).next)
  {
    var links := list.levels[s.level];
    assert OnLevel(links, s.at);
    if s.level == 0 && Advance(list, s).Stopped? {
      PlaceFound(Linked(links), s.target, s.at, links[s.at]);
    }
  }
}
