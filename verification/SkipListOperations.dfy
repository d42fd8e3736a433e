/** The operations of the skip list, as one thread runs them. */
module SkipListOperations {
  import opened InternalKeys
  import opened Visibility
  import opened SkipLists

  class SkipList {
    var levels: seq<Links>
    var maxHeight: nat

    ghost predicate Valid()
      reads this
    {
      Ok(List(levels, maxHeight)) && forall l :: 0 <= l < MAX_HEIGHT ==> Settled(levels[l])
    }

    /** The keys of the list. */
    ghost function Contents(): set<IKey>
      requires |levels| == MAX_HEIGHT
      reads this
    {
      Linked(levels[0])
    }

    constructor ()
      ensures Valid() && Contents() == {}
    {
      levels, maxHeight := seq(MAX_HEIGHT, _ => map[Head := None]), 1;
    }

    lemma Turn(level: nat, x: Node, target: Option<IKey>)
      requires Valid() && level < maxHeight && SearchOk(List(levels, maxHeight), Searching(target, x, level))
      ensures x in levels[level]
      ensures var next := levels[level][x];
              if next.Some? && Short(next.value, target) then
                && SearchOk(List(levels, maxHeight), Searching(target, At(next.value), level))
                && |Behind(levels[level], At(next.value))| < |Behind(levels[level], x)|
              else
                && LeavesAt(levels[level], x, target)
                && (0 < level ==> SearchOk(List(levels, maxHeight), Searching(target, x, level - 1)))
                && (level == 0 ==> IsPlace(Contents(), target, x, next))
    {
      AdvanceIsRight(List(levels, maxHeight), Searching(target, x, level));
      var next := levels[level][x];
      if next.Some? && Short(next.value, target) {
        FewerBehind(levels[level], x);
      }
    }

    /** The loop of FindGreaterOrEqual, FindLessThan and FindLast: where the search for target (None: behind
        all keys) leaves every level, and the key that follows on the lowest. */
    method Search(target: Option<IKey>) returns (next: Option<IKey>, prev: seq<Node>)
      requires Valid()
      ensures |prev| == MAX_HEIGHT && forall l :: 0 <= l < maxHeight ==> LeavesAt(levels[l], prev[l], target)
      ensures IsPlace(Contents(), target, prev[0], next)
    {
      var x, level := Head, maxHeight - 1;
      prev := seq(MAX_HEIGHT, _ => Head);
      while true
        invariant 0 <= level < maxHeight && |prev| == MAX_HEIGHT
        invariant SearchOk(List(levels, maxHeight), Searching(target, x, level))
        invariant forall l :: level < l < maxHeight ==> LeavesAt(levels[l], prev[l], target)
        decreases level, |Behind(levels[level], x)|
      {
        next := levels[level][x];
        Turn(level, x, target);
        if next.Some? && Short(next.value, target) {
          x := At(next.value);
        } else {
          prev := prev[level := x];
          if level == 0 {
            return;
          }
          level := level - 1;
        }
      }
    }

    method FindGreaterOrEqual(key: IKey) returns (next: Option<IKey>, prev: seq<Node>)
      requires Valid()
      ensures |prev| == MAX_HEIGHT && forall l :: 0 <= l < maxHeight ==> Precedes(levels[l], prev[l], key)
      ensures match next
              case None => forall k :: k in Contents() ==> Less(k, key)
              case Some(m) =>
                m in Contents() && !Less(m, key) && forall k :: k in Contents() && !Less(k, key) ==> !Less(k, m)
    {
      next, prev := Search(Some(key));
      assert forall l :: 0 <= l < maxHeight ==> LeavesAt(levels[l], prev[l], Some(key));
    }

    method FindLessThan(key: IKey) returns (x: Node)
      requires Valid()
      ensures match x
              case Head => forall k :: k in Contents() ==> !Less(k, key)
              case At(m) =>
                m in Contents() && Less(m, key) && forall k :: k in Contents() && Less(k, key) ==> !Less(m, k)
    {
      var next, prev := Search(Some(key));
      x := prev[0];
    }

    method FindLast() returns (x: Node)
      requires Valid()
      ensures match x
              case Head => Contents() == {}
              case At(m) => m in Contents() && forall k :: k in Contents() ==> !Less(m, k)
    {
      var next, prev := Search(None);
      x := prev[0];
    }

    method Contains(key: IKey) returns (found: bool)
      requires Valid()
      ensures found <==> key in Contents()
    {
      var x, prev := FindGreaterOrEqual(key);
      CompareIsTotalOrder(key, key, key);
      found := x.Some? && Compare(key, x.value) == 0;
      if x.Some? {
        CompareIsTotalOrder(key, x.value, key);
      }
    }

    /** Links a key that is not in the list on its lowest `height` levels. */
    method Insert(key: IKey, height: nat)
      requires Valid() && key !in Contents() && 1 <= height <= MAX_HEIGHT
      modifies this
      ensures Valid() && Contents() == old(Contents()) + {key}
      ensures forall l :: 0 <= l < MAX_HEIGHT ==>
                Linked(levels[l]) == old(Linked(levels[l])) + if l < height then {key} else {}
    {
      var x, prev := FindGreaterOrEqual(key);
      if height > maxHeight {
        for i := maxHeight to height
          invariant |prev| == MAX_HEIGHT
          invariant forall l :: 0 <= l < i ==> Precedes(levels[l], prev[l], key)
        {
          assert OnLevel(levels[i], Head);
          prev := prev[i := Head];
        }
        maxHeight := height;
      }
      ghost var was := levels;
      forall l | 0 <= l < height ensures Precedes(was[l], prev[l], key) && key !in Linked(was[l]) {
        OnLowestLevel(was, l, key);
      }
      for i := 0 to height
        invariant Ok(List(levels, maxHeight)) && height <= maxHeight
        invariant forall l :: 0 <= l < MAX_HEIGHT ==> Settled(levels[l])
        invariant forall l :: i <= l < MAX_HEIGHT ==> levels[l] == was[l]
        invariant forall l :: 0 <= l < i ==> Linked(levels[l]) == Linked(was[l]) + {key}
      {
        LinkAt(i, prev[i], key);
      }
    }

    /** The two stores of an insertion on one level. */
    method LinkAt(i: nat, x: Node, key: IKey)
      requires Valid() && i < maxHeight && Precedes(levels[i], x, key) && key !in Linked(levels[i])
      requires 0 < i ==> key in Linked(levels[i - 1])
      modifies this`levels
      ensures Valid() && levels == old(levels)[i := levels[i]] && Linked(levels[i]) == old(Linked(levels[i])) + {key}
    {
      ghost var links := levels[i];
      ghost var own := links[At(key) := links[x]];
      OwnPointer(links, x, key);
      Publish(own, x, key);
      GainsStayOk(List(levels, maxHeight), i, own[x := Some(key)], {key});
      levels := levels[i := levels[i][At(key) := levels[i][x]]];
      levels := levels[i := levels[i][x := Some(key)]];
      assert levels == old(levels)[i := own[x := Some(key)]];
    }
  }
}
