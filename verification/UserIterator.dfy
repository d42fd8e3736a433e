/** The user's iterator (db/db_iter.cc): turns the internal entries into the live user keys of one
    snapshot, in either direction. */
module UserIterator {
  import opened InternalKeys
  import opened Visibility
  import opened Versions
  import opened CompactionWork
  import Merging

  // ---------- What the user should see ----------

  ghost predicate Live(es: seq<Entry>, s: nat, k: Key) {
    Read(EntrySet(es), k, s).Some?
  }

  /** The keys a move may land on. */
  datatype Range = Everything | From(least: Key) | Above(key: Key) | Below(key: Key) {
    predicate Has(k: Key) {
      match this
      case Everything => true
      case From(least) => k >= least
      case Above(key) => k > key
      case Below(key) => k < key
    }
  }

  /** The least live key in `range`, if there is one. */
  ghost predicate IsLeastLive(es: seq<Entry>, s: nat, range: Range, r: Option<Key>) {
    match r
    case Some(k) => range.Has(k) && Live(es, s, k) && forall j :: range.Has(j) && Live(es, s, j) ==> k <= j
    case None => forall j :: range.Has(j) ==> !Live(es, s, j)
  }

  ghost predicate IsGreatestLive(es: seq<Entry>, s: nat, range: Range, r: Option<Key>) {
    match r
    case Some(k) => range.Has(k) && Live(es, s, k) && forall j :: range.Has(j) && Live(es, s, j) ==> j <= k
    case None => forall j :: range.Has(j) ==> !Live(es, s, j)
  }

  // ---------- Entries in order ----------

  ghost predicate Proper(es: seq<Entry>) {
    Sorted(es) && UniqueSequences(EntrySet(es))
  }

  predicate VisibleAt(es: seq<Entry>, s: nat, i: int)
    requires 0 <= i < |es|
  {
    es[i].key.sequence <= s
  }

  lemma UsersAscend(es: seq<Entry>, i: nat, j: nat)
    requires Sorted(es) && i <= j < |es|
    ensures es[i].key.user <= es[j].key.user
  {
    assert i < j ==> Less(es[i].key, es[j].key);
  }

  /** The first visible entry of a user key decides whether the key is live, and with what value. */
  lemma FirstVisibleDecides(es: seq<Entry>, s: nat, i: nat)
    requires Proper(es) && i < |es| && VisibleAt(es, s, i)
    requires forall j :: 0 <= j < i && VisibleAt(es, s, j) ==> es[j].key.user != es[i].key.user
    ensures Read(EntrySet(es), es[i].key.user, s) == if es[i].key.kind.Put? then Some(es[i].value) else None
  {
    var e := es[i];
    assert e in EntrySet(es);
    forall x | x in EntrySet(es) && x.key.user == e.key.user && x.key.sequence <= s
      ensures x.key.sequence <= e.key.sequence
    {
      var j :| 0 <= j < |es| && es[j] == x;
      NotBefore(es, s, i, j);
    }
    FindIs(EntrySet(es), e.key.user, s, e);
  }

  /** A visible entry of the same user key as the first one does not stand before it, so it is no newer. */
  lemma NotBefore(es: seq<Entry>, s: nat, i: nat, j: nat)
    requires Proper(es) && i < |es| && j < |es|
    requires VisibleAt(es, s, j) && es[j].key.user == es[i].key.user
    requires forall n :: 0 <= n < i && VisibleAt(es, s, n) ==> es[n].key.user != es[i].key.user
    ensures i <= j && es[j].key.sequence <= es[i].key.sequence
  {
    assert i < j ==> Less(es[i].key, es[j].key);
  }

  lemma NoVisibleIsDead(es: seq<Entry>, s: nat, k: Key)
    requires forall j :: 0 <= j < |es| && VisibleAt(es, s, j) ==> es[j].key.user != k
    ensures !Live(es, s, k)
  {
    FindIsAbsent(EntrySet(es), k, s);
  }

  datatype Direction = Forward | Reverse

  class DBIter {
    const iter: Merging.MergingIterator
    const sequence: nat
    var direction: Direction
    var valid: bool
    var savedKey: Option<Key>
    var savedValue: Value

    /** Moving forward, the internal iterator is at the entry that yields key and value. Moving backwards,
        it is before all entries of the saved key, with only invisible entries in between. */
    ghost predicate Ok()
      reads this, iter, iter.children
    {
      && iter.Ok() && Proper(iter.union)
      && (valid && direction.Forward? ==> iter.Valid() && AtNewest(iter.union, sequence, iter.pos))
      && (valid && direction.Reverse?
          ==> savedKey.Some? && Read(EntrySet(iter.union), savedKey.value, sequence) == Some(savedValue)
                                          && JustBefore(iter.union, sequence, iter.pos, savedKey.value))
    }

    static ghost predicate AtNewest(es: seq<Entry>, s: nat, p: int)
      requires 0 <= p < |es|
    {
      && VisibleAt(es, s, p) && es[p].key.kind.Put?
      && forall j :: 0 <= j < p && VisibleAt(es, s, j) ==> es[j].key.user != es[p].key.user
    }

    static ghost predicate JustBefore(es: seq<Entry>, s: nat, p: int, k: Key) {
      && -1 <= p < |es|
      && (forall i :: 0 <= i <= p ==> es[i].key.user < k)
      && (forall i :: p < i < |es| && VisibleAt(es, s, i) ==> es[i].key.user >= k)
    }

    ghost function CurrentKey(): Option<Key>
      requires Ok()
      reads this, iter, iter.children
    {
      if !valid then None else Some(if direction.Forward? then iter.Current().key.user else savedKey.value)
    }

    constructor (iter: Merging.MergingIterator, sequence: nat)
      requires iter.Ok() && Proper(iter.union)
      ensures Ok() && !valid && this.iter == iter && this.sequence == sequence
    {
      this.iter, this.sequence := iter, sequence;
      direction, valid, savedKey, savedValue := Forward, false, None, [];
    }

    method UserKey() returns (k: Key)
      requires Ok() && valid
      ensures Some(k) == CurrentKey()
    {
      k := if direction.Forward? then iter.Current().key.user else savedKey.value;
    }

    method UserValue() returns (v: Value)
      requires Ok() && valid
      ensures Some(v) == Read(EntrySet(iter.union), CurrentKey().value, sequence)
    {
      if direction.Forward? {
        FirstVisibleDecides(iter.union, sequence, iter.pos);
        v := iter.Current().value;
      } else {
        v := savedValue;
      }
    }

    // ---------- Forward ----------

    /** Everything before p is settled: a visible entry there is outside the range, or belongs to a key
        up to `skip` while skipping, and no key of the range up to `skip` is live. */
    static ghost predicate SettledBefore(es: seq<Entry>, s: nat, range: Range, skipping: bool,
                                         skip: Option<Key>, p: int)
    {
      && 0 <= p <= |es|
      && (skipping ==> skip.Some?)
      && (forall j :: 0 <= j < p && VisibleAt(es, s, j) && range.Has(es[j].key.user)
                      ==> skipping && es[j].key.user <= skip.value)
      && (forall j :: p <= j < |es| && VisibleAt(es, s, j) ==>
            (range.Has(es[j].key.user) || (skipping && es[j].key.user <= skip.value))
            && (skipping ==> skip.value <= es[j].key.user))
      && (skipping ==> forall k :: range.Has(k) && k <= skip.value ==> !Live(es, s, k))
    }

    method FindNextUserEntry(skipping0: bool, skip0: Option<Key>, ghost range: Range)
      requires iter.Ok() && Proper(iter.union) && iter.Valid() && direction.Forward?
      requires SettledBefore(iter.union, sequence, range, skipping0, skip0, iter.pos)
      modifies this`valid, this`savedKey, iter, iter.children
      ensures Ok() && IsLeastLive(iter.union, sequence, range, CurrentKey())
    {
      hide Merging.MergingIterator.At, SettledBefore, IsLeastLive;
      ghost var es := iter.union;
      var skipping, skip := skipping0, skip0;
      while true
        invariant iter.Ok() && iter.Valid()
        invariant SettledBefore(es, sequence, range, skipping, skip, iter.pos)
        decreases |es| - iter.pos
      {
        var found;
        found, skipping, skip := Consider(iter.Current(), sequence, skipping, skip, es, iter.pos, range);
        if found {
          valid := true;
          savedKey := None;
          return;
        }
        iter.Next();
        if !iter.Valid() {
          break;
        }
      }
      NothingLeft(es, sequence, range, skipping, skip);
      savedKey := None;
      valid := false;
    }

    /** The loop's look at the current entry: it yields the next user key, or is settled. */
    static method Consider(e: Entry, s: nat, skipping0: bool, skip0: Option<Key>, ghost es: seq<Entry>, ghost p: nat,
                           ghost range: Range)
      returns (found: bool, skipping: bool, skip: Option<Key>)
      requires Proper(es) && p < |es| && e == es[p] && SettledBefore(es, s, range, skipping0, skip0, p)
      ensures if found then AtNewest(es, s, p) && IsLeastLive(es, s, range, Some(es[p].key.user))
              else SettledBefore(es, s, range, skipping, skip, p + 1)
    {
      assert skipping0 ==> skip0.Some?;
      hide SettledBefore, IsLeastLive, AtNewest, Proper;
      found, skipping, skip := false, skipping0, skip0;
      if e.key.sequence <= s {
        match e.key.kind {
          case Deletion =>
            SettleDeletion(es, s, range, skipping, skip, p);
            skip := Some(e.key.user);
            skipping := true;
          case Put =>
            if skipping && e.key.user <= skip.value {
              SettleHidden(es, s, range, skipping, skip, p);
            } else {
              FoundLeast(es, s, range, skipping, skip, p);
              found := true;
            }
        }
      } else {
        SettleHidden(es, s, range, skipping, skip, p);
      }
    }

    static lemma SettleDeletion(es: seq<Entry>, s: nat, range: Range, skipping: bool,
                                skip: Option<Key>, p: nat)
      requires Proper(es) && p < |es| && SettledBefore(es, s, range, skipping, skip, p)
      requires VisibleAt(es, s, p) && es[p].key.kind.Deletion?
      ensures SettledBefore(es, s, range, true, Some(es[p].key.user), p + 1)
    {
      var u := es[p].key.user;
      forall j | 0 <= j < |es| ensures j <= p ==> es[j].key.user <= u ensures p <= j ==> u <= es[j].key.user {
        if j <= p { UsersAscend(es, j, p); } else { UsersAscend(es, p, j); }
      }
      forall k | range.Has(k) && k <= u ensures !Live(es, s, k) {
        if skipping && k <= skip.value {
        } else if k == u {
          FirstVisibleDecides(es, s, p);
        } else {
          NoVisibleIsDead(es, s, k);
        }
      }
    }

    static lemma SettleHidden(es: seq<Entry>, s: nat, range: Range, skipping: bool,
                              skip: Option<Key>, p: nat)
      requires p < |es| && SettledBefore(es, s, range, skipping, skip, p)
      requires VisibleAt(es, s, p) ==> skipping && es[p].key.user <= skip.value
      ensures SettledBefore(es, s, range, skipping, skip, p + 1)
    {
    }

    static lemma FoundLeast(es: seq<Entry>, s: nat, range: Range, skipping: bool,
                            skip: Option<Key>, p: nat)
      requires Proper(es) && p < |es| && SettledBefore(es, s, range, skipping, skip, p)
      requires VisibleAt(es, s, p) && es[p].key.kind.Put? && !(skipping && es[p].key.user <= skip.value)
      ensures AtNewest(es, s, p) && IsLeastLive(es, s, range, Some(es[p].key.user))
    {
      var u := es[p].key.user;
      FirstVisibleDecides(es, s, p);
      forall k | range.Has(k) && k < u ensures !Live(es, s, k) {
        if !(skipping && k <= skip.value) {
          forall j | 0 <= j < |es| && VisibleAt(es, s, j) ensures es[j].key.user != k {
            if p <= j {
              UsersAscend(es, p, j);
            }
          }
          NoVisibleIsDead(es, s, k);
        }
      }
    }

    static lemma NothingLeft(es: seq<Entry>, s: nat, range: Range, skipping: bool, skip: Option<Key>)
      requires SettledBefore(es, s, range, skipping, skip, |es|)
      ensures IsLeastLive(es, s, range, None)
    {
      forall k | range.Has(k) ensures !Live(es, s, k) {
        if !(skipping && k <= skip.value) {
          NoVisibleIsDead(es, s, k);
        }
      }
    }

    method Seek(target: Key)
      requires Ok()
      modifies this, iter, iter.children
      ensures Ok() && IsLeastLive(iter.union, sequence, From(target), CurrentKey())
    {
      hide Merging.MergingIterator.At;
      direction, savedValue, savedKey := Forward, [], None;
      ghost var range := From(target);
      iter.Seek(SeekKey(target, sequence));
      SeekSettles(iter.union, sequence, target, iter.pos, range);
      if iter.Valid() {
        FindNextUserEntry(false, savedKey, range);
      } else {
        NothingLeft(iter.union, sequence, range, false, None);
        valid := false;
      }
    }

    static lemma SeekSettles(es: seq<Entry>, s: nat, target: Key, p: nat, range: Range)
      requires Sorted(es) && p == LowerBound(es, SeekKey(target, s)) && range == From(target)
      ensures SettledBefore(es, s, range, false, None, p)
    {
      forall j | 0 <= j < |es| && VisibleAt(es, s, j)
        ensures j < p ==> es[j].key.user < target
        ensures p <= j ==> es[j].key.user >= target
      {
        SeekKeySplits(es[j].key, target, s);
        if p <= j {
          UsersAscend(es, p, j);
          SeekKeySplits(es[p].key, target, s);
        }
      }
    }

    method SeekToFirst()
      requires Ok()
      modifies this, iter, iter.children
      ensures Ok() && IsLeastLive(iter.union, sequence, Everything, CurrentKey())
    {
      hide Merging.MergingIterator.At;
      direction, savedValue := Forward, [];
      ghost var range := Everything;
      iter.SeekToFirst();
      if iter.Valid() {
        FindNextUserEntry(false, savedKey, range);
      } else {
        NothingLeft(iter.union, sequence, range, false, None);
        valid := false;
      }
    }

    method Next()
      requires Ok() && valid
      modifies this, iter, iter.children
      ensures Ok() && IsLeastLive(iter.union, sequence, Above(old(CurrentKey()).value), CurrentKey())
    {
      hide Merging.MergingIterator.At;
      ghost var es, current := iter.union, CurrentKey().value;
      ghost var range := Above(current);
      if direction.Reverse? {
        direction := Forward;
        ReversePositionSettles(es, sequence, iter.pos, current, range);
        LiveKeyLiesAhead(es, sequence, iter.pos, current);
        if !iter.Valid() {
          iter.SeekToFirst();
        } else {
          iter.Next();
        }
        // The source stops here if the internal iterator ran off its end; the live key lies ahead, so it cannot.
        assert iter.Valid();
      } else {
        savedKey := Some(iter.Current().key.user);
        CurrentPositionSettles(es, sequence, iter.pos, current, range);
      }
      FindNextUserEntry(true, savedKey, range);
    }

    static lemma LiveKeyLiesAhead(es: seq<Entry>, s: nat, p: int, k: Key)
      requires Proper(es) && JustBefore(es, s, p, k) && Live(es, s, k)
      ensures p + 1 < |es|
    {
      FindIsAbsent(EntrySet(es), k, s);
      var e :| e in EntrySet(es) && e.key.user == k && e.key.sequence <= s;
      var i :| 0 <= i < |es| && es[i] == e;
    }

    static lemma ReversePositionSettles(es: seq<Entry>, s: nat, p: int, k: Key, range: Range)
      requires JustBefore(es, s, p, k) && range == Above(k)
      ensures SettledBefore(es, s, range, true, Some(k), p + 1)
    {
    }

    static lemma CurrentPositionSettles(es: seq<Entry>, s: nat, p: nat, k: Key, range: Range)
      requires Sorted(es) && p < |es| && k == es[p].key.user && range == Above(k)
      ensures SettledBefore(es, s, range, true, Some(k), p)
    {
      forall j | 0 <= j < |es| ensures j <= p ==> es[j].key.user <= k ensures p <= j ==> k <= es[j].key.user {
        if j <= p { UsersAscend(es, j, p); } else { UsersAscend(es, p, j); }
      }
    }

    // ---------- Backwards ----------

    /** Down to p, the scan has last seen the visible entry j (|es| if none yet): no key of the range above
        j's key is live, and between p and j nothing is visible. */
    static ghost predicate Scanned(es: seq<Entry>, s: nat, range: Range, p: int, j: int) {
      && -1 <= p < j <= |es|
      && (forall i :: 0 <= i <= p ==> range.Has(es[i].key.user))
      && (j == |es| ==> forall i :: p < i < |es| && VisibleAt(es, s, i) ==> !range.Has(es[i].key.user))
      && (j < |es| ==>
            && VisibleAt(es, s, j) && range.Has(es[j].key.user)
            && (forall i :: p < i < j ==> !VisibleAt(es, s, i))
            && (forall k :: range.Has(k) && k > es[j].key.user ==> !Live(es, s, k)))
    }

    ghost predicate Remembers(es: seq<Entry>, j: int, kind: Kind)
      requires 0 <= j <= |es|
      reads this
    {
      if j == |es| then kind.Deletion?
      else kind == es[j].key.kind && (kind.Put? ==> savedKey == Some(es[j].key.user) && savedValue == es[j].value)
    }

    method Save(e: Entry)
      modifies this`savedKey, this`savedValue
      ensures e.key.kind.Put? ==> savedKey == Some(e.key.user) && savedValue == e.value
      ensures e.key.kind.Deletion? ==> savedKey == None && savedValue == []
    {
      if e.key.kind.Deletion? {
        savedKey, savedValue := None, [];
      } else {
        savedKey, savedValue := Some(e.key.user), e.value;
      }
    }

    method FindPrevUserEntry(ghost range: Range)
      requires iter.Ok() && Proper(iter.union) && direction.Reverse?
      requires iter.pos < |iter.union| && Scanned(iter.union, sequence, range, iter.pos, |iter.union|)
      modifies this`valid, this`savedKey, this`savedValue, this`direction, iter, iter.children
      ensures Ok() && IsGreatestLive(iter.union, sequence, range, CurrentKey())
    {
      hide Merging.MergingIterator.At;
      ghost var es := iter.union;
      var valueType;
      ghost var j;
      valueType, j := ScanBack(range);
      if valueType == Deletion {
        NothingBefore(es, sequence, range, j);
        valid, savedKey, savedValue, direction := false, None, [], Forward;
      } else {
        FoundGreatest(es, sequence, range, iter.pos, j);
        valid := true;
      }
    }

    /** Remembers the last visible entry while scanning back, until a visible entry of a smaller key shows
        that the remembered value is final. */
    method ScanBack(ghost range: Range) returns (valueType: Kind, ghost j: int)
      requires iter.Ok() && Proper(iter.union)
      requires iter.pos < |iter.union| && Scanned(iter.union, sequence, range, iter.pos, |iter.union|)
      modifies this`savedKey, this`savedValue, iter, iter.children
      ensures iter.Ok() && iter.pos < |iter.union|
      ensures Scanned(iter.union, sequence, range, iter.pos, j) && Remembers(iter.union, j, valueType)
      ensures iter.Valid() ==> valueType.Put? && iter.Current().key.user < iter.union[j].key.user
    {
      hide Merging.MergingIterator.At;
      ghost var es := iter.union;
      j := |es|;
      valueType := Deletion;
      while iter.Valid()
        invariant iter.Ok() && iter.pos < |es|
        invariant Scanned(es, sequence, range, iter.pos, j) && Remembers(es, j, valueType)
        decreases iter.pos
      {
        var e := iter.Current();
        if e.key.sequence <= sequence {
          if valueType != Deletion && e.key.user < savedKey.value {
            return;
          }
          ScanVisible(es, sequence, range, iter.pos, j);
          valueType := e.key.kind;
          Save(e);
          j := iter.pos;
        } else {
          ScanInvisible(es, sequence, range, iter.pos, j);
        }
        iter.Prev();
      }
    }

    static lemma ScanInvisible(es: seq<Entry>, s: nat, range: Range, p: nat, j: int)
      requires Scanned(es, s, range, p, j) && !VisibleAt(es, s, p)
      ensures Scanned(es, s, range, p - 1, j)
    {
    }

    /** Nothing visible lies before p in the key of j, so what the scan remembers of j is final. */
    static lemma JFirst(es: seq<Entry>, s: nat, p: int, j: nat)
      requires Proper(es) && -1 <= p < j < |es| && VisibleAt(es, s, j)
      requires forall i :: p < i < j ==> !VisibleAt(es, s, i)
      requires p >= 0 ==> es[p].key.user < es[j].key.user
      ensures forall i :: 0 <= i < j && VisibleAt(es, s, i) ==> es[i].key.user < es[j].key.user
    {
      forall i | 0 <= i < j && VisibleAt(es, s, i) ensures es[i].key.user < es[j].key.user {
        UsersAscend(es, i, p);
      }
    }

    static lemma ScanVisible(es: seq<Entry>, s: nat, range: Range, p: nat, j: int)
      requires Proper(es) && Scanned(es, s, range, p, j) && VisibleAt(es, s, p)
      requires j < |es| && es[j].key.kind.Put? ==> es[p].key.user >= es[j].key.user
      ensures Scanned(es, s, range, p - 1, p)
    {
      var u := es[p].key.user;
      forall k | range.Has(k) && k > u ensures !Live(es, s, k) {
        if j < |es| && k > es[j].key.user {
        } else if j < |es| && k == es[j].key.user {
          JFirst(es, s, p, j);
          FirstVisibleDecides(es, s, j);
        } else {
          forall i | 0 <= i < |es| && VisibleAt(es, s, i) ensures es[i].key.user != k {
            if i <= p {
              UsersAscend(es, i, p);
            } else if j < |es| && j <= i {
              UsersAscend(es, j, i);
            }
          }
          NoVisibleIsDead(es, s, k);
        }
      }
    }

    static lemma NothingBefore(es: seq<Entry>, s: nat, range: Range, j: int)
      requires Proper(es) && Scanned(es, s, range, -1, j) && (j < |es| ==> es[j].key.kind.Deletion?)
      ensures IsGreatestLive(es, s, range, None)
    {
      forall k | range.Has(k) ensures !Live(es, s, k) {
        if j < |es| && k > es[j].key.user {
        } else if j < |es| && k == es[j].key.user {
          FirstVisibleDecides(es, s, j);
        } else {
          forall i | 0 <= i < |es| && VisibleAt(es, s, i) ensures es[i].key.user != k {
            if j < |es| && j <= i {
              UsersAscend(es, j, i);
            }
          }
          NoVisibleIsDead(es, s, k);
        }
      }
    }

    static lemma FoundGreatest(es: seq<Entry>, s: nat, range: Range, p: int, j: int)
      requires Proper(es) && Scanned(es, s, range, p, j) && j < |es| && es[j].key.kind.Put?
      requires p >= 0 ==> es[p].key.user < es[j].key.user
      ensures IsGreatestLive(es, s, range, Some(es[j].key.user))
      ensures Read(EntrySet(es), es[j].key.user, s) == Some(es[j].value)
      ensures JustBefore(es, s, p, es[j].key.user)
    {
      JFirst(es, s, p, j);
      FirstVisibleDecides(es, s, j);
      forall i | 0 <= i <= p ensures es[i].key.user < es[j].key.user {
        UsersAscend(es, i, p);
      }
      forall i | p < i < |es| && VisibleAt(es, s, i) ensures es[i].key.user >= es[j].key.user {
        UsersAscend(es, j, i);
      }
    }

    method Prev()
      requires Ok() && valid
      modifies this, iter, iter.children
      ensures Ok() && IsGreatestLive(iter.union, sequence, Below(old(CurrentKey()).value), CurrentKey())
    {
      hide Merging.MergingIterator.At;
      ghost var es, current := iter.union, CurrentKey().value;
      if direction.Forward? {
        savedKey := Some(iter.Current().key.user);
        SkipBackOver(savedKey.value);
        if !iter.Valid() {
          NothingBefore(es, sequence, Below(current), |es|);
          valid, savedKey, savedValue := false, None, [];
          return;
        }
        direction := Reverse;
      }
      FindPrevUserEntry(Below(current));
    }

    /** Scans back until the user key changes. */
    method SkipBackOver(k: Key)
      requires iter.Ok() && Sorted(iter.union) && iter.Valid() && iter.Current().key.user >= k
      modifies iter, iter.children
      ensures iter.Ok() && iter.pos < |iter.union|
      ensures Scanned(iter.union, sequence, Below(k), iter.pos, |iter.union|)
    {
      hide Merging.MergingIterator.At;
      ghost var es := iter.union;
      while true
        invariant iter.Ok() && iter.Valid() && es[iter.pos].key.user >= k
        decreases iter.pos
      {
        iter.Prev();
        if !iter.Valid() || iter.Current().key.user < k {
          AllFrom(es, sequence, iter.pos, k, Below(k));
          break;
        }
      }
    }

    static lemma AllFrom(es: seq<Entry>, s: nat, p: int, k: Key, range: Range)
      requires Sorted(es) && -1 <= p < |es| - 1 && range == Below(k)
      requires p >= 0 ==> es[p].key.user < k
      requires es[p + 1].key.user >= k
      ensures Scanned(es, s, range, p, |es|)
    {
      forall i | 0 <= i < |es| ensures i <= p ==> es[i].key.user < k ensures p < i ==> es[i].key.user >= k {
        if i <= p { UsersAscend(es, i, p); } else { UsersAscend(es, p + 1, i); }
      }
    }

    method SeekToLast()
      requires Ok()
      modifies this, iter, iter.children
      ensures Ok() && IsGreatestLive(iter.union, sequence, Everything, CurrentKey())
    {
      hide Merging.MergingIterator.At;
      direction, savedValue := Reverse, [];
      iter.SeekToLast();
      FindPrevUserEntry(Everything);
    }
  }
}
