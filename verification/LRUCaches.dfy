/** One shard of the LRU cache (util/cache.cc, LRUCache). */
module LRUCaches {
  import opened Coding
  import opened HandleTables

  /** The list without e. */
  function Without(s: seq<Handle>, e: Handle?): (r: seq<Handle>)
    ensures e == null || e !in s ==> r == s
  {
    if s == [] then [] else if s[0] == e then s[1..] else [s[0]] + Without(s[1..], e)
  }

  function Charges(s: seq<Handle>): nat {
    if s == [] then 0 else s[0].charge + Charges(s[1..])
  }

  lemma {:induction false} WithoutIs(s: seq<Handle>, e: Handle)
    requires e in s
    ensures multiset(Without(s, e)) == multiset(s) - multiset{e}
    ensures Charges(s) == Charges(Without(s, e)) + e.charge
  {
    assert s == [s[0]] + s[1..];
    if s[0] != e {
      WithoutIs(s[1..], e);
    }
  }

  lemma {:induction false} ChargesAppend(s: seq<Handle>, e: Handle)
    ensures Charges(s + [e]) == Charges(s) + e.charge
  {
    if s == [] {
      assert s + [e] == [e] + [];
    } else {
      assert (s + [e])[1..] == s[1..] + [e];
      ChargesAppend(s[1..], e);
    }
  }

  // ---------- The invariant ----------

  /** The two lists hold the cached handles, once each, and usage is the sum of their charges. */
  ghost predicate ListsHold(lru: seq<Handle>, inUse: seq<Handle>, usage: nat, cached: set<Handle>) {
    && multiset(lru) + multiset(inUse) == multiset(cached)
    && usage == Charges(lru) + Charges(inUse)
  }

  /** The LRU list has the cached handles that no client holds. */
  ghost predicate LruIsFree(lru: seq<Handle>, cached: set<Handle>, held: multiset<Handle>) {
    forall h :: h in cached ==> (h in lru <==> held[h] == 0)
  }

  /** Every reference is the cache's or a client's. */
  ghost predicate Counted(refs: map<Handle, nat>, cached: set<Handle>, held: multiset<Handle>) {
    && cached <= refs.Keys
    && (forall h :: h in held ==> h in refs)
    && (forall h {:trigger refs[h]} :: h in refs ==> refs[h] == held[h] + if h in cached then 1 else 0)
  }

  /** The deleter has run once for every handle without references, and for no other. */
  ghost predicate FreedOnce(freed: seq<Handle>, refs: map<Handle, nat>) {
    && multiset(freed) <= multiset(refs.Keys)
    && (forall h {:trigger refs[h]} {:trigger h in freed} :: h in refs ==> (h in freed <==> refs[h] == 0))
  }

  /** A cached handle is on exactly one of the lists, once. */
  lemma OnOneList(lru: seq<Handle>, inUse: seq<Handle>, usage: nat, cached: set<Handle>, h: Handle)
    requires ListsHold(lru, inUse, usage, cached)
    ensures multiset(lru)[h] + multiset(inUse)[h] == if h in cached then 1 else 0
    ensures h in cached <==> h in lru || h in inUse
    ensures !(h in lru && h in inUse)
  {
    assert (multiset(lru) + multiset(inUse))[h] == multiset(cached)[h];
  }

  lemma ToInUse(lru: seq<Handle>, inUse: seq<Handle>, usage: nat, cached: set<Handle>, held: multiset<Handle>,
                e: Handle)
    requires ListsHold(lru, inUse, usage, cached) && LruIsFree(lru, cached, held) && e in lru
    ensures ListsHold(Without(lru, e), inUse + [e], usage, cached)
    ensures LruIsFree(Without(lru, e), cached, held + multiset{e})
  {
    OnOneList(lru, inUse, usage, cached, e);
    WithoutIs(lru, e);
    ChargesAppend(inUse, e);
    forall h | h in cached ensures h in Without(lru, e) <==> (held + multiset{e})[h] == 0 {
      assert multiset(Without(lru, e))[h] == (multiset(lru) - multiset{e})[h];
    }
  }

  lemma ToLru(lru: seq<Handle>, inUse: seq<Handle>, usage: nat, cached: set<Handle>, held: multiset<Handle>, e: Handle)
    requires ListsHold(lru, inUse, usage, cached) && LruIsFree(lru, cached, held) && e in inUse && held[e] == 1
    ensures ListsHold(lru + [e], Without(inUse, e), usage, cached)
    ensures LruIsFree(lru + [e], cached, held - multiset{e})
  {
    OnOneList(lru, inUse, usage, cached, e);
    WithoutIs(inUse, e);
    ChargesAppend(lru, e);
  }

  /** Another reference to a handle that some client holds, or one of several less. */
  lemma StillHeld(lru: seq<Handle>, cached: set<Handle>, held: multiset<Handle>, held': multiset<Handle>, e: Handle)
    requires LruIsFree(lru, cached, held) && (e in cached ==> held[e] > 0 && held'[e] > 0)
    requires held' == held + multiset{e} || held' == held - multiset{e}
    ensures LruIsFree(lru, cached, held')
  {
  }

  lemma CountedUp(refs: map<Handle, nat>, cached: set<Handle>, held: multiset<Handle>, freed: seq<Handle>, e: Handle)
    requires Counted(refs, cached, held) && FreedOnce(freed, refs) && e in refs && refs[e] > 0
    ensures Counted(refs[e := refs[e] + 1], cached, held + multiset{e})
    ensures FreedOnce(freed, refs[e := refs[e] + 1])
  {
    assert refs[e := refs[e] + 1].Keys == refs.Keys;
  }

  function Freed(freed: seq<Handle>, e: Handle, refs: nat): seq<Handle> {
    if refs == 0 then freed + [e] else freed
  }

  /** A client's reference less. */
  lemma CountedDown(refs: map<Handle, nat>, cached: set<Handle>, held: multiset<Handle>, freed: seq<Handle>, e: Handle)
    requires Counted(refs, cached, held) && FreedOnce(freed, refs) && e in held
    ensures e in refs && refs[e] > 0
    ensures Counted(refs[e := refs[e] - 1], cached, held - multiset{e})
    ensures FreedOnce(Freed(freed, e, refs[e] - 1), refs[e := refs[e] - 1])
  {
    FreedMore(freed, refs, e);
  }

  /** The cache's reference less. */
  lemma Uncached(refs: map<Handle, nat>, cached: set<Handle>, held: multiset<Handle>, freed: seq<Handle>, e: Handle)
    requires Counted(refs, cached, held) && FreedOnce(freed, refs) && e in cached
    ensures e in refs && refs[e] > 0
    ensures Counted(refs[e := refs[e] - 1], cached - {e}, held)
    ensures FreedOnce(Freed(freed, e, refs[e] - 1), refs[e := refs[e] - 1])
  {
    FreedMore(freed, refs, e);
  }

  lemma FreedMore(freed: seq<Handle>, refs: map<Handle, nat>, e: Handle)
    requires FreedOnce(freed, refs) && e in refs && refs[e] > 0
    ensures FreedOnce(Freed(freed, e, refs[e] - 1), refs[e := refs[e] - 1])
  {
    assert refs[e := refs[e] - 1].Keys == refs.Keys;
    assert e !in freed && multiset(freed)[e] == 0;
  }

  /** A handle leaves its list and the cache. */
  lemma OthersStay(s: seq<Handle>, e: Handle)
    requires e in s
    ensures forall h :: h != e ==> (h in Without(s, e) <==> h in s)
  {
    WithoutIs(s, e);
    forall h | h != e ensures h in Without(s, e) <==> h in s {
      assert multiset(Without(s, e))[h] == (multiset(s) - multiset{e})[h];
    }
  }

  lemma Dropped(lru: seq<Handle>, inUse: seq<Handle>, usage: nat, cached: set<Handle>, held: multiset<Handle>,
                e: Handle)
    requires ListsHold(lru, inUse, usage, cached) && LruIsFree(lru, cached, held) && e in cached
    ensures e.charge <= usage
    ensures ListsHold(Without(lru, e), Without(inUse, e), usage - e.charge, cached - {e})
    ensures LruIsFree(Without(lru, e), cached - {e}, held)
  {
    OnOneList(lru, inUse, usage, cached, e);
    assert multiset(cached - {e}) == multiset(cached) - multiset{e};
    if e in lru {
      WithoutIs(lru, e);
      OthersStay(lru, e);
    } else {
      WithoutIs(inUse, e);
    }
  }

  // ---------- States ----------

  /** The fields of a cache, with the references its clients hold and the handles whose deleter has run. */
  datatype State = State(usage: nat, lru: seq<Handle>, inUse: seq<Handle>, refs: map<Handle, nat>, cached: set<Handle>,
                         held: multiset<Handle>, freed: seq<Handle>)

  ghost predicate Sound(s: State) {
    && ListsHold(s.lru, s.inUse, s.usage, s.cached) && LruIsFree(s.lru, s.cached, s.held)
    && Counted(s.refs, s.cached, s.held) && FreedOnce(s.freed, s.refs)
  }

  /** What the invariant says of every handle ever made: it is on the LRU list exactly if it is cached and only the
      cache refers to it, and its deleter has run, once, exactly if nobody refers to it. */
  lemma HandleFates(s: State, h: Handle)
    requires Sound(s) && h in s.refs
    ensures h in s.lru <==> h in s.cached && s.refs[h] == 1
    ensures h in s.inUse <==> h in s.cached && s.refs[h] > 1
    ensures multiset(s.freed)[h] == if h !in s.cached && s.held[h] == 0 then 1 else 0
  {
    OnOneList(s.lru, s.inUse, s.usage, s.cached, h);
    assert multiset(s.freed)[h] <= multiset(s.refs.Keys)[h];
    assert h in s.freed <==> multiset(s.freed)[h] > 0;
  }

  /** One more reference; a handle on the LRU list moves to the other one. */
  function AfterRef(s: State, e: Handle): State
    requires e in s.refs
  {
    var s' := s.(refs := s.refs[e := s.refs[e] + 1]);
    if s.refs[e] == 1 && e in s.cached then s'.(lru := Without(s.lru, e), inUse := s.inUse + [e]) else s'
  }

  /** One reference less: the last one runs the deleter; the last client's puts a cached handle at the end of
      the LRU list. */
  function AfterUnref(s: State, e: Handle): State
    requires e in s.refs && s.refs[e] > 0
  {
    var n := s.refs[e] - 1;
    var s' := s.(refs := s.refs[e := n], freed := Freed(s.freed, e, n));
    if n == 1 && e in s.cached then s'.(inUse := Without(s.inUse, e), lru := s.lru + [e]) else s'
  }

  /** A handle leaves the cache, but the cache's reference is still counted. */
  function AfterDrop(s: State, e: Handle): State
    requires e.charge <= s.usage
  {
    s.(lru := Without(s.lru, e), inUse := Without(s.inUse, e), cached := s.cached - {e}, usage := s.usage - e.charge)
  }

  lemma RefSound(s: State, e: Handle)
    requires Sound(s) && e in s.cached
    ensures e in s.refs && Sound(AfterRef(s, e).(held := s.held + multiset{e}))
    ensures AfterRef(s, e).lru == Without(s.lru, e)
  {
    OnOneList(s.lru, s.inUse, s.usage, s.cached, e);
    CountedUp(s.refs, s.cached, s.held, s.freed, e);
    if s.refs[e] == 1 {
      ToInUse(s.lru, s.inUse, s.usage, s.cached, s.held, e);
    } else {
      StillHeld(s.lru, s.cached, s.held, s.held + multiset{e}, e);
    }
  }

  lemma ReleaseSound(s: State, e: Handle)
    requires Sound(s) && e in s.held
    ensures e in s.refs && s.refs[e] > 0 && Sound(AfterUnref(s, e).(held := s.held - multiset{e}))
    ensures AfterUnref(s, e).freed == if s.held[e] == 1 && e !in s.cached then s.freed + [e] else s.freed
    ensures AfterUnref(s, e).lru == if s.held[e] == 1 && e in s.cached then s.lru + [e] else s.lru
  {
    OnOneList(s.lru, s.inUse, s.usage, s.cached, e);
    CountedDown(s.refs, s.cached, s.held, s.freed, e);
    if s.held[e] == 1 && e in s.cached {
      ToLru(s.lru, s.inUse, s.usage, s.cached, s.held, e);
    } else {
      StillHeld(s.lru, s.cached, s.held, s.held - multiset{e}, e);
    }
  }

  lemma EraseSound(s: State, e: Handle)
    requires Sound(s) && e in s.cached
    ensures e.charge <= s.usage && e in s.refs && s.refs[e] > 0
    ensures var s' := AfterUnref(AfterDrop(s, e), e);
            && Sound(s') && s'.lru == Without(s.lru, e) && s'.cached == s.cached - {e} && s'.usage == s.usage - e.charge
            && s'.freed == if e in s.lru then s.freed + [e] else s.freed
  {
    OnOneList(s.lru, s.inUse, s.usage, s.cached, e);
    Dropped(s.lru, s.inUse, s.usage, s.cached, s.held, e);
    Uncached(s.refs, s.cached, s.held, s.freed, e);
  }

  /** A new handle, held by a client and perhaps by the cache. */
  function AfterAdd(s: State, e: Handle, cache: bool): State {
    if cache then
      s.(refs := s.refs[e := 2], held := s.held + multiset{e}, cached := s.cached + {e}, inUse := s.inUse + [e],
         usage := s.usage + e.charge)
    else s.(refs := s.refs[e := 1], held := s.held + multiset{e})
  }

  lemma AddSound(s: State, e: Handle, cache: bool)
    requires Sound(s) && e !in s.refs
    ensures Sound(AfterAdd(s, e, cache)) && e !in s.cached && e !in s.lru
    ensures AfterAdd(s, e, cache).refs.Keys == s.refs.Keys + {e}
  {
    AddCounted(s.refs, s.cached, s.held, s.freed, e, cache);
    OnOneList(s.lru, s.inUse, s.usage, s.cached, e);
    if cache {
      AddListed(s.lru, s.inUse, s.usage, s.cached, s.held, e);
    } else {
      StillHeld(s.lru, s.cached, s.held, s.held + multiset{e}, e);
    }
  }

  lemma AddListed(lru: seq<Handle>, inUse: seq<Handle>, usage: nat, cached: set<Handle>, held: multiset<Handle>,
                  e: Handle)
    requires ListsHold(lru, inUse, usage, cached) && LruIsFree(lru, cached, held) && e !in cached
    ensures ListsHold(lru, inUse + [e], usage + e.charge, cached + {e})
    ensures LruIsFree(lru, cached + {e}, held + multiset{e})
  {
    OnOneList(lru, inUse, usage, cached, e);
    ChargesAppend(inUse, e);
    assert multiset(cached + {e}) == multiset(cached) + multiset{e};
  }

  lemma AddCounted(
    refs: map<Handle, nat>, cached: set<Handle>, held: multiset<Handle>, freed: seq<Handle>, e: Handle, cache: bool)
    requires Counted(refs, cached, held) && FreedOnce(freed, refs) && e !in refs
    ensures var refs' := refs[e := if cache then 2 else 1];
            Counted(refs', if cache then cached + {e} else cached, held + multiset{e}) && FreedOnce(freed, refs')
    ensures e !in cached
  {
    var refs' := refs[e := if cache then 2 else 1];
    assert refs'.Keys == refs.Keys + {e};
    assert multiset(freed)[e] <= multiset(refs.Keys)[e];
    assert e !in held && e !in freed;
  }

  function Among(list: seq<Handle>): set<Handle> {
    set h | h in list
  }

  /** The n handles that were released longest ago left the cache, and their deleters ran in that order. */
  ghost predicate Evicted(s: State, s': State, n: nat) {
    && n <= |s.lru| && s'.lru == s.lru[n..] && s'.freed == s.freed + s.lru[..n]
    && s'.cached == s.cached - Among(s.lru[..n])
  }

  /** With one handle less evicted the cache would still be over its capacity. */
  ghost predicate NoneTooMany(lru: seq<Handle>, n: nat, usage: nat, capacity: nat) {
    n > 0 ==> n <= |lru| && usage + lru[n - 1].charge > capacity
  }

  lemma OneMoreEvicted(s: State, s': State, n: nat)
    requires Evicted(s, s', n) && s'.lru != []
    ensures s'.lru[0] == s.lru[n] && s'.lru[1..] == s.lru[n + 1..]
    ensures s'.freed + [s.lru[n]] == s.freed + s.lru[..n + 1]
    ensures s'.cached - {s.lru[n]} == s.cached - Among(s.lru[..n + 1])
  {
    assert s.lru[..n + 1] == s.lru[..n] + [s.lru[n]];
  }

  class LRUCache {
    const capacity: nat
    var usage: nat
    /** Cached handles that no client holds, the one released longest ago first, and those that clients hold. */
    var lru: seq<Handle>
    var inUse: seq<Handle>
    const table: HandleTable
    /** Of every handle made, its reference count, and those whose in_cache flag is set. */
    var refs: map<Handle, nat>
    var cached: set<Handle>
    /** The handles that clients hold, and those whose deleter has run, in that order. */
    ghost var held: multiset<Handle>
    ghost var freed: seq<Handle>

    ghost function Now(): State
      reads this
    {
      State(usage, lru, inUse, refs, cached, held, freed)
    }

    ghost predicate Valid()
      reads this, table
    {
      Sound(Now()) && table.Valid() && table.Contents() == cached
    }

    constructor (capacity: nat)
      ensures Valid() && this.capacity == capacity && fresh(table)
      ensures Now() == State(0, [], [], map[], {}, multiset{}, [])
    {
      this.capacity := capacity;
      usage, lru, inUse, refs, cached := 0, [], [], map[], {};
      table := new HandleTable();
      held, freed := multiset{}, [];
    }

    // ---------- References ----------

    method Ref(e: Handle)
      requires e in refs
      modifies this`lru, this`inUse, this`refs
      ensures Now() == AfterRef(old(Now()), e)
    {
      if refs[e] == 1 && e in cached {
        lru := Without(lru, e);
        inUse := inUse + [e];
      }
      refs := refs[e := refs[e] + 1];
    }

    method Unref(e: Handle)
      requires e in refs && refs[e] > 0
      modifies this`lru, this`inUse, this`refs, this`freed
      ensures Now() == AfterUnref(old(Now()), e)
    {
      refs := refs[e := refs[e] - 1];
      if refs[e] == 0 {
        freed := freed + [e];
      } else if e in cached && refs[e] == 1 {
        inUse := Without(inUse, e);
        lru := lru + [e];
      }
    }

    /** A client gives a handle back. */
    method Release(e: Handle)
      requires Valid() && e in held
      modifies this`lru, this`inUse, this`refs, this`held, this`freed
      ensures Valid() && held == old(held) - multiset{e}
      ensures freed == if old(held)[e] == 1 && e !in cached then old(freed) + [e] else old(freed)
      ensures lru == if old(held)[e] == 1 && e in cached then old(lru) + [e] else old(lru)
    {
      ReleaseSound(Now(), e);
      Unref(e);
      held := held - multiset{e};
    }

    /** Finishes removing a handle that is no longer in the hash table. */
    method FinishErase(e: Handle?) returns (erased: bool)
      requires Sound(Now()) && (e != null ==> e in cached)
      modifies this
      ensures Sound(Now()) && held == old(held) && (erased <==> e != null)
      ensures cached == (if e == null then old(cached) else old(cached) - {e})
      ensures lru == Without(old(lru), e)
      ensures freed == if e != null && e in old(lru) then old(freed) + [e] else old(freed)
      ensures usage == (old(usage) - if e == null then 0 else e.charge) && refs.Keys == old(refs).Keys
    {
      if e != null {
        ghost var s := Now();
        EraseSound(s, e);
        lru, inUse := Without(lru, e), Without(inUse, e);
        cached := cached - {e};
        usage := usage - e.charge;
        assert Now() == AfterDrop(s, e);
        Unref(e);
      }
      return e != null;
    }

    // ---------- Operations ----------

    method Lookup(key: Bytes, hash: nat) returns (e: Handle?)
      requires Valid()
      modifies this`lru, this`inUse, this`refs, this`held
      ensures Valid()
      ensures if e == null then (forall h :: h in cached ==> !Is(h, key, hash)) && held == old(held) && lru == old(lru)
              else e in cached && Is(e, key, hash) && held == old(held) + multiset{e} && lru == Without(old(lru), e)
    {
      e := table.Lookup(key, hash);
      if e != null {
        RefSound(Now(), e);
        Ref(e);
        held := held + multiset{e};
      }
    }

    method Erase(key: Bytes, hash: nat) returns (ghost e: Handle?)
      requires Valid()
      modifies this, table
      ensures Valid() && held == old(held)
      ensures e != null ==> e in old(cached) && Is(e, key, hash)
      ensures cached == (if e == null then old(cached) else old(cached) - {e})
      ensures forall h :: h in cached ==> !Is(h, key, hash)
      ensures lru == Without(old(lru), e)
      ensures freed == if e != null && e in old(lru) then old(freed) + [e] else old(freed)
    {
      var h := table.Remove(key, hash);
      e := h;
      var erased := FinishErase(h);
    }

    /** Removes the handle that was released longest ago. */
    method EvictOldest()
      requires Valid() && lru != []
      modifies this, table
      ensures Valid() && held == old(held)
      ensures lru == old(lru)[1..] && freed == old(freed) + [old(lru)[0]]
      ensures usage == old(usage) - old(lru)[0].charge && cached == old(cached) - {old(lru)[0]}
      ensures refs.Keys == old(refs).Keys
    {
      var e := lru[0];
      OnOneList(lru, inUse, usage, cached, e);
      assert e in table.Contents() && Is(e, e.key, e.hash);
      var h := table.Remove(e.key, e.hash);
      assert h != null && SameId(h, e);
      var erased := FinishErase(h);
    }

    method EvictNext(ghost before: State, ghost n: nat)
      requires Valid() && lru != [] && Evicted(before, Now(), n)
      modifies this, table
      ensures Valid() && held == old(held) && refs.Keys == old(refs).Keys && |lru| == |old(lru)| - 1
      ensures Evicted(before, Now(), n + 1) && usage + before.lru[n].charge == old(usage)
    {
      OneMoreEvicted(before, Now(), n);
      EvictOldest();
    }

    method Prune()
      requires Valid()
      modifies this, table
      ensures Valid() && held == old(held) && lru == [] && freed == old(freed) + old(lru)
      ensures cached == old(cached) - Among(old(lru))
    {
      ghost var n := 0;
      while lru != []
        invariant Valid() && held == old(held) && Evicted(old(Now()), Now(), n)
        decreases |lru|
      {
        EvictNext(old(Now()), n);
        n := n + 1;
      }
      assert old(lru)[..n] == old(lru);
    }

    /** The state with the entry added, and the one it replaces gone, before anything is evicted. */
    ghost function AfterInsert(s: State, e: Handle, replaced: Handle?): State {
      s.(lru := Without(s.lru, replaced),
         freed := s.freed + if replaced != null && replaced in s.lru then [replaced] else [],
         cached := (if capacity > 0 then s.cached + {e} else s.cached) - {replaced})
    }

    /** Adds an entry for the client and, if there is any capacity, for the cache, then evicts the handles released
        longest ago while the cache is over its capacity. */
    method Insert(key: Bytes, hash: nat, value: Bytes, charge: nat)
      returns (e: Handle, ghost replaced: Handle?, ghost n: nat)
      requires Valid()
      modifies this, table
      ensures Valid() && fresh(e) && Is(e, key, hash) && e.value == value && e.charge == charge
      ensures held == old(held) + multiset{e} && refs.Keys == old(refs).Keys + {e}
      ensures e in cached <==> capacity > 0
      ensures replaced != null ==> capacity > 0 && replaced in old(cached) && SameId(replaced, e)
      ensures replaced == null && capacity > 0 ==> forall h :: h in old(cached) ==> !SameId(h, e)
      ensures usage <= capacity || lru == []
      ensures Evicted(AfterInsert(old(Now()), e, replaced), Now(), n)
      ensures NoneTooMany(Without(old(lru), replaced), n, usage, capacity)
    {
      e := NewEntry(key, hash, value, charge);
      replaced := AddToTable(e);
      n := Evict(e);
    }

    /** Evicts while the cache is over its capacity; e is in use, so it stays. */
    method Evict(ghost e: Handle) returns (ghost n: nat)
      requires Valid() && e !in lru
      modifies this, table
      ensures Valid() && held == old(held) && refs.Keys == old(refs).Keys
      ensures e in cached <==> e in old(cached)
      ensures usage <= capacity || lru == []
      ensures Evicted(old(Now()), Now(), n) && NoneTooMany(old(lru), n, usage, capacity)
    {
      n := 0;
      while usage > capacity && lru != []
        invariant Valid() && held == old(held) && refs.Keys == old(refs).Keys && Evicted(old(Now()), Now(), n)
        invariant NoneTooMany(old(lru), n, usage, capacity)
        decreases |lru|
      {
        EvictNext(old(Now()), n);
        n := n + 1;
      }
    }

    method NewEntry(key: Bytes, hash: nat, value: Bytes, charge: nat) returns (e: Handle)
      requires Valid()
      modifies this`refs, this`held, this`cached, this`inUse, this`usage
      ensures fresh(e) && Is(e, key, hash) && e.value == value && e.charge == charge && e !in lru
      ensures Sound(Now()) && held == old(held) + multiset{e} && refs.Keys == old(refs).Keys + {e}
      ensures e !in table.Contents()
      ensures cached == if capacity > 0 then table.Contents() + {e} else table.Contents()
    {
      e := new Handle(key, hash, value, charge);
      AddSound(Now(), e, capacity > 0);
      Enter(e);
    }

    method Enter(e: Handle)
      modifies this`refs, this`held, this`cached, this`inUse, this`usage
      ensures Now() == AfterAdd(old(Now()), e, capacity > 0)
    {
      refs := refs[e := if capacity > 0 then 2 else 1];
      held := held + multiset{e};
      if capacity > 0 {
        cached := cached + {e};
        inUse := inUse + [e];
        usage := usage + e.charge;
      }
    }

    /** The table gets the new handle if the cache has a reference to it. */
    method AddToTable(e: Handle) returns (ghost replaced: Handle?)
      requires Sound(Now()) && table.Valid() && e !in table.Contents() && e !in lru
      requires cached == if capacity > 0 then table.Contents() + {e} else table.Contents()
      modifies this, table
      ensures Valid() && held == old(held) && refs.Keys == old(refs).Keys && (e in cached <==> capacity > 0)
              && e !in lru
      ensures replaced != null ==> capacity > 0 && replaced in old(table.Contents()) && SameId(replaced, e)
      ensures replaced == null && capacity > 0 ==> forall h :: h in old(table.Contents()) ==> !SameId(h, e)
      ensures cached == old(cached) - {replaced}
      ensures lru == Without(old(lru), replaced)
      ensures freed == old(freed) + if replaced != null && replaced in old(lru) then [replaced] else []
    {
      replaced := null;
      if capacity > 0 {
        ghost var before := table.Contents();
        var previous := table.Insert(e);
        SwapInSet(before, cached, table.Contents(), e, previous);
        replaced := previous;
        var erased := FinishErase(previous);
      }
    }
  }

  lemma SwapInSet(before: set<Handle>, cached: set<Handle>, contents: set<Handle>, e: Handle, previous: Handle?)
    requires e !in before && cached == before + {e} && (previous != null ==> previous in before)
    requires contents == (if previous == null then before else before - {previous}) + {e}
    ensures contents == if previous == null then cached else cached - {previous}
  {
  }
}
