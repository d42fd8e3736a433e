/** The queue of writers and the groups that are formed from it (db/db_impl.cc, BuildBatchGroup). */
module WriteQueue {
  import opened Visibility
  import opened History

  /** The operations of a write batch and the length of its encoding (module WriteBatches). */
  datatype Batch = Batch(ops: seq<Op>, byteSize: nat)

  /** A waiting writer; no batch means that it only wants the memtable flushed. */
  datatype Writer = Writer(batch: Option<Batch>, sync: bool)

  function OwnOps(w: Writer): seq<Op> {
    if w.batch.Some? then w.batch.value.ops else []
  }

  /** The operations of writers, in order. */
  function OpsOf(ws: seq<Writer>): seq<Op> {
    if ws == [] then [] else OpsOf(ws[..|ws| - 1]) + OwnOps(ws[|ws| - 1])
  }

  // ---------- Building a group ----------

  const MAX_GROUP: nat := 0x10_0000
  const SMALL_WRITE: nat := 0x2_0000

  function ByteSize(w: Writer): nat {
    if w.batch.Some? then w.batch.value.byteSize else 0
  }

  function TotalSize(ws: seq<Writer>): nat {
    if ws == [] then 0 else TotalSize(ws[..|ws| - 1]) + ByteSize(ws[|ws| - 1])
  }

  /** A group led by a small write stays small. */
  function MaxSize(first: Writer): nat {
    if ByteSize(first) <= SMALL_WRITE then ByteSize(first) + SMALL_WRITE else MAX_GROUP
  }

  /** The first n writers of the queue form a group: no sync write is left to a leader that does not sync, the
      group is not too big, and it takes in as many writers as that allows. */
  ghost predicate IsGroup(queue: seq<Writer>, n: nat) {
    && 1 <= n <= |queue|
    && (forall i :: 0 <= i < n ==> queue[i].sync ==> queue[0].sync)
    && (1 < n ==> TotalSize(queue[..n]) <= MaxSize(queue[0]) || forall i :: 1 <= i < n ==> queue[i].batch.None?)
    && (n < |queue| ==>
          || (queue[n].sync && !queue[0].sync)
          || (queue[n].batch.Some? && TotalSize(queue[..n + 1]) > MaxSize(queue[0])))
  }

  lemma OneMore(queue: seq<Writer>, n: nat)
    requires n < |queue|
    ensures TotalSize(queue[..n + 1]) == TotalSize(queue[..n]) + ByteSize(queue[n])
    ensures OpsOf(queue[..n + 1]) == OpsOf(queue[..n]) + OwnOps(queue[n])
  {
    assert queue[..n + 1][..n] == queue[..n];
  }

  lemma {:induction false} LeadAndFollowers(queue: seq<Writer>, n: nat)
    requires 1 <= n <= |queue|
    ensures TotalSize(queue[..n]) == ByteSize(queue[0]) + TotalSize(queue[1..n])
  {
    if n == 1 {
      OneMore(queue, 0);
      assert queue[..0] == [] && queue[1..1] == [];
    } else {
      LeadAndFollowers(queue, n - 1);
      OneMore(queue, n - 1);
      assert queue[1..n][..n - 2] == queue[1..n - 1];
    }
  }

  /** Behind a leader of at most 128 KB the followers together have at most 128 KB; behind a larger one a group with any
      follower that has a batch has at most 1 MB. */
  ghost predicate WithinBounds(queue: seq<Writer>, n: nat)
    requires 1 <= n <= |queue| && queue[0].batch.Some?
  {
    if queue[0].batch.value.byteSize <= 0x2_0000 then TotalSize(queue[1..n]) <= 0x2_0000
    else TotalSize(queue[..n]) <= 0x10_0000 || forall i :: 1 <= i < n ==> queue[i].batch.None?
  }

  /** The bounds are what IsGroup says. */
  lemma GroupBounds(queue: seq<Writer>, n: nat)
    requires queue != [] && queue[0].batch.Some? && IsGroup(queue, n)
    ensures WithinBounds(queue, n)
    ensures n < |queue| && !(queue[n].sync && !queue[0].sync) ==> queue[n].batch.Some? && !WithinBounds(queue, n + 1)
  {
    LeadAndFollowers(queue, n);
    NoBatches(queue, n);
    if n < |queue| {
      LeadAndFollowers(queue, n + 1);
    }
  }

  lemma {:induction false} NoBatches(queue: seq<Writer>, n: nat)
    requires 1 <= n <= |queue| && queue[0].batch.Some?
    ensures (forall i :: 1 <= i < n ==> queue[i].batch.None?) ==> TotalSize(queue[1..n]) == 0
  {
    if n == 1 {
      assert queue[1..1] == [];
    } else if forall i :: 1 <= i < n ==> queue[i].batch.None? {
      NoBatches(queue, n - 1);
      assert queue[1..n][..n - 2] == queue[1..n - 1];
    }
  }

  method BuildBatchGroup(queue: seq<Writer>) returns (n: nat, result: seq<Op>)
    requires queue != [] && queue[0].batch.Some?
    ensures IsGroup(queue, n)
    ensures result == OpsOf(queue[..n])
    ensures (forall i :: 0 <= i < n ==> queue[i].sync ==> queue[0].sync) && WithinBounds(queue, n)
    ensures n < |queue| ==>
              (queue[n].sync && !queue[0].sync) || (queue[n].batch.Some? && !WithinBounds(queue, n + 1))
  {
    var first := queue[0];
    result := first.batch.value.ops;
    var size := first.batch.value.byteSize;
    var maxSize := MaxSize(first);
    n := 1;
    OneMore(queue, 0);
    assert queue[..0] == [];
    while n < |queue|
      invariant 1 <= n <= |queue| && size == TotalSize(queue[..n])
      invariant size <= maxSize || forall i :: 1 <= i < n ==> queue[i].batch.None?
      invariant forall i :: 0 <= i < n ==> queue[i].sync ==> first.sync
      invariant result == OpsOf(queue[..n])
    {
      var w := queue[n];
      OneMore(queue, n);
      if w.sync && !first.sync {
        GroupBounds(queue, n);
        return;
      }
      if w.batch.Some? {
        size := size + w.batch.value.byteSize;
        if size > maxSize {
          GroupBounds(queue, n);
          return;
        }
        result := result + w.batch.value.ops;
      }
      n := n + 1;
    }
    GroupBounds(queue, n);
  }
}
