/** Internal keys of the store: a user key, a sequence number and a value type
    (db/dbformat.h, db/dbformat.cc).

    User keys are reals. The store only ever compares user keys, and every countable
    total order embeds into the rationals; module Bytewise proves the embedding for
    the order the store uses by default. */
module InternalKeys {
  import opened Coding

  type Key = real
  type Value = Bytes

  /** kTypeDeletion = 0 and kTypeValue = 1. */
  datatype Kind = Deletion | Put

  datatype IKey = IKey(user: Key, sequence: nat, kind: Kind)

  datatype Entry = Entry(key: IKey, value: Value)

  /** Sequence numbers have 56 bits. */
  const MAX_SEQUENCE: nat := 0xff_ffff_ffff_ffff

  /** The last eight bytes of an internal key as a number. */
  function Tag(k: IKey): nat {
    k.sequence * 256 + if k.kind.Put? then 1 else 0
  }

  /** InternalKeyComparator::Compare: increasing user key, then decreasing tag. */
  function Compare(a: IKey, b: IKey): int {
    if a.user < b.user then -1
    else if a.user > b.user then 1
    else if Tag(a) > Tag(b) then -1
    else if Tag(a) < Tag(b) then 1
    else 0
  }

  predicate Less(a: IKey, b: IKey) {
    Compare(a, b) < 0
  }

  /** The internal key a lookup of `user` at sequence number `s` seeks to. */
  function SeekKey(user: Key, s: nat): IKey {
    IKey(user, s, Put)
  }

  /** Compare is a total order on internal keys, and equality is the only tie. */
  lemma CompareIsTotalOrder(a: IKey, b: IKey, c: IKey)
    ensures Compare(a, b) == 0 <==> a == b
    ensures Compare(a, b) == -Compare(b, a)
    ensures Less(a, b) && Less(b, c) ==> Less(a, c)
  {
    if Compare(a, b) == 0 {
      assert a.sequence == b.sequence;
    }
  }

  /** An entry is at or after the seek key of (user, s) exactly if it belongs to a later
      user key, or to the same one with a sequence number that is visible at s. */
  lemma SeekKeySplits(k: IKey, user: Key, s: nat)
    ensures !Less(k, SeekKey(user, s)) <==> k.user > user || (k.user == user && k.sequence <= s)
  {
  }

  /** Strictly increasing entries, as every table and every memtable holds them. */
  ghost predicate Sorted(es: seq<Entry>) {
    forall i, j :: 0 <= i < j < |es| ==> Less(es[i].key, es[j].key)
  }
}
