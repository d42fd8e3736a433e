/** The bitmap of required fields that a message decoder has seen (pb_decode.c, pb_decode_noinit). */
module PbRequired {
  import opened Bits

  const MAX_REQUIRED_FIELDS: nat := 64
  const ALL_BITS: nat := 0xffff_ffff

  lemma WordLimit()
    ensures Values(32) == ALL_BITS + 1
  {
    LimitFour(28);
    LimitFour(24);
    LimitFour(20);
    LimitFour(16);
    LimitFour(12);
    LimitFour(8);
    LimitFour(4);
    LimitFour(0);
  }

  lemma LimitFour(n: nat)
    ensures Values(n + 4) == 16 * Values(n)
  {
    assert Values(n + 4) == 2 * Values(n + 3) == 4 * Values(n + 2) == 8 * Values(n + 1);
  }

  class FieldsSeen {
    var words: seq<nat>

    ghost predicate Valid()
      reads this
    {
      |words| == 2 && words[0] < Values(32) && words[1] < Values(32)
    }

    /** Required field k has been seen. */
    predicate Seen(k: nat)
      requires Valid() && k < MAX_REQUIRED_FIELDS
      reads this
    {
      IsSet(words[k / 32], k % 32)
    }

    constructor ()
      ensures Valid() && forall k :: 0 <= k < MAX_REQUIRED_FIELDS ==> !Seen(k)
    {
      words := [0, 0];
      new;
      assert 0 < Values(32) by {
        WordLimit();
      }
      forall k | 0 <= k < MAX_REQUIRED_FIELDS ensures !Seen(k) {
        ZeroHasNoBits(k % 32);
      }
    }

    static lemma {:induction false} ZeroHasNoBits(i: nat)
      ensures !IsSet(0, i)
    {
      if i > 0 {
        ZeroHasNoBits(i - 1);
      }
    }

    /** Notes that required field `index` occurred; from the 65th on they are not counted. */
    method Mark(index: nat)
      requires Valid()
      modifies this
      ensures Valid()
      ensures forall k :: 0 <= k < MAX_REQUIRED_FIELDS ==> (Seen(k) <==> k == index || old(Seen(k)))
    {
      if index < MAX_REQUIRED_FIELDS {
        ghost var was := words;
        words := words[index / 32 := SetBit(words[index / 32], index % 32, 32)];
        forall k | 0 <= k < MAX_REQUIRED_FIELDS
          ensures IsSet(words[k / 32], k % 32) <==> k == index || IsSet(was[k / 32], k % 32)
        {
          if k / 32 == index / 32 {
            SetBitSets(was[index / 32], index % 32, 32, k % 32);
          }
        }
      }
    }

    /** Word by word: have all the required fields been seen? */
    method AllPresent(fieldCount: nat) returns (ok: bool)
      requires Valid()
      requires forall k :: fieldCount <= k < MAX_REQUIRED_FIELDS ==> !Seen(k)
      ensures ok <==> forall k :: 0 <= k < fieldCount && k < MAX_REQUIRED_FIELDS ==> Seen(k)
    {
      var count := if fieldCount > MAX_REQUIRED_FIELDS then MAX_REQUIRED_FIELDS else fieldCount;
      WordLimit();
      for i := 0 to count / 32
        invariant forall k :: 0 <= k < 32 * i ==> Seen(k)
      {
        WholeWord(i);
        if words[i] != ALL_BITS {
          return false;
        }
      }
      if count % 32 != 0 {
        LastWord(count);
        if words[count / 32] != Values(count % 32) - 1 {
          return false;
        }
      }
      return true;
    }

    lemma WholeWord(i: nat)
      requires Valid() && i < 2
      ensures words[i] == ALL_BITS <==> forall k :: 32 * i <= k < 32 * i + 32 ==> Seen(k)
    {
      WordLimit();
      LargestIsAll(words[i], 32);
      AllIsLargest(words[i], 32);
      SeenBits(i, 32);
      BitsSeen(i, 32);
    }

    /** allbits >> (32 - n) has the lowest n bits set. */
    lemma LastWord(count: nat)
      requires Valid() && count < MAX_REQUIRED_FIELDS && count % 32 != 0
      requires forall k :: count <= k < MAX_REQUIRED_FIELDS ==> !Seen(k)
      ensures words[count / 32] == Values(count % 32) - 1
              <==> forall k :: 32 * (count / 32) <= k < count ==> Seen(k)
    {
      var i, n := count / 32, count % 32;
      assert count == 32 * i + n;
      forall b | n <= b < 32 ensures !IsSet(words[i], b) {
        assert (32 * i + b) / 32 == i && (32 * i + b) % 32 == b;
        assert !Seen(32 * i + b);
      }
      NoHighBits(words[i], n, 32);
      LargestIsAll(words[i], n);
      AllIsLargest(words[i], n);
      SeenBits(i, n);
      BitsSeen(i, n);
    }

    lemma SeenBits(i: nat, n: nat)
      requires Valid() && i < 2 && n <= 32
      ensures (forall k :: 32 * i <= k < 32 * i + n ==> Seen(k)) ==> forall b :: 0 <= b < n ==> IsSet(words[i], b)
    {
      if forall k :: 32 * i <= k < 32 * i + n ==> Seen(k) {
        forall b | 0 <= b < n ensures IsSet(words[i], b) {
          assert (32 * i + b) / 32 == i && (32 * i + b) % 32 == b;
          assert Seen(32 * i + b);
        }
      }
    }

    lemma BitsSeen(i: nat, n: nat)
      requires Valid() && i < 2 && n <= 32
      ensures (forall b :: 0 <= b < n ==> IsSet(words[i], b)) ==> forall k :: 32 * i <= k < 32 * i + n ==> Seen(k)
    {
      if forall b :: 0 <= b < n ==> IsSet(words[i], b) {
        forall k | 32 * i <= k < 32 * i + n ensures Seen(k) {
          assert k / 32 == i && k % 32 == k - 32 * i;
          assert IsSet(words[i], k - 32 * i);
        }
      }
    }
  }
}
