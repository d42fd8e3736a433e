/** Numbers as bit sets. */
module Bits {
  /** How many numbers have so many bits. */
  function Values(bits: nat): (v: nat)
    ensures v > 0
  {
    if bits == 0 then 1 else 2 * Values(bits - 1)
  }

  /** b & (1 << i) */
  predicate IsSet(b: nat, i: nat) {
    if i == 0 then b % 2 == 1 else IsSet(b / 2, i - 1)
  }

  /** b | (1 << i), on numbers of so many bits */
  function SetBit(b: nat, i: nat, bits: nat): (r: nat)
    requires b < Values(bits) && i < bits
    ensures r < Values(bits)
  {
    if i == 0 then b / 2 * 2 + 1 else b % 2 + 2 * SetBit(b / 2, i - 1, bits - 1)
  }

  lemma {:induction false} SetBitSets(b: nat, i: nat, bits: nat, j: nat)
    requires b < Values(bits) && i < bits
    ensures IsSet(SetBit(b, i, bits), j) <==> j == i || IsSet(b, j)
  {
    if i > 0 && j > 0 {
      SetBitSets(b / 2, i - 1, bits - 1, j - 1);
    }
  }

  lemma {:induction false} LargestHasAll(n: nat, i: nat)
    requires i < n
    ensures IsSet(Values(n) - 1, i)
  {
    if i > 0 {
      LargestHasAll(n - 1, i - 1);
      assert (Values(n) - 1) / 2 == Values(n - 1) - 1;
    }
  }

  lemma {:induction false} AllMakeLargest(b: nat, n: nat)
    requires b < Values(n) && forall i :: 0 <= i < n ==> IsSet(b, i)
    ensures b == Values(n) - 1
  {
    if n > 0 {
      assert IsSet(b, 0);
      forall i | 0 <= i < n - 1 ensures IsSet(b / 2, i) {
        assert IsSet(b, i + 1);
      }
      AllMakeLargest(b / 2, n - 1);
    }
  }

  lemma LargestIsAll(b: nat, n: nat)
    requires b < Values(n)
    ensures b == Values(n) - 1 ==> forall i :: 0 <= i < n ==> IsSet(b, i)
  {
    if b == Values(n) - 1 {
      forall i | 0 <= i < n ensures IsSet(b, i) {
        LargestHasAll(n, i);
      }
    }
  }

  lemma AllIsLargest(b: nat, n: nat)
    requires b < Values(n)
    ensures (forall i :: 0 <= i < n ==> IsSet(b, i)) ==> b == Values(n) - 1
  {
    if forall i :: 0 <= i < n ==> IsSet(b, i) {
      AllMakeLargest(b, n);
    }
  }

  /** A number without bits from n on is a number of n bits. */
  lemma {:induction false} NoHighBits(b: nat, n: nat, bits: nat)
    requires b < Values(bits) && n <= bits && forall i :: n <= i < bits ==> !IsSet(b, i)
    ensures b < Values(n)
  {
    if n == 0 {
      NoBits(b, bits);
    } else {
      forall i | n - 1 <= i < bits - 1 ensures !IsSet(b / 2, i) {
        assert !IsSet(b, i + 1);
      }
      NoHighBits(b / 2, n - 1, bits - 1);
    }
  }

  lemma {:induction false} NoBits(b: nat, bits: nat)
    requires b < Values(bits) && forall i :: 0 <= i < bits ==> !IsSet(b, i)
    ensures b == 0
  {
    if bits > 0 {
      assert !IsSet(b, 0);
      forall i | 0 <= i < bits - 1 ensures !IsSet(b / 2, i) {
        assert !IsSet(b, i + 1);
      }
      NoBits(b / 2, bits - 1);
    }
  }
}
