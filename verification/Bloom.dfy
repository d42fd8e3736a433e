/** The Bloom filter policy (util/bloom.cc). */
module Bloom {
  import opened Coding
  import opened Filters
  import opened Bits

  /** util/hash.cc, left open: any function to 32-bit numbers. */
  type Hash = Bytes -> nat

  function BloomHash(hash: Hash, key: Bytes): (h: nat)
    ensures h < TWO32
  {
    hash(key) % TWO32
  }

  /** Rotating right by 17 bits. */
  function Delta(h: nat): nat {
    h / 0x2_0000 + h * 0x8000 % TWO32
  }

  /** The hash after j additions in 32 bits. */
  function Probe(h: nat, j: nat): nat {
    if j == 0 then h else (Probe(h, j - 1) + Delta(h)) % TWO32
  }

  // ---------- Bits ----------

  lemma ByteLimit(b: nat)
    ensures b < Values(8) <==> b < 256
  {
    assert Values(8) == 2 * (2 * (2 * (2 * Values(4))));
    assert Values(4) == 2 * (2 * (2 * (2 * Values(0))));
  }

  predicate Has(bytes: Bytes, bit: nat)
    requires bit / 8 < |bytes|
  {
    IsSet(bytes[bit / 8] as int, bit % 8)
  }

  /** array[bit / 8] |= 1 << (bit % 8) */
  function With(bytes: Bytes, bit: nat): (r: Bytes)
    requires bit / 8 < |bytes|
    ensures |r| == |bytes|
  {
    ByteLimit(bytes[bit / 8] as int);
    var b := SetBit(bytes[bit / 8] as int, bit % 8, 8);
    ByteLimit(b);
    bytes[bit / 8 := b]
  }

  lemma WithSets(bytes: Bytes, bit: nat, other: nat)
    requires bit / 8 < |bytes| && other / 8 < |bytes|
    ensures Has(With(bytes, bit), other) <==> other == bit || Has(bytes, other)
  {
    ByteLimit(bytes[bit / 8] as int);
    if bit / 8 == other / 8 {
      SetBitSets(bytes[bit / 8] as int, bit % 8, 8, other % 8);
    }
  }

  // ---------- Filters ----------

  /** The first j probes of a key hit bits that are set. */
  predicate Hits(bytes: Bytes, h: nat, j: nat)
    requires bytes != []
  {
    forall i :: 0 <= i < j ==> ProbeHits(bytes, h, i)
  }

  predicate ProbeHits(bytes: Bytes, h: nat, i: nat)
    requires bytes != []
  {
    InArray(Probe(h, i), |bytes|);
    Has(bytes, Probe(h, i) % (8 * |bytes|))
  }

  lemma InArray(p: nat, n: nat)
    requires n > 0
    ensures p % (8 * n) / 8 < n
  {
  }

  /** No bit is ever cleared. */
  ghost predicate Covers(more: Bytes, bytes: Bytes) {
    |more| == |bytes| && forall bit: nat {:trigger Has(more, bit)} ::
        bit / 8 < |bytes| && Has(bytes, bit) ==> Has(more, bit)
  }

  function AddProbes(bytes: Bytes, h: nat, k: nat): (r: Bytes)
    requires bytes != []
    ensures |r| == |bytes|
  {
    if k == 0 then bytes
    else
      InArray(Probe(h, k - 1), |bytes|);
      With(AddProbes(bytes, h, k - 1), Probe(h, k - 1) % (8 * |bytes|))
  }

  lemma {:induction false} AddProbesSets(bytes: Bytes, h: nat, k: nat)
    requires bytes != []
    ensures Covers(AddProbes(bytes, h, k), bytes) && Hits(AddProbes(bytes, h, k), h, k)
  {
    if k > 0 {
      var before, after := AddProbes(bytes, h, k - 1), AddProbes(bytes, h, k);
      var bit := Probe(h, k - 1) % (8 * |bytes|);
      AddProbesSets(bytes, h, k - 1);
      InArray(Probe(h, k - 1), |bytes|);
      forall other: nat | other / 8 < |bytes| ensures Has(after, other) <==> other == bit || Has(before, other) {
        WithSets(before, bit, other);
      }
      HitsStay(after, before, h, k - 1);
    }
  }

  lemma HitsStay(more: Bytes, bytes: Bytes, h: nat, k: nat)
    requires bytes != [] && Covers(more, bytes) && Hits(bytes, h, k)
    ensures Hits(more, h, k)
  {
    forall i | 0 <= i < k ensures ProbeHits(more, h, i) {
      assert ProbeHits(bytes, h, i);
      InArray(Probe(h, i), |bytes|);
    }
  }

  function AddKeys(bytes: Bytes, hash: Hash, keys: seq<Bytes>, k: nat): (r: Bytes)
    requires bytes != []
    ensures |r| == |bytes|
  {
    if keys == [] then bytes
    else AddProbes(AddKeys(bytes, hash, keys[..|keys| - 1], k), BloomHash(hash, keys[|keys| - 1]), k)
  }

  lemma {:induction false} AddedKeyHits(bytes: Bytes, hash: Hash, keys: seq<Bytes>, k: nat, i: nat)
    requires bytes != [] && i < |keys|
    ensures Hits(AddKeys(bytes, hash, keys, k), BloomHash(hash, keys[i]), k)
  {
    var n := |keys| - 1;
    var before := AddKeys(bytes, hash, keys[..n], k);
    AddProbesSets(before, BloomHash(hash, keys[n]), k);
    if i < n {
      AddedKeyHits(bytes, hash, keys[..n], k, i);
      HitsStay(AddKeys(bytes, hash, keys, k), before, BloomHash(hash, keys[i]), k);
    }
  }

  /** The number of probes, from 1 to 30; 0.69 is about ln(2). */
  function Probes(bitsPerKey: nat): (k: nat)
    ensures 1 <= k <= 30
  {
    var k := (bitsPerKey as real * 0.69).Floor;
    if k < 1 then 1 else if k > 30 then 30 else k
  }

  /** At least eight bytes. */
  function ByteCount(bitsPerKey: nat, n: nat): (bytes: nat)
    ensures bytes >= 8
  {
    var bits := n * bitsPerKey;
    ((if bits < 64 then 64 else bits) + 7) / 8
  }

  function Empty(n: nat): (r: Bytes)
    ensures |r| == n
  {
    seq(n, _ => 0)
  }

  function Filter(hash: Hash, bitsPerKey: nat, keys: seq<Bytes>): Bytes {
    AddKeys(Empty(ByteCount(bitsPerKey, |keys|)), hash, keys, Probes(bitsPerKey)) + [Probes(bitsPerKey)]
  }

  /** CreateFilter appends the filter of the keys to dst. */
  method CreateFilter(hash: Hash, bitsPerKey: nat, keys: seq<Bytes>, dst: Bytes) returns (r: Bytes)
    ensures r == dst + Filter(hash, bitsPerKey, keys)
  {
    var bits := |keys| * bitsPerKey;
    if bits < 64 {
      bits := 64;
    }
    var bytes := (bits + 7) / 8;
    bits := bytes * 8;
    var k := Probes(bitsPerKey);
    var a := Empty(bytes);
    ghost var empty := a;
    for i := 0 to |keys|
      invariant |a| == bytes && a == AddKeys(empty, hash, keys[..i], k)
    {
      assert keys[..i + 1][..i] == keys[..i];
      ghost var before := a;
      var h := BloomHash(hash, keys[i]);
      var delta := Delta(h);
      ghost var h0 := h;
      for j := 0 to k
        invariant |a| == bytes && h == Probe(h0, j) && a == AddProbes(before, h0, j)
      {
        InArray(h, bytes);
        a := With(a, h % bits);
        h := (h + delta) % TWO32;
      }
    }
    assert keys[..|keys|] == keys;
    r := dst + (a + [k]);
  }

  /** KeyMayMatch: too short a filter matches nothing, one with an unknown number of probes everything. */
  function MayMatch(hash: Hash, key: Bytes, filter: Bytes): bool {
    var n := |filter| - 1;
    if n < 1 then false
    else if filter[n] > 30 then true
    else Hits(filter[..n], BloomHash(hash, key), filter[n] as int)
  }

  method KeyMayMatch(hash: Hash, key: Bytes, filter: Bytes) returns (r: bool)
    ensures r == MayMatch(hash, key, filter)
    ensures |filter| < 2 ==> !r
    ensures |filter| >= 2 && filter[|filter| - 1] > 30 ==> r
    ensures |filter| >= 2 && filter[|filter| - 1] <= 30 ==>
              var n := |filter| - 1;
              (r <==> forall j: nat :: j < filter[n] as int ==>
                        BitSet(filter[..n], BitOf(hash(key) % 0x1_0000_0000, j, 8 * n)))
  {
    MatchesExactly(hash, key, filter);
    var len := |filter|;
    if len < 2 {
      return false;
    }
    var bits := (len - 1) * 8;
    var k: int := filter[len - 1];
    if k > 30 {
      return true;
    }
    var h := BloomHash(hash, key);
    ghost var h0, bytes := h, filter[..len - 1];
    var delta := Delta(h);
    for j := 0 to k
      invariant h == Probe(h0, j) && Hits(bytes, h0, j)
    {
      InArray(h, len - 1);
      assert Has(filter, h % bits) == ProbeHits(bytes, h0, j);
      if !Has(filter, h % bits) {
        return false;
      }
      h := (h + delta) % TWO32;
    }
    return true;
  }

  // ---------- What a filter answers, exactly ----------

  function Rotated(h: nat): nat {
    h / 0x2_0000 + h % 0x2_0000 * 0x8000
  }

  /** The bit that the j-th probe asks for, in closed form. */
  function BitOf(h: nat, j: nat, bits: nat): (bit: nat)
    requires bits > 0
    ensures bit < bits
  {
    (h + j * Rotated(h)) % 0x1_0000_0000 % bits
  }

  const MASKS: seq<nat> := [1, 2, 4, 8, 16, 32, 64, 128]

  /** Bits count from the lowest one of the first byte. */
  predicate BitSet(bytes: Bytes, bit: nat)
    requires bit < 8 * |bytes|
  {
    bytes[bit / 8] as int / MASKS[bit % 8] % 2 == 1
  }

  lemma RotatingIsDelta(h: nat)
    requires h < TWO32
    ensures Delta(h) == Rotated(h)
  {
    var high, low := h / 0x2_0000, h % 0x2_0000;
    assert h * 0x8000 == high * TWO32 + low * 0x8000;
    SmallRemainder(high, low * 0x8000);
  }

  lemma SmallRemainder(q: nat, r: nat)
    requires r < TWO32
    ensures (q * TWO32 + r) % TWO32 == r
  {
  }

  lemma AddInWord(a: nat, b: nat)
    ensures (a % TWO32 + b) % TWO32 == (a + b) % TWO32
  {
  }

  lemma {:induction false} ProbeIsClosed(h: nat, j: nat)
    requires h < TWO32
    ensures Probe(h, j) == (h + j * Rotated(h)) % TWO32
  {
    RotatingIsDelta(h);
    if j > 0 {
      ProbeIsClosed(h, j - 1);
      AddInWord(h + (j - 1) * Rotated(h), Rotated(h));
      assert h + (j - 1) * Rotated(h) + Rotated(h) == h + j * Rotated(h);
    }
  }

  lemma HalfThen(b: nat, m: nat)
    requires m in MASKS
    ensures b / 2 / m == b / (2 * m)
  {
    if m == 1 {
    } else if m == 2 {
    } else if m == 4 {
    } else if m == 8 {
    } else if m == 16 {
    } else if m == 32 {
    }
  }

  lemma {:induction false} IsSetAt(b: nat, i: nat)
    requires i < 8
    ensures IsSet(b, i) <==> b / MASKS[i] % 2 == 1
  {
    if i > 0 {
      IsSetAt(b / 2, i - 1);
      HalfThen(b, MASKS[i - 1]);
      assert MASKS[i] == 2 * MASKS[i - 1];
    }
  }

  lemma HasIsBitSet(bytes: Bytes, bit: nat)
    requires bit < 8 * |bytes|
    ensures Has(bytes, bit) <==> BitSet(bytes, bit)
  {
    IsSetAt(bytes[bit / 8] as int, bit % 8);
  }

  lemma ProbeHitsIs(bytes: Bytes, h: nat, j: nat)
    requires bytes != [] && h < TWO32
    ensures ProbeHits(bytes, h, j) <==> BitSet(bytes, BitOf(h, j, 8 * |bytes|))
  {
    ProbeIsClosed(h, j);
    HasIsBitSet(bytes, BitOf(h, j, 8 * |bytes|));
  }

  /** Of any bytes: too short a filter matches nothing, one with more than 30 probes everything, and any other one
      exactly the keys all of whose probes find a set bit. */
  lemma MatchesExactly(hash: Hash, key: Bytes, filter: Bytes)
    ensures |filter| < 2 ==> !MayMatch(hash, key, filter)
    ensures |filter| >= 2 && filter[|filter| - 1] > 30 ==> MayMatch(hash, key, filter)
    ensures |filter| >= 2 && filter[|filter| - 1] <= 30 ==>
              var n := |filter| - 1;
              (MayMatch(hash, key, filter) <==>
               forall j: nat ::
                   j < filter[n] as int ==> BitSet(filter[..n], BitOf(hash(key) % 0x1_0000_0000, j, 8 * n)))
  {
    var n := |filter| - 1;
    if n >= 1 {
      forall j: nat
        ensures ProbeHits(filter[..n], BloomHash(hash, key), j)
                <==> BitSet(filter[..n], BitOf(BloomHash(hash, key), j, 8 * n))
      {
        ProbeHitsIs(filter[..n], BloomHash(hash, key), j);
      }
    }
  }

  // ---------- Which bits a filter has ----------

  /** Some of the first k probes of the hash asks for the bit. */
  ghost predicate Probed(h: nat, k: nat, bit: nat, bits: nat)
    requires bits > 0
  {
    exists j: nat :: j < k && BitOf(h, j, bits) == bit
  }

  lemma {:induction false} ProbesAdded(bytes: Bytes, h: nat, k: nat, bit: nat)
    requires h < TWO32 && bit < 8 * |bytes|
    ensures Has(AddProbes(bytes, h, k), bit) <==> Has(bytes, bit) || Probed(h, k, bit, 8 * |bytes|)
  {
    if k > 0 {
      ProbesAdded(bytes, h, k - 1, bit);
      ProbeIsClosed(h, k - 1);
      InArray(Probe(h, k - 1), |bytes|);
      var last := BitOf(h, k - 1, 8 * |bytes|);
      WithSets(AddProbes(bytes, h, k - 1), last, bit);
      assert Probed(h, k, bit, 8 * |bytes|) <==> Probed(h, k - 1, bit, 8 * |bytes|) || last == bit;
    }
  }

  ghost predicate SomeKeyProbes(hash: Hash, keys: seq<Bytes>, k: nat, bit: nat, bits: nat)
    requires bits > 0
  {
    exists i :: 0 <= i < |keys| && Probed(hash(keys[i]) % TWO32, k, bit, bits)
  }

  lemma {:induction false} KeysAdded(bytes: Bytes, hash: Hash, keys: seq<Bytes>, k: nat, bit: nat)
    requires bit < 8 * |bytes|
    ensures Has(AddKeys(bytes, hash, keys, k), bit) <==>
            Has(bytes, bit) || SomeKeyProbes(hash, keys, k, bit, 8 * |bytes|)
  {
    if keys != [] {
      var n := |keys| - 1;
      KeysAdded(bytes, hash, keys[..n], k, bit);
      ProbesAdded(AddKeys(bytes, hash, keys[..n], k), BloomHash(hash, keys[n]), k, bit);
      assert SomeKeyProbes(hash, keys, k, bit, 8 * |bytes|) <==>
             SomeKeyProbes(hash, keys[..n], k, bit, 8 * |bytes|) || Probed(hash(keys[n]) % TWO32, k, bit, 8 * |bytes|);
    }
  }

  lemma EmptyHasNoBit(n: nat, bit: nat)
    requires bit < 8 * n
    ensures !Has(Empty(n), bit)
  {
    HasIsBitSet(Empty(n), bit);
    assert 0 / MASKS[bit % 8] == 0;
  }

  /** A filter has at least 64 bits and as many per key as are asked for, in whole bytes; a bit is set exactly if some
      key probes it; the last byte is the number of probes, 0.69 for every bit per key, from 1 to 30. */
  lemma FilterBits(hash: Hash, bitsPerKey: nat, keys: seq<Bytes>)
    ensures var filter := Filter(hash, bitsPerKey, keys);
            var n := |filter| - 1;
            && n >= 8 && n == (if |keys| * bitsPerKey <= 64 then 8 else (|keys| * bitsPerKey + 7) / 8)
            && (filter[n] as int == 1 || (1 < filter[n] as int <= 30 && filter[n] as real <= bitsPerKey as real * 0.69))
            && (filter[n] as int == 30 || bitsPerKey as real * 0.69 < filter[n] as real + 1.0)
            && forall bit: nat :: bit < 8 * n ==>
                 (BitSet(filter[..n], bit) <==> SomeKeyProbes(hash, keys, filter[n] as int, bit, 8 * n))
  {
    var k, n := Probes(bitsPerKey), ByteCount(bitsPerKey, |keys|);
    var a := AddKeys(Empty(n), hash, keys, k);
    assert (a + [k])[..n] == a;
    forall bit: nat | bit < 8 * n ensures BitSet(a, bit) <==> SomeKeyProbes(hash, keys, k, bit, 8 * n) {
      HasIsBitSet(a, bit);
      KeysAdded(Empty(n), hash, keys, k, bit);
      EmptyHasNoBit(n, bit);
    }
  }

  /** Whatever the hash function, the filter of no keys rejects every key. */
  lemma EmptyFilterRejects(hash: Hash, bitsPerKey: nat, key: Bytes)
    ensures !MayMatch(hash, key, Filter(hash, bitsPerKey, []))
  {
    var filter := Filter(hash, bitsPerKey, []);
    var n := |filter| - 1;
    FilterBits(hash, bitsPerKey, []);
    MatchesExactly(hash, key, filter);
    var bit := BitOf(hash(key) % TWO32, 0, 8 * n);
    assert !BitSet(filter[..n], bit);
  }

  function BloomPolicy(hash: Hash, bitsPerKey: nat): Policy {
    Policy(keys => Filter(hash, bitsPerKey, keys), (key, filter) => MayMatch(hash, key, filter))
  }

  /** Whatever the hash function and the number of bits per key, no key of a filter is missed. */
  lemma BloomHasNoFalseNegatives(hash: Hash, bitsPerKey: nat)
    ensures NoFalseNegatives(BloomPolicy(hash, bitsPerKey))
  {
    forall keys: seq<Bytes>, key: Bytes | key in keys
      ensures MayMatch(hash, key, Filter(hash, bitsPerKey, keys))
    {
      var i :| 0 <= i < |keys| && keys[i] == key;
      var k := Probes(bitsPerKey);
      var empty := Empty(ByteCount(bitsPerKey, |keys|));
      AddedKeyHits(empty, hash, keys, k, i);
      var a := AddKeys(empty, hash, keys, k);
      assert (a + [k])[..|a|] == a;
    }
  }
}
