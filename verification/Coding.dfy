/** Little-endian and variable-length integers, and length-prefixed byte strings (util/coding.cc). */
module Coding {
  type Byte = b: int | 0 <= b < 256
  type Bytes = seq<Byte>

  datatype Decoded<+T> = Failed | Got(value: T, rest: Bytes)

  const TWO32: nat := 0x1_0000_0000
  const TWO64: nat := 0x1_0000_0000_0000_0000

  lemma Associate<T>(a: seq<T>, b: seq<T>, c: seq<T>)
    ensures (a + b) + c == a + (b + c)
  {
  }

  // ---------- Fixed-length integers ----------

  /** Little-endian, in n bytes. */
  function Fixed(v: nat, n: nat): (r: Bytes)
    ensures |r| == n
  {
    if n == 0 then [] else [Low(v)] + Fixed(v / 256, n - 1)
  }

  function Low(v: nat): Byte {
    v % 256
  }

  function DecodeFixed(b: Bytes, n: nat): nat
    requires |b| >= n
  {
    if n == 0 then 0 else b[0] as int + 256 * DecodeFixed(b[1..], n - 1)
  }

  /** The values that fit in n bytes. */
  function Power256(n: nat): (p: nat)
    ensures p > 0
  {
    if n == 0 then 1 else 256 * Power256(n - 1)
  }

  lemma {:induction false} FixedRoundTrip(v: nat, n: nat, rest: Bytes)
    requires v < Power256(n)
    ensures DecodeFixed(Fixed(v, n) + rest, n) == v
  {
    if n > 0 {
      FixedRoundTrip(v / 256, n - 1, rest);
      assert (Fixed(v, n) + rest)[1..] == Fixed(v / 256, n - 1) + rest;
    }
  }

  /** Only the low n bytes are kept. */
  lemma {:induction false} FixedWraps(v: nat, w: nat, n: nat, q: nat)
    requires v == w + q * Power256(n)
    ensures Fixed(v, n) == Fixed(w, n)
  {
    if n > 0 {
      var p := q * Power256(n - 1);
      assert q * Power256(n) == 256 * p;
      FixedWraps(v / 256, w / 256, n - 1, q);
    }
  }

  lemma {:induction false} FixedKeepsLowBytes(v: nat, n: nat) returns (q: nat)
    ensures v == DecodeFixed(Fixed(v, n), n) + q * Power256(n)
  {
    if n == 0 {
      q := v;
    } else {
      q := FixedKeepsLowBytes(v / 256, n - 1);
      assert Fixed(v, n)[1..] == Fixed(v / 256, n - 1);
      assert q * Power256(n) == 256 * (q * Power256(n - 1));
    }
  }

  lemma {:induction false} DecodesFront(b: Bytes, rest: Bytes, n: nat)
    requires |b| >= n
    ensures DecodeFixed(b + rest, n) == DecodeFixed(b, n)
  {
    if n > 0 {
      assert (b + rest)[1..] == b[1..] + rest;
      DecodesFront(b[1..], rest, n - 1);
    }
  }

  lemma {:induction false} DecodedFits(b: Bytes, n: nat)
    requires |b| >= n
    ensures DecodeFixed(b, n) < Power256(n)
  {
    if n > 0 {
      DecodedFits(b[1..], n - 1);
    }
  }

  lemma Powers()
    ensures Power256(4) == TWO32 && Power256(8) == TWO64
  {
    assert Power256(4) == 256 * (256 * (256 * (256 * Power256(0))));
    assert Power256(8) == 256 * (256 * (256 * (256 * Power256(4))));
  }

  function Fixed32(v: nat): (r: Bytes)
    requires v < TWO32
    ensures |r| == 4
  {
    Fixed(v, 4)
  }

  function DecodeFixed32(b: Bytes): (v: nat)
    requires |b| >= 4
    ensures v < TWO32
  {
    DecodedFits(b, 4);
    Powers();
    DecodeFixed(b, 4)
  }

  lemma Fixed32RoundTrip(v: nat, rest: Bytes)
    requires v < TWO32
    ensures DecodeFixed32(Fixed32(v) + rest) == v
  {
    Powers();
    FixedRoundTrip(v, 4, rest);
  }

  function Word(data: Bytes, at: nat): nat
    requires at + 4 <= |data|
  {
    DecodeFixed32(data[at..])
  }

  /** A number stored at a position reads back from there. */
  lemma Fixed32At(data: Bytes, at: nat, v: nat)
    requires v < TWO32 && at + 4 <= |data| && data[at..at + 4] == Fixed(v, 4)
    ensures Word(data, at) == v
  {
    assert data[at..] == data[at..at + 4] + data[at + 4..];
    Fixed32RoundTrip(v, data[at + 4..]);
  }

  function Fixed32Array(vs: seq<nat>): (r: Bytes)
    ensures |r| == 4 * |vs|
  {
    if vs == [] then [] else Fixed32Array(vs[..|vs| - 1]) + Fixed(vs[|vs| - 1], 4)
  }

  lemma {:induction false} Fixed32ArrayAt(vs: seq<nat>, j: nat)
    requires j < |vs|
    ensures Fixed32Array(vs)[4 * j..4 * j + 4] == Fixed(vs[j], 4)
  {
    var n := |vs| - 1;
    var front := Fixed32Array(vs[..n]);
    if j < n {
      Fixed32ArrayAt(vs[..n], j);
      assert (front + Fixed(vs[n], 4))[4 * j..4 * j + 4] == front[4 * j..4 * j + 4];
    }
  }

  method PutFixed32s(dst: Bytes, vs: seq<nat>) returns (r: Bytes)
    ensures r == dst + Fixed32Array(vs)
  {
    r := dst;
    for i := 0 to |vs|
      invariant r == dst + Fixed32Array(vs[..i])
    {
      assert vs[..i + 1][..i] == vs[..i];
      r := r + Fixed(vs[i], 4);
    }
    assert vs[..|vs|] == vs;
  }

  function Fixed64(v: nat): (r: Bytes)
    requires v < TWO64
    ensures |r| == 8
  {
    Fixed(v, 8)
  }

  function DecodeFixed64(b: Bytes): (v: nat)
    requires |b| >= 8
    ensures v < TWO64
  {
    DecodedFits(b, 8);
    Powers();
    DecodeFixed(b, 8)
  }

  lemma Fixed64RoundTrip(v: nat, rest: Bytes)
    requires v < TWO64
    ensures DecodeFixed64(Fixed64(v) + rest) == v
  {
    Powers();
    FixedRoundTrip(v, 8, rest);
  }

  // ---------- Variable-length integers ----------

  /** Seven bits a byte, least significant first, the top bit set on all but the last. */
  function Varint(v: nat): (r: Bytes)
    ensures |r| >= 1
  {
    if v < 128 then [v] else [v % 128 + 128] + Varint(v / 128)
  }

  /** Values that fit in n groups of seven bits. */
  function Limit(n: nat): nat {
    if n == 0 then 1 else 128 * Limit(n - 1)
  }

  /** Decoding at most `groups` bytes; fails if the last of them still announces another one. */
  function DecodeVarint(b: Bytes, groups: nat): (r: Decoded<nat>)
    ensures r.Got? ==> |r.rest| < |b|
  {
    if groups == 0 || b == [] then Failed
    else if b[0] < 128 then Got(b[0] as int, b[1..])
    else
      match DecodeVarint(b[1..], groups - 1)
      case Failed => Failed
      case Got(v, rest) => Got(b[0] as int - 128 + 128 * v, rest)
  }

  lemma {:induction false} VarintRoundTrip(v: nat, groups: nat, rest: Bytes)
    requires v < Limit(groups) && groups > 0
    ensures DecodeVarint(Varint(v) + rest, groups) == Got(v, rest)
    decreases groups
  {
    var b := Varint(v) + rest;
    if v < 128 {
      assert b[1..] == rest;
    } else {
      VarintRoundTrip(v / 128, groups - 1, rest);
      assert b[1..] == Varint(v / 128) + rest;
    }
  }

  /** GetVarint32PtrFallback (5 groups, 32 bits) and GetVarint64Ptr (10 groups, 64 bits): the shifted
      groups never share a bit, so or-ing them adds them, and the machine word keeps the low bits. */
  method GetVarint(input: Bytes, groups: nat, modulus: nat) returns (r: Decoded<nat>)
    requires modulus > 0
    ensures r == match DecodeVarint(input, groups) case Failed => Failed case Got(v, rest) => Got(v % modulus, rest)
  {
    hide DecodeVarint, Scaled;
    var result: nat, unit: nat, p := 0, 1, 0;
    ghost var whole := DecodeVarint(input, groups);
    AtUnitOne(whole);
    assert input[0..] == input;
    while p < groups && p < |input|
      invariant p <= groups && p <= |input|
      invariant whole == Scaled(result, unit, DecodeVarint(input[p..], groups - p))
    {
      var byte: int := input[p];
      assert input[p..][1..] == input[p + 1..];
      NextGroup(result, unit, input[p..], groups - p);
      if byte >= 128 {
        result := result + unit * (byte - 128);
      } else {
        r := Got((result + unit * byte) % modulus, input[p + 1..]);
        return;
      }
      unit := unit * 128;
      p := p + 1;
    }
    NoGroup(result, unit, input[p..], groups - p);
    return Failed;
  }

  /** The number that is still to be read, behind the groups that were. */
  function Scaled(result: nat, unit: nat, high: Decoded<nat>): Decoded<nat> {
    match high case Failed => Failed case Got(v, rest) => Got(result + unit * v, rest)
  }

  lemma AtUnitOne(high: Decoded<nat>)
    ensures Scaled(0, 1, high) == high
  {
  }

  lemma NextGroup(result: nat, unit: nat, b: Bytes, groups: nat)
    requires b != [] && groups > 0
    ensures b[0] >= 128 ==> Scaled(result, unit, DecodeVarint(b, groups))
                            == Scaled(result + unit * (b[0] - 128), unit * 128, DecodeVarint(b[1..], groups - 1))
    ensures b[0] < 128 ==> Scaled(result, unit, DecodeVarint(b, groups)) == Got(result + unit * b[0], b[1..])
  {
    if b[0] >= 128 {
      Regroup(result, unit, b[0] - 128, DecodeVarint(b[1..], groups - 1));
    }
  }

  lemma NoGroup(result: nat, unit: nat, b: Bytes, groups: nat)
    requires b == [] || groups == 0
    ensures Scaled(result, unit, DecodeVarint(b, groups)) == Failed
  {
  }

  lemma Regroup(result: nat, unit: nat, low: nat, high: Decoded<nat>)
    ensures high.Got? ==> result + unit * (low + 128 * high.value) == (result + unit * low) + (unit * 128) * high.value
  {
  }

  lemma Limits()
    ensures Limit(5) > TWO32 && Limit(10) > TWO64
  {
    assert Limit(5) == 128 * (128 * (128 * (128 * (128 * Limit(0)))));
    assert Limit(10) == 128 * (128 * (128 * (128 * (128 * Limit(5)))));
  }

  function GetVarint32(b: Bytes): (r: Decoded<nat>)
    ensures r.Got? ==> |r.rest| < |b|
  {
    match DecodeVarint(b, 5) case Failed => Failed case Got(v, rest) => Got(v % TWO32, rest)
  }

  function GetVarint64(b: Bytes): (r: Decoded<nat>)
    ensures r.Got? ==> |r.rest| < |b|
  {
    match DecodeVarint(b, 10) case Failed => Failed case Got(v, rest) => Got(v % TWO64, rest)
  }

  /** A value that fits in the machine word is not cut. */
  lemma WordKeeps(b: Bytes, v: nat, rest: Bytes)
    ensures v < TWO32 && DecodeVarint(b, 5) == Got(v, rest) ==> GetVarint32(b) == Got(v, rest)
    ensures v < TWO64 && DecodeVarint(b, 10) == Got(v, rest) ==> GetVarint64(b) == Got(v, rest)
  {
  }

  lemma Varint32RoundTrip(v: nat, rest: Bytes)
    requires v < TWO32
    ensures GetVarint32(Varint(v) + rest) == Got(v, rest)
  {
    Limits();
    VarintRoundTrip(v, 5, rest);
    WordKeeps(Varint(v) + rest, v, rest);
  }

  lemma Varint64RoundTrip(v: nat, rest: Bytes)
    requires v < TWO64
    ensures GetVarint64(Varint(v) + rest) == Got(v, rest)
  {
    Limits();
    VarintRoundTrip(v, 10, rest);
    WordKeeps(Varint(v) + rest, v, rest);
  }

  // ---------- Length-prefixed byte strings ----------

  /** PutVarint32 keeps 32 bits of the length. */
  function LengthPrefixed(s: Bytes): Bytes {
    Varint(|s| % TWO32) + s
  }

  function GetLengthPrefixed(b: Bytes): (r: Decoded<Bytes>)
    ensures r.Got? ==> |r.rest| < |b|
  {
    match GetVarint32(b)
    case Failed => Failed
    case Got(n, rest) => if |rest| >= n then Got(rest[..n], rest[n..]) else Failed
  }

  lemma LengthPrefixedRoundTrip(s: Bytes, rest: Bytes)
    requires |s| < TWO32
    ensures GetLengthPrefixed(LengthPrefixed(s) + rest) == Got(s, rest)
  {
    assert LengthPrefixed(s) + rest == Varint(|s|) + (s + rest);
    Varint32RoundTrip(|s|, s + rest);
    assert (s + rest)[..|s|] == s && (s + rest)[|s|..] == rest;
  }
}
