/** The log file format (db/log_format.h): records cut into checksummed fragments that never cross
    a block boundary. */
module LogFormat {
  import opened Coding

  const BLOCK_SIZE: nat := 32768
  const HEADER_SIZE: nat := 7

  const FULL: Byte := 1
  const FIRST: Byte := 2
  const MIDDLE: Byte := 3
  const LAST: Byte := 4

  /** crc32c, left open: any function of the type byte and the payload. */
  type Checksum = Bytes -> nat

  /** crc32c::Mask: rotate right by 15 bits and add a constant. */
  function Mask(crc: nat): (r: nat)
    requires crc < TWO32
    ensures r < TWO32
  {
    (crc / 0x8000 + crc % 0x8000 * 0x2_0000 + 0xa282ead8) % TWO32
  }

  function Unmask(masked: nat): nat
    requires masked < TWO32
  {
    var rot := (masked + TWO32 - 0xa282ead8) % TWO32;
    rot / 0x2_0000 + rot % 0x2_0000 * 0x8000
  }

  lemma UnmaskMask(crc: nat)
    requires crc < TWO32
    ensures Unmask(Mask(crc)) == crc
  {
    var rot := crc / 0x8000 + crc % 0x8000 * 0x2_0000;
    assert rot < TWO32;
    assert (Mask(crc) + TWO32 - 0xa282ead8) % TWO32 == rot;
    assert rot / 0x2_0000 == crc % 0x8000 && rot % 0x2_0000 == crc / 0x8000;
  }

  // ---------- Fragments ----------

  function Crc32(crc: Checksum, t: Byte, payload: Bytes): nat {
    crc([t] + payload) % TWO32
  }

  function Header(crc: Checksum, t: Byte, payload: Bytes): (r: Bytes)
    requires |payload| <= 0xffff
    ensures |r| == HEADER_SIZE
  {
    Fixed32(Mask(Crc32(crc, t, payload))) + [Low(|payload|), Low(|payload| / 256), t]
  }

  function Physical(crc: Checksum, t: Byte, payload: Bytes): (r: Bytes)
    requires |payload| <= 0xffff
    ensures |r| == HEADER_SIZE + |payload|
  {
    Header(crc, t, payload) + payload
  }

  /** The trailer of a block that is too short for another header. */
  function Pad(pos: nat): (n: nat)
    ensures n < HEADER_SIZE
    ensures (pos + n) % BLOCK_SIZE + HEADER_SIZE <= BLOCK_SIZE
  {
    var leftover := BLOCK_SIZE - pos % BLOCK_SIZE;
    if leftover < HEADER_SIZE then leftover else 0
  }

  /** Room for payload in the block in which the next fragment starts. */
  function Room(pos: nat): nat {
    BLOCK_SIZE - (pos + Pad(pos)) % BLOCK_SIZE - HEADER_SIZE
  }

  function FragmentLength(data: Bytes, pos: nat): nat {
    if |data| < Room(pos) then |data| else Room(pos)
  }

  function FragmentType(begin: bool, end: bool): Byte {
    if begin && end then FULL else if begin then FIRST else if end then LAST else MIDDLE
  }

  function IsLast(data: Bytes, pos: nat): bool {
    |data| == FragmentLength(data, pos)
  }

  function Zeros(n: nat): (r: Bytes)
    ensures |r| == n
  {
    seq(n, _ => 0)
  }

  function Fragment(crc: Checksum, data: Bytes, pos: nat, begin: bool): (r: Bytes)
    ensures |r| == Pad(pos) + HEADER_SIZE + FragmentLength(data, pos)
  {
    var n := FragmentLength(data, pos);
    Zeros(Pad(pos)) + Physical(crc, FragmentType(begin, IsLast(data, pos)), data[..n])
  }

  /** A fragment byte for byte: at a place with fewer than seven bytes left in its block of 32 KB, zeros go first; then
      come four bytes of the rotated checksum of the type and the payload, two of the payload's length, the type (1 for
      a whole record, 2 for its first part, 3 for a middle and 4 for the last one), and as much payload as there is
      room for. */
  lemma FragmentBytes(crc: Checksum, data: Bytes, pos: nat, begin: bool)
    ensures var left := 32768 - pos % 32768;
            var pad := if left < 7 then left else 0;
            var room := if left < 7 then 32761 else left - 7;
            var n := if |data| < room then |data| else room;
            var t := if n == |data| then (if begin then 1 else 4) else (if begin then 2 else 3);
            var sum := crc([t] + data[..n]) % 0x1_0000_0000;
            && Fragment(crc, data, pos, begin) ==
               seq(pad, _ => 0)
               + (Fixed((sum / 0x8000 + sum % 0x8000 * 0x2_0000 + 0xa282_ead8) % 0x1_0000_0000, 4)
                  + [n % 256, n / 256, t] + data[..n])
  {
    var left := 32768 - pos % 32768;
    var pad := if left < 7 then left else 0;
    var n := FragmentLength(data, pos);
    PadIs(pos);
    assert Zeros(pad) == seq(pad, _ => 0);
    LengthBytes(n);
  }

  lemma PadIs(pos: nat)
    ensures var left := 32768 - pos % 32768;
            Pad(pos) == (if left < 7 then left else 0) && Room(pos) == if left < 7 then 32761 else left - 7
  {
    var left := 32768 - pos % 32768;
    if left < 7 {
      assert (pos + left) % 32768 == 0;
    }
  }

  lemma LengthBytes(n: nat)
    requires n <= 0xffff
    ensures Low(n) == n % 256 && Low(n / 256) == n / 256
  {
  }

  /** The bytes of a record (or of what is left of it) written at file position pos. */
  function Encode(crc: Checksum, data: Bytes, pos: nat, begin: bool): (r: Bytes)
    ensures |r| >= |Fragment(crc, data, pos, begin)|
    decreases Effort(|data|, pos)
  {
    var f := Fragment(crc, data, pos, begin);
    if IsLast(data, pos) then f
    else
      RoomAfterFullBlock(pos);
      f + Encode(crc, data[FragmentLength(data, pos)..], pos + |f|, false)
  }

  /** A fragment without payload is followed by one with payload. */
  lemma RoomAfterFullBlock(pos: nat)
    ensures Room(pos) == 0 ==> Room(pos + Pad(pos) + HEADER_SIZE) > 0 && Pad(pos + Pad(pos) + HEADER_SIZE) == 0
  {
    if Room(pos) == 0 {
      assert (pos + Pad(pos)) % BLOCK_SIZE == BLOCK_SIZE - HEADER_SIZE;
      assert (pos + Pad(pos) + HEADER_SIZE) % BLOCK_SIZE == 0;
    }
  }

  /** Decreases with every fragment, also with one that carries no payload. */
  function Effort(left: nat, pos: nat): nat {
    2 * left + if Room(pos) == 0 then 1 else 0
  }

  lemma LessEffort(left: nat, pos: nat, n: nat)
    requires n == Room(pos) < left
    ensures Effort(left - n, pos + Pad(pos) + HEADER_SIZE + n) < Effort(left, pos)
  {
    RoomAfterFullBlock(pos);
  }

  lemma EncodeUnfolds(crc: Checksum, data: Bytes, pos: nat, begin: bool)
    requires !IsLast(data, pos)
    ensures var n, f := FragmentLength(data, pos), Fragment(crc, data, pos, begin);
            Encode(crc, data, pos, begin) == f + Encode(crc, data[n..], pos + |f|, false)
  {
  }

  lemma LastOfRecord(crc: Checksum, data: Bytes, pos: nat, begin: bool)
    requires IsLast(data, pos)
    ensures Encode(crc, data, pos, begin) == Fragment(crc, data, pos, begin)
  {
  }

  lemma RestOfRecord(crc: Checksum, before: Bytes, left: Bytes, begin: bool, f: Bytes, n: nat, rest: Bytes)
    requires !IsLast(left, |before|) && n == FragmentLength(left, |before|) && rest == left[n..]
    requires f == Fragment(crc, left, |before|, begin)
    ensures before + Encode(crc, left, |before|, begin) == (before + f) + Encode(crc, rest, |before| + |f|, false)
  {
    EncodeUnfolds(crc, left, |before|, begin);
    Associate(before, f, Encode(crc, rest, |before| + |f|, false));
  }

  /** How a record is laid out at a file position. */
  type Layout = (Bytes, nat) -> Bytes

  function Records(crc: Checksum): Layout {
    (data, pos) => Encode(crc, data, pos, true)
  }

  function EncodeAll(layout: Layout, records: seq<Bytes>, pos: nat): Bytes {
    if records == [] then []
    else
      var r := layout(records[0], pos);
      r + EncodeAll(layout, records[1..], pos + |r|)
  }

  /** How many of the records have their last fragment within the first `length` bytes of the file. */
  function Complete(layout: Layout, records: seq<Bytes>, pos: nat, length: nat): (n: nat)
    ensures n <= |records|
  {
    if records == [] then 0
    else
      var next := pos + |layout(records[0], pos)|;
      if next <= length then 1 + Complete(layout, records[1..], next, length) else 0
  }

  // ---------- The writer ----------

  lemma SameOffset(a: nat, b: nat, n: nat)
    requires a % BLOCK_SIZE == b % BLOCK_SIZE
    ensures (a + n) % BLOCK_SIZE == (b + n) % BLOCK_SIZE
  {
    var qa, qb, r := a / BLOCK_SIZE, b / BLOCK_SIZE, a % BLOCK_SIZE;
    assert a + n == qa * BLOCK_SIZE + (r + n) && b + n == qb * BLOCK_SIZE + (r + n);
  }

  class Writer {
    const crc: Checksum
    /** The file as written so far. */
    var dest: Bytes
    var blockOffset: nat

    ghost predicate Valid()
      reads this
    {
      blockOffset <= BLOCK_SIZE && blockOffset % BLOCK_SIZE == |dest| % BLOCK_SIZE
    }

    /** Opens a writer at the current end of the file. */
    constructor (crc: Checksum, dest: Bytes)
      ensures Valid() && this.dest == dest && this.crc == crc
    {
      this.crc, this.dest := crc, dest;
      blockOffset := |dest| % BLOCK_SIZE;
    }

    method AddRecord(data: Bytes)
      requires Valid()
      modifies this
      ensures Valid() && dest == old(dest) + Encode(crc, data, |old(dest)|, true)
    {
      var begin, left := true, data;
      ghost var all := dest + Encode(crc, data, |dest|, true);
      while true
        invariant Valid()
        invariant dest + Encode(crc, left, |dest|, begin) == all
        decreases Effort(|left|, |dest|)
      {
        var n, end := AddFragmentOf(left, begin);
        if end {
          break;
        }
        left := left[n..];
        begin := false;
      }
    }

    /** Adds one fragment; what is left of the record continues after it. */
    method AddFragmentOf(left: Bytes, begin: bool) returns (n: nat, end: bool)
      requires Valid()
      modifies this
      ensures Valid() && n <= |left| && (end <==> n == |left|)
      ensures old(dest) + Encode(crc, left, |old(dest)|, begin) ==
              if end then dest else dest + Encode(crc, left[n..], |dest|, false)
      ensures !end ==> Effort(|left| - n, |dest|) < Effort(|left|, |old(dest)|)
    {
      hide Encode, Fragment, Effort;
      ghost var before := dest;
      n := AddFragment(left, begin);
      end := |left| == n;
      if end {
        LastOfRecord(crc, left, |before|, begin);
      } else {
        LessEffort(|left|, |before|, n);
        RestOfRecord(crc, before, left, begin, Fragment(crc, left, |before|, begin), n, left[n..]);
      }
    }

    /** One fragment, in a new block if this one has no room for another header. */
    method AddFragment(left: Bytes, begin: bool) returns (n: nat)
      requires Valid()
      modifies this
      ensures Valid() && n == FragmentLength(left, |old(dest)|)
      ensures dest == old(dest) + Fragment(crc, left, |old(dest)|, begin)
    {
      SwitchBlock();
      var avail := BLOCK_SIZE - blockOffset - HEADER_SIZE;
      n := if |left| < avail then |left| else avail;
      EmitPhysicalRecord(FragmentType(begin, |left| == n), left[..n]);
    }

    method SwitchBlock()
      requires Valid()
      modifies this
      ensures Valid() && blockOffset + HEADER_SIZE <= BLOCK_SIZE
      ensures dest == old(dest) + Zeros(Pad(|old(dest)|)) && Room(|old(dest)|) == BLOCK_SIZE - blockOffset - HEADER_SIZE
    {
      var leftover := BLOCK_SIZE - blockOffset;
      if leftover < HEADER_SIZE {
        if leftover > 0 {
          dest := dest + Zeros(leftover);
        }
        blockOffset := 0;
      }
    }

    method EmitPhysicalRecord(t: Byte, payload: Bytes)
      requires Valid() && |payload| <= 0xffff && blockOffset + HEADER_SIZE + |payload| <= BLOCK_SIZE
      modifies this
      ensures Valid() && dest == old(dest) + Physical(crc, t, payload)
    {
      var header := Header(crc, t, payload);
      Associate(dest, header, payload);
      SameOffset(blockOffset, |dest|, HEADER_SIZE + |payload|);
      dest := dest + header;
      dest := dest + payload;
      blockOffset := blockOffset + HEADER_SIZE + |payload|;
    }
  }
}
