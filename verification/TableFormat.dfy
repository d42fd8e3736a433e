/** The outer format of a table file: handles, blocks with their trailers, and the footer
    (table/format.cc). */
module TableFormat {
  import opened Coding
  import opened Visibility
  import opened LogFormat

  // ---------- Handles ----------

  /** Where a block is. */
  datatype Handle = Handle(offset: nat, size: nat)

  predicate Fits(h: Handle) {
    h.offset < TWO64 && h.size < TWO64
  }

  function HandleBytes(h: Handle): Bytes {
    Varint(h.offset) + Varint(h.size)
  }

  /** What follows a handle is ignored. */
  function DecodeHandle(b: Bytes): Decoded<Handle> {
    match GetVarint64(b)
    case Failed => Failed
    case Got(offset, b1) =>
      match GetVarint64(b1)
      case Failed => Failed
      case Got(size, rest) => Got(Handle(offset, size), rest)
  }

  lemma HandleRoundTrip(h: Handle, rest: Bytes)
    requires Fits(h)
    ensures DecodeHandle(HandleBytes(h) + rest) == Got(h, rest)
  {
    var b1 := Varint(h.size) + rest;
    assert HandleBytes(h) + rest == Varint(h.offset) + b1;
    Varint64RoundTrip(h.offset, b1);
    Varint64RoundTrip(h.size, rest);
  }

  lemma {:induction false} VarintLength(v: nat, groups: nat)
    requires v < Coding.Limit(groups) && groups > 0
    ensures |Varint(v)| <= groups
    decreases groups
  {
    if v >= 128 {
      VarintLength(v / 128, groups - 1);
    }
  }

  lemma HandleLength(h: Handle)
    requires Fits(h)
    ensures |HandleBytes(h)| <= 20
  {
    Limits();
    VarintLength(h.offset, 10);
    VarintLength(h.size, 10);
  }

  // ---------- Blocks ----------

  const TRAILER: nat := 5
  const NO_COMPRESSION: Byte := 0

  function BlockCrc(crc: Checksum, contents: Bytes, t: Byte): (c: nat)
    ensures c < TWO32
  {
    crc(contents + [t]) % TWO32
  }

  /** A block as it is written: its type and its checksum follow. */
  function RawBlock(crc: Checksum, contents: Bytes): (r: Bytes)
    ensures |r| == |contents| + TRAILER
  {
    contents + [NO_COMPRESSION] + Fixed32(Mask(BlockCrc(crc, contents, NO_COMPRESSION)))
  }

  /** What follows the contents of a block: no compression, and the rotated checksum of the contents with that byte. */
  lemma TrailerBytes(crc: Checksum, contents: Bytes)
    ensures var sum := crc(contents + [0]) % 0x1_0000_0000;
            RawBlock(crc, contents) ==
            contents + [0] + Fixed((sum / 0x8000 + sum % 0x8000 * 0x2_0000 + 0xa282_ead8) % 0x1_0000_0000, 4)
  {
  }

  /** Fails on a truncated read, a wrong checksum (if it is to be verified) and an unknown type. */
  function ReadBlock(crc: Checksum, file: Bytes, h: Handle, verify: bool): Option<Bytes> {
    if h.offset + h.size + TRAILER > |file| then None
    else
      var contents, t := file[h.offset..h.offset + h.size], file[h.offset + h.size];
      if verify && Unmask(Word(file, h.offset + h.size + 1)) != BlockCrc(crc, contents, t) then None
      else if t != NO_COMPRESSION then None
      else Some(contents)
  }

  /** The file holds this block there. */
  ghost predicate BlockAt(crc: Checksum, file: Bytes, h: Handle, contents: Bytes) {
    && h.size == |contents| && h.offset + h.size + TRAILER <= |file|
    && file[h.offset..h.offset + h.size + TRAILER] == RawBlock(crc, contents)
  }

  lemma RawParts(file: Bytes, at: nat, contents: Bytes, t: Byte, sum: Bytes)
    requires at + |contents| + 5 <= |file| && |sum| == 4
    requires file[at..at + |contents| + 5] == contents + [t] + sum
    ensures file[at..at + |contents|] == contents && file[at + |contents|] == t
    ensures file[at + |contents| + 1..at + |contents| + 5] == sum
  {
    var raw := file[at..at + |contents| + 5];
    assert raw[..|contents|] == contents && raw[|contents|] == t && raw[|contents| + 1..] == sum;
  }

  lemma BlockIsRead(crc: Checksum, file: Bytes, h: Handle, contents: Bytes, verify: bool)
    requires BlockAt(crc, file, h, contents)
    ensures ReadBlock(crc, file, h, verify) == Some(contents)
  {
    var c := BlockCrc(crc, contents, NO_COMPRESSION);
    RawParts(file, h.offset, contents, NO_COMPRESSION, Fixed32(Mask(c)));
    Fixed32At(file, h.offset + h.size + 1, Mask(c));
    UnmaskMask(c);
  }

  /** Blocks stay where they are when the file grows. */
  lemma BlockStays(crc: Checksum, file: Bytes, h: Handle, contents: Bytes, longer: Bytes)
    requires BlockAt(crc, file, h, contents) && file <= longer
    ensures BlockAt(crc, longer, h, contents)
  {
    SameSlice(file, longer, h.offset, h.offset + h.size + TRAILER);
  }

  lemma SameSlice(file: Bytes, longer: Bytes, i: nat, j: nat)
    requires file <= longer && i <= j <= |file|
    ensures longer[i..j] == file[i..j]
  {
  }

  lemma BlockAtEnd(crc: Checksum, file: Bytes, contents: Bytes)
    ensures BlockAt(crc, file + RawBlock(crc, contents), Handle(|file|, |contents|), contents)
  {
    var all := file + RawBlock(crc, contents);
    assert all[|file|..|all|] == RawBlock(crc, contents);
  }

  // ---------- The footer ----------

  const FOOTER: nat := 48
  const HANDLES: nat := 40
  const MAGIC_LOW: nat := 0x8b80fb57
  const MAGIC_HIGH: nat := 0xdb477524

  function Footer(metaindex: Handle, index: Handle): Bytes {
    var hs := HandleBytes(metaindex) + HandleBytes(index);
    hs + Zeros(if |hs| <= HANDLES then HANDLES - |hs| else 0) + Fixed32(MAGIC_LOW) + Fixed32(MAGIC_HIGH)
  }

  datatype Handles = Handles(metaindex: Handle, index: Handle)

  function DecodeFooter(b: Bytes): Option<Handles>
    requires |b| == FOOTER
  {
    if Word(b, HANDLES) != MAGIC_LOW || Word(b, HANDLES + 4) != MAGIC_HIGH then None
    else
      match DecodeHandle(b)
      case Failed => None
      case Got(metaindex, b1) =>
        match DecodeHandle(b1)
        case Failed => None
        case Got(index, _) => Some(Handles(metaindex, index))
  }

  lemma FooterParts(m: Bytes, i: Bytes, pad: Bytes, lo: Bytes, hi: Bytes)
    requires |m| + |i| + |pad| == HANDLES && |lo| == |hi| == 4
    ensures var b := (m + i) + pad + lo + hi;
            |b| == FOOTER && b == m + (i + (pad + lo + hi)) && b[HANDLES..HANDLES + 4] == lo
                && b[HANDLES + 4..HANDLES + 8] == hi
  {
  }

  lemma FooterRoundTrip(metaindex: Handle, index: Handle)
    requires Fits(metaindex) && Fits(index)
    ensures |Footer(metaindex, index)| == FOOTER
    ensures DecodeFooter(Footer(metaindex, index)) == Some(Handles(metaindex, index))
  {
    HandleLength(metaindex);
    HandleLength(index);
    var m, i, b := HandleBytes(metaindex), HandleBytes(index), Footer(metaindex, index);
    var pad, lo, hi := Zeros(HANDLES - |m + i|), Fixed32(MAGIC_LOW), Fixed32(MAGIC_HIGH);
    FooterParts(m, i, pad, lo, hi);
    DecodesFooter(metaindex, index, m, i, pad + lo + hi, b);
  }

  lemma DecodesFooter(metaindex: Handle, index: Handle, m: Bytes, i: Bytes, tail: Bytes, b: Bytes)
    requires Fits(metaindex) && Fits(index) && m == HandleBytes(metaindex) && i == HandleBytes(index)
    requires |b| == FOOTER && b == m + (i + tail)
    requires b[HANDLES..HANDLES + 4] == Fixed(MAGIC_LOW, 4) && b[HANDLES + 4..HANDLES + 8] == Fixed(MAGIC_HIGH, 4)
    ensures DecodeFooter(b) == Some(Handles(metaindex, index))
  {
    Fixed32At(b, HANDLES, MAGIC_LOW);
    Fixed32At(b, HANDLES + 4, MAGIC_HIGH);
    HandleRoundTrip(metaindex, i + tail);
    HandleRoundTrip(index, tail);
  }

  /** The footer byte for byte: both handles in 40 bytes, and the magic number of a table. */
  lemma FooterBytes(metaindex: Handle, index: Handle)
    requires Fits(metaindex) && Fits(index)
    ensures var b, hs := Footer(metaindex, index), Varint(metaindex.offset) + Varint(metaindex.size)
                                                   + (Varint(index.offset) + Varint(index.size));
            && |hs| <= 40 && b[..|hs|] == hs && (forall i :: |hs| <= i < 40 ==> b[i] == 0)
            && b[40..] == [0x57, 0xfb, 0x80, 0x8b, 0x24, 0x75, 0x47, 0xdb]
  {
    HandleLength(metaindex);
    HandleLength(index);
    assert Fixed(0x8b80_fb57, 4) == [0x57, 0xfb, 0x80, 0x8b];
    assert Fixed(0xdb47_7524, 4) == [0x24, 0x75, 0x47, 0xdb];
  }
}
