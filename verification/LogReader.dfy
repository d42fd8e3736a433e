/** Reading a log back (db/log_reader.cc), also one whose last append was torn. */
module LogReader {
  import opened Coding
  import opened LogFormat
  import opened Visibility

  const EOF: nat := 5
  const BAD_RECORD: nat := 6

  /** As far as the file reaches, it holds these bytes at position p. */
  ghost predicate Holds(file: Bytes, p: nat, bytes: Bytes) {
    forall i :: 0 <= i < |bytes| && p + i < |file| ==> file[p + i] == bytes[i]
  }

  lemma HoldsParts(file: Bytes, p: nat, a: Bytes, b: Bytes)
    ensures Holds(file, p, a + b) <==> Holds(file, p, a) && Holds(file, p + |a|, b)
  {
    if Holds(file, p, a + b) {
      forall i | 0 <= i < |a| && p + i < |file| ensures file[p + i] == a[i] {
        assert (a + b)[i] == a[i];
      }
      forall i | 0 <= i < |b| && p + |a| + i < |file| ensures file[p + |a| + i] == b[i] {
        assert (a + b)[|a| + i] == b[i];
      }
    }
    if Holds(file, p, a) && Holds(file, p + |a|, b) {
      forall i | 0 <= i < |a + b| && p + i < |file| ensures file[p + i] == (a + b)[i] {
        if i >= |a| {
          assert (a + b)[i] == b[i - |a|] && p + i == p + |a| + (i - |a|);
        }
      }
    }
  }

  predicate IsFragmentType(t: Byte) {
    FULL <= t <= LAST
  }

  class Reader {
    const crc: Checksum
    const file: Bytes
    /** How much of the file has been read into the buffer so far. */
    var consumed: nat
    var buffer: Bytes
    var eof: bool
    /** Corruptions reported so far. */
    var reports: nat
    /** Where the block ends that the buffer was read from. */
    ghost var blockEnd: nat

    ghost predicate Valid()
      reads this
    {
      && |buffer| <= consumed <= |file|
      && buffer == file[consumed - |buffer|..consumed]
      && (eof ==> consumed == |file|)
      && (!eof ==> consumed % BLOCK_SIZE == 0)
      && blockEnd % BLOCK_SIZE == 0
      && (buffer != [] ==> blockEnd <= Pos() + BLOCK_SIZE && consumed <= blockEnd)
    }

    /** The file position of the next unread byte. */
    ghost function Pos(): nat
      requires |buffer| <= consumed
      reads this
    {
      consumed - |buffer|
    }

    constructor (crc: Checksum, file: Bytes)
      ensures Valid() && Pos() == 0 && reports == 0 && this.crc == crc && this.file == file
    {
      this.crc, this.file := crc, file;
      consumed, buffer, eof, reports, blockEnd := 0, [], false, 0, 0;
    }

    /** What is left in the block decides whether a header can follow. */
    lemma PadHere()
      requires Valid()
      ensures |buffer| >= HEADER_SIZE ==> Pad(Pos()) == 0
      ensures |buffer| < HEADER_SIZE && !eof ==> Pad(Pos()) == |buffer|
    {
      if buffer != [] {
        InBlock(Pos(), blockEnd);
        if !eof {
          SameBlockEnd(consumed, blockEnd);
        }
      }
    }

    static lemma InBlock(p: nat, end: nat)
      requires end % BLOCK_SIZE == 0 && p < end <= p + BLOCK_SIZE
      ensures p % BLOCK_SIZE == p + BLOCK_SIZE - end
    {
    }

    static lemma SameBlockEnd(a: nat, b: nat)
      requires a % BLOCK_SIZE == 0 && b % BLOCK_SIZE == 0 && a <= b < a + BLOCK_SIZE
      ensures a == b
    {
    }

    /** Reads the next block. A short read means that the file ends here. */
    method Refill()
      requires Valid() && |buffer| < HEADER_SIZE && !eof
      modifies this
      ensures Valid() && reports == old(reports)
      ensures Pos() == old(Pos()) + Pad(old(Pos())) && Pad(Pos()) == 0
      ensures |buffer| >= HEADER_SIZE || eof
    {
      PadHere();
      var n := if consumed + BLOCK_SIZE <= |file| then BLOCK_SIZE else |file| - consumed;
      buffer := file[consumed..consumed + n];
      blockEnd := consumed + BLOCK_SIZE;
      consumed := consumed + n;
      if |buffer| < BLOCK_SIZE {
        eof := true;
      }
    }

    method Skip(n: nat)
      requires Valid() && n <= |buffer|
      modifies this`buffer
      ensures Valid() && Pos() == old(Pos()) + n && buffer == old(buffer)[n..]
    {
      buffer := buffer[n..];
    }

    // ---------- Physical records ----------

    /** What a fragment that starts at q reads as: itself if the file holds all of it, else the end. */
    ghost predicate ReadsAs(q: nat, t: Byte, payload: Bytes, recordType: nat, fragment: Bytes)
      requires |buffer| <= consumed
      reads this
    {
      if q + HEADER_SIZE + |payload| <= |file| then
        recordType == t && fragment == payload && Pos() == q + HEADER_SIZE + |payload|
      else
        recordType == EOF
    }

    lemma HeaderReads(t: Byte, payload: Bytes)
      requires Valid() && |buffer| >= HEADER_SIZE && |payload| <= 0xffff
      requires Holds(file, Pos(), Physical(crc, t, payload))
      ensures buffer[4] as int + buffer[5] as int * 256 == |payload| && buffer[6] == t
      ensures DecodeFixed32(buffer) == Mask(Crc32(crc, t, payload))
      ensures HEADER_SIZE + |payload| <= |buffer| ==> buffer[HEADER_SIZE..HEADER_SIZE + |payload|] == payload
    {
      var h := Header(crc, t, payload);
      forall i | 0 <= i < |buffer| && i < HEADER_SIZE + |payload| ensures buffer[i] == (h + payload)[i] {
        assert buffer[i] == file[Pos() + i];
      }
      forall i | 0 <= i < HEADER_SIZE ensures buffer[i] == h[i] {}
      var m := Mask(Crc32(crc, t, payload));
      assert buffer[..4] == Fixed32(m) && buffer == buffer[..4] + buffer[4..];
      Fixed32RoundTrip(m, buffer[4..]);
      assert buffer[4] == Low(|payload|) && buffer[5] == Low(|payload| / 256);
    }

    /** A fragment stays within its block, so only the end of the file can cut it short. */
    lemma CutShortAtEnd(n: nat)
      requires Valid() && buffer != [] && Pos() % BLOCK_SIZE + n <= BLOCK_SIZE && n > |buffer|
      ensures eof && Pos() + n > |file|
    {
      InBlock(Pos(), blockEnd);
      if !eof {
        SameBlockEnd(consumed, blockEnd);
      }
    }

    ghost predicate Wrote(q: nat, t: Byte, payload: Bytes)
      reads this
    {
      && IsFragmentType(t) && |payload| <= 0xffff && q % BLOCK_SIZE + HEADER_SIZE + |payload| <= BLOCK_SIZE
      && Holds(file, q, Physical(crc, t, payload))
    }

    /** Parses the fragment at the front of the buffer. The ghost arguments say what the writer put there;
        the method does not rely on it, but if it is so, it returns it. */
    method ParseFragment(ghost t: Byte, ghost payload: Bytes) returns (recordType: nat, fragment: Bytes)
      requires Valid() && |buffer| >= HEADER_SIZE
      modifies this`buffer, this`reports
      ensures Valid() && old(Pos()) < Pos()
      ensures Wrote(old(Pos()), t, payload)
              ==> ReadsAs(old(Pos()), t, payload, recordType, fragment) && reports == old(reports)
    {
      if Wrote(Pos(), t, payload) {
        HeaderReads(t, payload);
        UnmaskMask(Crc32(crc, t, payload));
        if HEADER_SIZE + |payload| > |buffer| {
          CutShortAtEnd(HEADER_SIZE + |payload|);
        }
      }
      var onDisk := buffer[6];
      var length: nat := buffer[4] as int + buffer[5] as int * 256;
      if HEADER_SIZE + length > |buffer| {
        Skip(|buffer|);
        if !eof {
          reports := reports + 1;
          return BAD_RECORD, [];
        }
        return EOF, [];
      }
      if onDisk == 0 && length == 0 {
        Skip(|buffer|);
        return BAD_RECORD, [];
      }
      fragment := buffer[HEADER_SIZE..HEADER_SIZE + length];
      if Unmask(DecodeFixed32(buffer)) != Crc32(crc, onDisk, fragment) {
        Skip(|buffer|);
        reports := reports + 1;
        return BAD_RECORD, [];
      }
      Skip(HEADER_SIZE + length);
      recordType := onDisk;
    }

    lemma FragmentIsWritten(p: nat, data: Bytes, begin: bool)
      requires Holds(file, p, Fragment(crc, data, p, begin))
      ensures Wrote(p + Pad(p), FragmentType(begin, IsLast(data, p)), data[..FragmentLength(data, p)])
    {
      var payload := data[..FragmentLength(data, p)];
      HoldsParts(file, p, Zeros(Pad(p)), Physical(crc, FragmentType(begin, IsLast(data, p)), payload));
    }

    /** Makes the buffer start with a whole header, past the trailer of the previous block, unless the
        file has none left. */
    method SkipTrailer() returns (more: bool)
      requires Valid()
      modifies this
      ensures Valid() && reports == old(reports)
      ensures more ==> |buffer| >= HEADER_SIZE && Pos() == old(Pos()) + Pad(old(Pos()))
      ensures !more ==> |file| < old(Pos()) + Pad(old(Pos())) + HEADER_SIZE
    {
      ghost var p := Pos();
      PadHere();
      while |buffer| < HEADER_SIZE
        invariant Valid() && reports == old(reports)
        invariant Pos() == p + Pad(p) || (Pos() == p && (eof || Pad(p) == |buffer|))
        invariant |buffer| >= HEADER_SIZE ==> Pos() == p + Pad(p)
        invariant !eof && |buffer| < HEADER_SIZE ==> Pos() == p
        decreases if |buffer| >= HEADER_SIZE then 0 else if eof then 1 else 2
      {
        if !eof {
          Refill();
        } else {
          Skip(|buffer|);
          return false;
        }
      }
      return true;
    }

    ghost predicate Delivers(data: Bytes, p: nat, begin: bool, recordType: nat, fragment: Bytes)
      requires |buffer| <= consumed
      reads this
    {
      if p + |Fragment(crc, data, p, begin)| <= |file| then
        && recordType == FragmentType(begin, IsLast(data, p)) as int
        && fragment == data[..FragmentLength(data, p)]
        && Pos() == p + |Fragment(crc, data, p, begin)|
      else
        recordType == EOF
    }

    /** The next fragment, or the end of the file. If the file holds the beginning of a record's rest here,
        as far as it reaches, the result is that fragment if it is complete, and the end otherwise. */
    method ReadPhysicalRecord(ghost data: Bytes, ghost begin: bool) returns (recordType: nat, fragment: Bytes)
      requires Valid()
      modifies this
      ensures Valid() && (recordType != EOF ==> old(Pos()) < Pos())
      ensures Holds(file, old(Pos()), Fragment(crc, data, old(Pos()), begin)) ==>
                reports == old(reports) && Delivers(data, old(Pos()), begin, recordType, fragment)
    {
      ghost var p := Pos();
      var more := SkipTrailer();
      if !more {
        return EOF, [];
      }
      if Holds(file, p, Fragment(crc, data, p, begin)) {
        FragmentIsWritten(p, data, begin);
      }
      recordType, fragment := ParseFragment(FragmentType(begin, IsLast(data, p)), data[..FragmentLength(data, p)]);
    }

    // ---------- Records ----------

    /** What the file holds of a record splits into its next fragment and what comes after it. */
    lemma NextFragment(left: Bytes, p: nat, begin: bool)
      requires Holds(file, p, Encode(crc, left, p, begin))
      ensures Holds(file, p, Fragment(crc, left, p, begin))
      ensures IsLast(left, p) ==> Encode(crc, left, p, begin) == Fragment(crc, left, p, begin)
      ensures var f, rest := Fragment(crc, left, p, begin), left[FragmentLength(left, p)..];
              !IsLast(left, p) ==>
                && Holds(file, p + |f|, Encode(crc, rest, p + |f|, false))
                && |Encode(crc, left, p, begin)| == |f| + |Encode(crc, rest, p + |f|, false)|
    {
      if !IsLast(left, p) {
        var f, rest := Fragment(crc, left, p, begin), left[FragmentLength(left, p)..];
        EncodeUnfolds(crc, left, p, begin);
        HoldsParts(file, p, f, Encode(crc, rest, p + |f|, false));
      }
    }

    method Report(bytes: nat)
      requires Valid()
      modifies this`reports
      ensures Valid() && reports == old(reports) + 1
    {
      reports := reports + 1;
    }

    /** What one physical record does to the record that is being put together: it ends the search
        (with a record, or without one at the end of the file) or extends scratch. */
    method Assemble(recordType: nat, fragment: Bytes, before: Bytes, open: bool)
      returns (done: bool, record: Option<Bytes>, scratch: Bytes, inFragmentedRecord: bool)
      requires Valid()
      modifies this`reports
      ensures Valid() && (recordType == EOF ==> done)
      ensures recordType == EOF ==> record == None && reports == old(reports)
      ensures recordType == FULL as int && !open ==> done && record == Some(fragment) && reports == old(reports)
      ensures recordType == FIRST as int && !open ==>
                !done && scratch == fragment && inFragmentedRecord && reports == old(reports)
      ensures recordType == MIDDLE as int && open ==>
                !done && scratch == before + fragment && inFragmentedRecord && reports == old(reports)
      ensures recordType == LAST as int && open ==>
                done && record == Some(before + fragment) && reports == old(reports)
      ensures recordType != EOF && done ==> record.Some?
    {
      done, record, scratch, inFragmentedRecord := false, None, before, open;
      if recordType == FULL as int {
        if inFragmentedRecord && scratch != [] {
          Report(|scratch|);
        }
        done, record := true, Some(fragment);
      } else if recordType == FIRST as int {
        if inFragmentedRecord && scratch != [] {
          Report(|scratch|);
        }
        scratch, inFragmentedRecord := fragment, true;
      } else if recordType == MIDDLE as int {
        if !inFragmentedRecord {
          Report(|fragment|);
        } else {
          scratch := scratch + fragment;
        }
      } else if recordType == LAST as int {
        if !inFragmentedRecord {
          Report(|fragment|);
        } else {
          scratch := scratch + fragment;
          done, record := true, Some(scratch);
        }
      } else if recordType == EOF {
        done := true;
      } else if recordType == BAD_RECORD {
        if inFragmentedRecord {
          Report(|scratch|);
          inFragmentedRecord, scratch := false, [];
        }
      } else {
        Report(|fragment| + if inFragmentedRecord then |scratch| else 0);
        inFragmentedRecord, scratch := false, [];
      }
    }

    /** What is known while a record that ends at `end` is put together, if the file holds it as far as it
        reaches. */
    ghost predicate Reading(data: Bytes, end: nat, scratch: Bytes, left: Bytes, begin: bool)
      requires |buffer| <= consumed
      reads this
    {
      && data == scratch + left && (begin ==> scratch == [])
      && Holds(file, Pos(), Encode(crc, left, Pos(), begin))
      && Pos() + |Encode(crc, left, Pos(), begin)| == end
    }

    /** What ReadRecord promises about a record that ends at `end`. */
    ghost predicate Got(data: Bytes, end: nat, record: Option<Bytes>)
      requires |buffer| <= consumed
      reads this
    {
      if end <= |file| then record == Some(data) && Pos() == end else record == None
    }

    /** What the next fragment, at p, adds to a record that is put together. */
    ghost predicate Adds(data: Bytes, end: nat, scratch: Bytes, left: Bytes, begin: bool, p: nat)
    {
      var f, n := Fragment(crc, left, p, begin), FragmentLength(left, p);
      && Holds(file, p, f) && p + |f| <= end
      && data == (scratch + left[..n]) + left[n..]
      && (begin ==> scratch + left[..n] == left[..n])
      && if IsLast(left, p) then data == scratch + left[..n] && end == p + |f|
         else && Holds(file, p + |f|, Encode(crc, left[n..], p + |f|, false))
              && end == p + |f| + |Encode(crc, left[n..], p + |f|, false)|
    }

    lemma FragmentAdds(data: Bytes, end: nat, scratch: Bytes, left: Bytes, begin: bool)
      requires Valid() && Reading(data, end, scratch, left, begin)
      ensures Adds(data, end, scratch, left, begin, Pos())
    {
      NextFragment(left, Pos(), begin);
      var n := FragmentLength(left, Pos());
      assert left == left[..n] + left[n..];
    }

    /** Where a record that is put together stands once another fragment has been read. */
    ghost predicate ReadPiece(
      data: Bytes, end: nat, scratch: Bytes, open: bool, recordType: nat, fragment: Bytes, rest: Bytes)
      requires |buffer| <= consumed
      reads this
    {
      if recordType == EOF then end > |file|
      else if recordType == FragmentType(!open, true) as int then
        data == scratch + fragment && (!open ==> data == fragment) && Got(data, end, Some(data))
      else
        && recordType == FragmentType(!open, false) as int
        && Reading(data, end, if open then scratch + fragment else fragment, rest, false)
    }

    lemma PieceIsRead(
      data: Bytes, end: nat, scratch: Bytes, left: Bytes, open: bool, p: nat, recordType: nat, fragment: Bytes)
      requires Valid() && Adds(data, end, scratch, left, !open, p)
      requires Delivers(left, p, !open, recordType, fragment)
      ensures ReadPiece(data, end, scratch, open, recordType, fragment, left[FragmentLength(left, p)..])
    {
    }

    method NextPiece(ghost data: Bytes, ghost end: nat, ghost left: Bytes, ghost scratch: Bytes, open: bool)
      returns (recordType: nat, fragment: Bytes, ghost rest: Bytes)
      requires Valid()
      modifies this
      ensures Valid() && (recordType != EOF ==> old(Pos()) < Pos())
      ensures old(Reading(data, end, scratch, left, !open)) ==>
                reports == old(reports) && ReadPiece(data, end, scratch, open, recordType, fragment, rest)
    {
      ghost var p, reading := Pos(), Reading(data, end, scratch, left, !open);
      if reading {
        FragmentAdds(data, end, scratch, left, !open);
      }
      rest := left[FragmentLength(left, p)..];
      recordType, fragment := ReadPhysicalRecord(left, !open);
      if reading {
        PieceIsRead(data, end, scratch, left, open, p, recordType, fragment);
      }
    }

    /** One turn of the loop in ReadRecord. */
    method ReadOn(ghost data: Bytes, ghost end: nat, ghost left: Bytes, before: Bytes, open: bool)
      returns (done: bool, record: Option<Bytes>, scratch: Bytes, inFragmentedRecord: bool, ghost rest: Bytes)
      requires Valid()
      modifies this
      ensures Valid() && (!done || record.Some? ==> old(Pos()) < Pos())
      ensures old(Reading(data, end, before, left, !open)) ==>
                && reports == old(reports)
                && if done then Got(data, end, record) else Reading(data, end, scratch, rest, !inFragmentedRecord)
    {
      var recordType, fragment;
      recordType, fragment, rest := NextPiece(data, end, left, before, open);
      done, record, scratch, inFragmentedRecord := Assemble(recordType, fragment, before, open);
    }

    /** The next record, if there is one. If the file holds this record here, as far as it reaches, the result
        is the record if it is complete, and no record otherwise; no corruption is reported. */
    method ReadRecord(ghost data: Bytes) returns (record: Option<Bytes>)
      requires Valid()
      modifies this
      ensures Valid() && (record.Some? ==> old(Pos()) < Pos())
      ensures var r := Encode(crc, data, old(Pos()), true);
              Holds(file, old(Pos()), r) ==> reports == old(reports) && Got(data, old(Pos()) + |r|, record)
    {
      ghost var p, left, end := Pos(), data, Pos() + |Encode(crc, data, Pos(), true)|;
      var scratch: Bytes, inFragmentedRecord := [], false;
      ghost var written := Reading(data, end, scratch, left, true);
      while true
        invariant Valid() && p <= Pos()
        invariant written ==> reports == old(reports) && Reading(data, end, scratch, left, !inFragmentedRecord)
        decreases |file| - Pos()
      {
        var done;
        done, record, scratch, inFragmentedRecord, left :=
          ReadOn(data, end, left, scratch, inFragmentedRecord);
        if done {
          return;
        }
      }
    }
  }
}
