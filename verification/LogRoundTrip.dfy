/** A log as it is written by any number of writers, one after another, and read back after a crash
    (db/db_impl.cc, RecoverLogFile). */
module LogRoundTrip {
  import opened Coding
  import opened Visibility
  import opened LogFormat
  import opened LogReader

  lemma FirstOfConcat(a: seq<Bytes>, b: seq<Bytes>)
    requires a != []
    ensures (a + b)[0] == a[0] && (a + b)[1..] == a[1..] + b
  {
  }

  lemma {:induction false} EncodeAllAppend(layout: Layout, a: seq<Bytes>, b: seq<Bytes>, p: nat)
    ensures EncodeAll(layout, a + b, p) == EncodeAll(layout, a, p) + EncodeAll(layout, b, p + |EncodeAll(layout, a, p)|)
  {
    if a == [] {
      assert a + b == b;
    } else {
      var q := p + |layout(a[0], p)|;
      var x := EncodeAll(layout, a[1..], q);
      var y := EncodeAll(layout, b, q + |x|);
      EncodeAllAppend(layout, a[1..], b, q);
      FirstOfConcat(a, b);
      Associate(layout(a[0], p), x, y);
    }
  }

  lemma EncodeAllOne(layout: Layout, r: Bytes, p: nat)
    ensures EncodeAll(layout, [r], p) == layout(r, p)
  {
    assert [r][1..] == [];
    assert EncodeAll(layout, [], p + |layout(r, p)|) == [];
  }

  /** Exactly the records that end within the first `length` bytes are complete. */
  lemma {:induction false} CompleteCounts(layout: Layout, records: seq<Bytes>, p: nat, length: nat, i: nat)
    requires i < |records|
    ensures i < Complete(layout, records, p, length) <==> p + |EncodeAll(layout, records[..i + 1], p)| <= length
  {
    var r, first := layout(records[0], p), records[..i + 1];
    assert first[0] == records[0] && first[1..] == records[1..][..i];
    assert EncodeAll(layout, first, p) == r + EncodeAll(layout, first[1..], p + |r|);
    if i > 0 {
      CompleteCounts(layout, records[1..], p + |r|, length, i - 1);
    }
  }

  lemma OneMore(layout: Layout, records: seq<Bytes>, i: nat)
    requires i < |records|
    ensures var before := EncodeAll(layout, records[..i], 0);
            EncodeAll(layout, records[..i + 1], 0) == before + layout(records[i], |before|)
  {
    assert records[..i + 1] == records[..i] + [records[i]];
    EncodeAllAppend(layout, records[..i], [records[i]], 0);
    EncodeAllOne(layout, records[i], |EncodeAll(layout, records[..i], 0)|);
  }

  /** Writes records to a new log; before each one, the writer may be closed and another one opened at the
      current end of the file. */
  method WriteLog(crc: Checksum, records: seq<Bytes>, reopen: seq<bool>) returns (file: Bytes)
    requires |reopen| == |records|
    ensures file == EncodeAll(Records(crc), records, 0)
  {
    var writer := new Writer(crc, []);
    ghost var layout := Records(crc);
    for i := 0 to |records|
      invariant writer.Valid() && fresh(writer) && writer.crc == crc
      invariant writer.dest == EncodeAll(layout, records[..i], 0)
    {
      if reopen[i] {
        writer := new Writer(crc, writer.dest);
      }
      OneMore(layout, records, i);
      writer.AddRecord(records[i]);
    }
    file := writer.dest;
    assert records[..|records|] == records;
  }

  /** The reader stands behind k records of a log that holds these records as far as it reaches. */
  ghost predicate Behind(layout: Layout, records: seq<Bytes>, file: Bytes, p: nat, k: nat) {
    && k <= |records|
    && Holds(file, p, EncodeAll(layout, records[k..], p))
    && |file| <= p + |EncodeAll(layout, records[k..], p)|
    && Complete(layout, records, 0, |file|) == k + Complete(layout, records[k..], p, |file|)
  }

  /** behind(p, n) says that a reader at p stands behind n records. */
  ghost predicate Means(behind: (nat, nat) -> bool, layout: Layout, records: seq<Bytes>, file: Bytes) {
    forall p, n {:trigger Behind(layout, records, file, p, n)} :: behind(p, n) <==> Behind(layout, records, file, p, n)
  }

  /** The record to come, or, behind the last one, any. */
  ghost function Expected(records: seq<Bytes>, k: nat): Bytes {
    if k < |records| then records[k] else []
  }

  lemma NextRecord(layout: Layout, records: seq<Bytes>, file: Bytes, p: nat, k: nat)
    requires Behind(layout, records, file, p, k) && p <= |file|
    requires |layout(Expected(records, k), p)| > 0
    ensures Holds(file, p, layout(Expected(records, k), p))
    ensures var next := p + |layout(Expected(records, k), p)|;
            if next <= |file| then k < |records| && Behind(layout, records, file, next, k + 1)
            else Complete(layout, records, 0, |file|) == k
  {
    if k < |records| {
      var r := layout(records[k], p);
      assert records[k..][0] == records[k] && records[k..][1..] == records[k + 1..];
      HoldsParts(file, p, r, EncodeAll(layout, records[k + 1..], p + |r|));
    } else {
      assert records[k..] == [];
    }
  }

  lemma AtTheStart(layout: Layout, records: seq<Bytes>, file: Bytes)
    requires |file| <= |EncodeAll(layout, records, 0)| && file == EncodeAll(layout, records, 0)[..|file|]
    ensures Behind(layout, records, file, 0, 0)
  {
    assert records[0..] == records;
    forall i | 0 <= i < |file| ensures file[i] == EncodeAll(layout, records, 0)[i] {
    }
  }

  ghost predicate LaysOut(layout: Layout, crc: Checksum) {
    forall data, p {:trigger Encode(crc, data, p, true)} :: layout(data, p) == Encode(crc, data, p, true)
  }

  /** The reader's contract, in terms of the layout of records. */
  method ReadLaidOut(reader: Reader, ghost layout: Layout, ghost data: Bytes) returns (record: Option<Bytes>)
    requires reader.Valid() && LaysOut(layout, reader.crc)
    modifies reader
    ensures reader.Valid() && (record.Some? ==> old(reader.Pos()) < reader.Pos())
    ensures var r := layout(data, old(reader.Pos()));
            Holds(reader.file, old(reader.Pos()), r) ==>
              reader.reports == old(reader.reports) && reader.Got(data, old(reader.Pos()) + |r|, record)
    ensures |layout(data, old(reader.Pos()))| > 0
  {
    assert layout(data, reader.Pos()) == Encode(reader.crc, data, reader.Pos(), true);
    record := reader.ReadRecord(data);
  }

  /** Reads the next record of a log, if it is complete. */
  method ReadNext(reader: Reader, ghost layout: Layout, ghost records: seq<Bytes>, ghost k: nat)
    returns (record: Option<Bytes>)
    requires reader.Valid() && LaysOut(layout, reader.crc)
    requires Behind(layout, records, reader.file, reader.Pos(), k)
    modifies reader
    ensures reader.Valid() && reader.reports == old(reader.reports)
    ensures match record
            case Some(r) =>
              && k < |records| && r == records[k] && old(reader.Pos()) < reader.Pos()
              && Behind(layout, records, reader.file, reader.Pos(), k + 1)
            case None =>
              Complete(layout, records, 0, |reader.file|) == k
  {
    ghost var p, data := reader.Pos(), Expected(records, k);
    record := ReadLaidOut(reader, layout, data);
    NextRecord(layout, records, reader.file, p, k);
  }

  method ReadToTheEnd(reader: Reader, ghost layout: Layout, ghost records: seq<Bytes>) returns (read: seq<Bytes>)
    requires reader.Valid() && LaysOut(layout, reader.crc)
    requires Behind(layout, records, reader.file, reader.Pos(), 0)
    modifies reader
    ensures read == records[..Complete(layout, records, 0, |reader.file|)] && reader.reports == old(reader.reports)
  {
    read := [];
    while true
      invariant reader.Valid() && reader.reports == old(reader.reports)
      invariant Behind(layout, records, reader.file, reader.Pos(), |read|) && read == records[..|read|]
      decreases |reader.file| - reader.Pos()
    {
      var record := ReadNext(reader, layout, records, |read|);
      match record
      case Some(r) => read := read + [r];
      case None => return;
    }
  }

  /** Reads a log to its end. Of a log of `records` of which only the first bytes reached the disk, it
      returns exactly the records whose last fragment did, and reports no corruption. */
  method ReadLog(crc: Checksum, file: Bytes, ghost records: seq<Bytes>) returns (read: seq<Bytes>, reports: nat)
    requires var all := EncodeAll(Records(crc), records, 0);
             |file| <= |all| && file == all[..|file|]
    ensures read == records[..Complete(Records(crc), records, 0, |file|)]
    ensures reports == 0
  {
    var reader := new Reader(crc, file);
    ghost var layout := Records(crc);
    AtTheStart(layout, records, file);
    read := ReadToTheEnd(reader, layout, records);
    reports := reader.reports;
  }
}
