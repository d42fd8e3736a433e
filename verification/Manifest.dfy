/** Reading the manifest (db/version_set.cc, VersionSet::Recover): a log of encoded version edits, the last of
    which may be torn. */
module Manifest {
  import opened Coding
  import opened Visibility
  import opened LogFormat
  import opened LogReader
  import opened LogRoundTrip
  import EditCodec

  /** An edit and the order in which its deleted files are written. */
  datatype Logged = Logged(edit: EditCodec.FileEdit, order: seq<(nat, nat)>)

  ghost predicate Ok(l: Logged) {
    EditCodec.Lists(l.order, l.edit.deleted) && forall i :: i in EditCodec.Items(l.edit, l.order) ==> EditCodec.Fits(i)
  }

  function Rep(l: Logged): Bytes {
    EditCodec.EncodeAll(EditCodec.Encode, EditCodec.Items(l.edit, l.order))
  }

  function Reps(ls: seq<Logged>): (rs: seq<Bytes>)
    ensures |rs| == |ls| && forall i :: 0 <= i < |ls| ==> rs[i] == Rep(ls[i])
  {
    seq(|ls|, i requires 0 <= i < |ls| => Rep(ls[i]))
  }

  function Edits(ls: seq<Logged>): (es: seq<EditCodec.FileEdit>)
    ensures |es| == |ls| && forall i :: 0 <= i < |ls| ==> es[i] == ls[i].edit
  {
    seq(|ls|, i requires 0 <= i < |ls| => ls[i].edit)
  }

  function NewEdit(): EditCodec.FileEdit {
    EditCodec.FileEdit(None, None, None, None, None, [], {}, [])
  }

  /** A record decodes, into a new edit, to the edit it was made from. */
  method DecodeRecord(record: Bytes, ghost l: Logged) returns (e: EditCodec.FileEdit, ok: bool)
    ensures Ok(l) && record == Rep(l) ==> ok && e == l.edit
  {
    if Ok(l) && record == Rep(l) {
      EditCodec.EditRoundTrip(l.edit, l.order, NewEdit());
    }
    e, ok := EditCodec.DecodeFrom(NewEdit(), record);
  }

  ghost predicate AreReps(records: seq<Bytes>, logged: seq<Logged>) {
    |records| == |logged| && forall i :: 0 <= i < |logged| ==> Ok(logged[i]) && records[i] == Rep(logged[i])
  }

  /** Reads and decodes the next record, if it is complete. */
  method ReadEdit(reader: Reader, ghost layout: Layout, ghost records: seq<Bytes>, ghost logged: seq<Logged>,
                  ghost n: nat)
    returns (more: bool, e: EditCodec.FileEdit, ok: bool)
    requires reader.Valid() && LaysOut(layout, reader.crc) && Behind(layout, records, reader.file, reader.Pos(), n)
    requires AreReps(records, logged)
    modifies reader
    ensures reader.Valid() && reader.reports == old(reader.reports)
    ensures if more then
              && n < |logged| && ok && e == Edits(logged)[n] && old(reader.Pos()) < reader.Pos()
              && Behind(layout, records, reader.file, reader.Pos(), n + 1)
            else
              Complete(layout, records, 0, |reader.file|) == n
  {
    var record := ReadNext(reader, layout, records, n);
    more := record.Some?;
    e, ok := NewEdit(), true;
    if more {
      e, ok := DecodeRecord(record.value, logged[n]);
    }
  }

  /** Reads the edits of a manifest of which only the first bytes reached the disk: exactly those whose record is
      complete, in order. */
  method ReadManifest(crc: Checksum, file: Bytes, ghost logged: seq<Logged>)
    returns (edits: seq<EditCodec.FileEdit>, ok: bool, reports: nat)
    requires forall l :: l in logged ==> Ok(l)
    requires var all := EncodeAll(Records(crc), Reps(logged), 0);
             |file| <= |all| && file == all[..|file|]
    ensures ok && reports == 0
    ensures edits == Edits(logged)[..Complete(Records(crc), Reps(logged), 0, |file|)]
  {
    var reader := new Reader(crc, file);
    ghost var layout, records := Records(crc), Reps(logged);
    AtTheStart(layout, records, file);
    ghost var behind := (p: nat, n: nat) => Behind(layout, records, file, p, n);
    edits, ok := ReadEdits(reader, layout, records, logged, behind, Complete(layout, records, 0, |file|));
    reports := reader.reports;
  }

  /** The reader is in front of record n of a manifest with `complete` complete records. */
  ghost predicate Reading(reader: Reader, layout: Layout, records: seq<Bytes>, logged: seq<Logged>,
                          behind: (nat, nat) -> bool, complete: nat, n: nat)
    reads reader
  {
    && reader.Valid() && LaysOut(layout, reader.crc) && AreReps(records, logged)
    && Means(behind, layout, records, reader.file) && behind(reader.Pos(), n)
    && complete == Complete(layout, records, 0, |reader.file|)
  }

  method ReadEdits(reader: Reader, ghost layout: Layout, ghost records: seq<Bytes>, ghost logged: seq<Logged>,
                   ghost behind: (nat, nat) -> bool, ghost complete: nat)
    returns (edits: seq<EditCodec.FileEdit>, ok: bool)
    requires Reading(reader, layout, records, logged, behind, complete, 0)
    modifies reader
    ensures ok && reader.reports == old(reader.reports)
    ensures complete <= |logged| && edits == Edits(logged)[..complete]
  {
    hide Reading, Edits;
    edits, ok := [], true;
    ghost var all := Edits(logged);
    while ok
      invariant ok && Reading(reader, layout, records, logged, behind, complete, |edits|)
      invariant reader.reports == old(reader.reports) && edits <= all
      decreases |reader.file| - PositionOf(reader)
    {
      var more, e;
      more, e, ok := ReadFrom(reader, layout, records, logged, behind, complete, |edits|);
      if !more {
        ok := true;
        return;
      }
      edits := edits + [e];
    }
  }

  ghost function PositionOf(reader: Reader): nat
    reads reader
  {
    if reader.Valid() then reader.Pos() else 0
  }

  method ReadFrom(reader: Reader, ghost layout: Layout, ghost records: seq<Bytes>, ghost logged: seq<Logged>,
                  ghost behind: (nat, nat) -> bool, ghost complete: nat, ghost n: nat)
    returns (more: bool, e: EditCodec.FileEdit, ok: bool)
    requires Reading(reader, layout, records, logged, behind, complete, n)
    modifies reader
    ensures reader.reports == old(reader.reports)
    ensures if more then
              && n < |logged| && ok && e == Edits(logged)[n] && old(PositionOf(reader)) < PositionOf(reader)
              && PositionOf(reader) <= |reader.file|
              && Reading(reader, layout, records, logged, behind, complete, n + 1)
            else
              n == complete && n <= |logged|
  {
    assert Behind(layout, records, reader.file, reader.Pos(), n);
    more, e, ok := ReadEdit(reader, layout, records, logged, n);
  }
}
