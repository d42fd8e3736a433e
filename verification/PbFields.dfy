/** Message descriptors of nanopb (pb.h) and the iterator over their fields (pb_common.c). */
module PbFields {
  /** Data types, with the number of bytes of the C type or the size of the static buffer. */
  datatype Kind =
    | Varint(size: nat)
    | UVarint(size: nat)
    | SVarint(size: nat)
    | Fixed32
    | Fixed64
    | BytesOf(size: nat)
    | StringOf(size: nat)
    | Submessage(fields: seq<Field>)
    | Extension

  datatype Rule = Required | Optional | Repeated(arraySize: nat)

  datatype Field = Field(tag: nat, rule: Rule, kind: Kind)

  /** The end of every descriptor; read as a field, it is a required one with tag 0. */
  const TERMINATOR: Field := Field(0, Required, Varint(0))

  function At(fields: seq<Field>, pos: nat): Field {
    if pos < |fields| then fields[pos] else TERMINATOR
  }

  /** Tag 0 marks the end, so no field has it. */
  predicate Descriptor(fields: seq<Field>) {
    forall f :: f in fields ==> f.tag != 0
  }

  /** How many of the first n fields are required. */
  function RequiredBefore(fields: seq<Field>, n: nat): (r: nat)
    requires n <= |fields|
    ensures r <= n
  {
    if n == 0 then 0
    else RequiredBefore(fields, n - 1) + if fields[n - 1].rule.Required? then 1 else 0
  }

  lemma {:induction false} RequiredBeforeGrows(fields: seq<Field>, n: nat, m: nat)
    requires n <= m <= |fields|
    ensures RequiredBefore(fields, n) <= RequiredBefore(fields, m)
    ensures n < m && fields[n].rule.Required? ==> RequiredBefore(fields, n) < RequiredBefore(fields, m)
  {
    if n < m {
      RequiredBeforeGrows(fields, n, m - 1);
    }
  }

  class FieldIter {
    const fields: seq<Field>
    var pos: nat
    var requiredFieldIndex: nat

    ghost predicate Valid()
      reads this
    {
      && Descriptor(fields) && pos <= |fields| && (pos < |fields| || fields == [])
      && requiredFieldIndex == RequiredBefore(fields, pos)
    }

    constructor (fields: seq<Field>)
      requires Descriptor(fields)
      ensures Valid() && this.fields == fields && pos == 0
    {
      this.fields, pos, requiredFieldIndex := fields, 0, 0;
    }

    method Begin() returns (more: bool)
      requires Descriptor(fields)
      modifies this
      ensures Valid() && pos == 0 && (more <==> fields != [])
    {
      pos, requiredFieldIndex := 0, 0;
      more := At(fields, pos).tag != 0;
    }

    /** The next field; behind the last one it is the first one again, and the result is false. */
    method Next() returns (more: bool)
      requires Valid()
      modifies this
      ensures Valid()
      ensures if old(pos) + 1 < |fields| then more && pos == old(pos) + 1 else !more && pos == 0
    {
      var previous := At(fields, pos);
      if previous.tag == 0 {
        return false;
      }
      pos := pos + 1;
      if At(fields, pos).tag == 0 {
        var nonEmpty := Begin();
        return false;
      }
      if previous.rule.Required? {
        requiredFieldIndex := requiredFieldIndex + 1;
      }
      return true;
    }

    /** A field that can carry this tag; extensions are looked for elsewhere. */
    predicate Carries(i: nat, tag: nat)
    {
      At(fields, i).tag == tag && !At(fields, i).kind.Extension?
    }

    /** Searches the whole descriptor, from the current field on and around its end: the result is the first
        field with the tag at or behind the current one, or else the first of all. In an empty message the
        terminator carries tag 0. */
    method Find(tag: nat) returns (found: bool)
      requires Valid()
      modifies this
      ensures Valid()
      ensures found ==> Carries(pos, tag)
      ensures found && pos >= old(pos) ==> forall i :: old(pos) <= i < pos ==> !Carries(i, tag)
      ensures found && pos < old(pos) ==>
                forall i :: (0 <= i < pos || old(pos) <= i < |fields|) ==> !Carries(i, tag)
      ensures !found ==> pos == old(pos) && forall i :: 0 <= i < |fields| ==> !Carries(i, tag)
      ensures fields == [] ==> (found <==> tag == 0)
    {
      var start := pos;
      ghost var wrapped := false;
      while true
        invariant Valid() && (start < |fields| || (fields == [] && start == 0 && !wrapped))
        invariant if wrapped then pos < start && Missed(start, |fields|, tag) && Missed(0, pos, tag)
                  else start <= pos && Missed(start, pos, tag)
        decreases if wrapped then start - pos else start + |fields| - pos
      {
        if Carries(pos, tag) {
          return true;
        }
        var more := Next();
        if !more {
          wrapped := true;
        }
        if pos == start {
          return false;
        }
      }
    }

    ghost predicate Missed(from: nat, to: nat, tag: nat)
    {
      forall i :: from <= i < to ==> !Carries(i, tag)
    }
  }
}
