/** The `edit` stage: its ops on one record, in place (crates/stages/src/edit.rs:333-443). */
module Edit {
  import opened Wrappers
  import J = Json
  import opened PathWalk
  import opened Fields
  import PathText

  datatype Cause = Absent | Type

  datatype Op =
    | Set(field: seq<string>, value: J.Value)
    | Rename(source: seq<string>, to: seq<string>)
    | Copy(path: PathText.FieldPath, to: seq<string>)
    | Hash(field: seq<string>)
    | Delete(fields: seq<seq<string>>)

  datatype OnUnapplied = Skip | DropRecord

  /** A read value as JSON of its own, unless it is null or no JSON value. */
  function Owned(value: FieldValue): Option<J.Value> {
    match value
    case Null => None
    case Bool(b) => Some(J.Bool(b))
    case Str(text) => Some(J.Str(text))
    case Num(Int(i)) => if -0x8000_0000_0000_0000 <= i < 0x1_0000_0000_0000_0000 then Some(J.Number(J.Int(i))) else None
    case Num(Float(f)) => Some(J.Number(J.Float(f)))
    case Json(v) => Some(v)
  }

  /** What an op makes of a record. `digest` stands for the hex SHA-256 of a scalar's
      canonical text. */
  function Applied(op: Op, v: J.Value, meta: Meta, digest: FieldValue -> string): Result<J.Value, Cause> {
    match op
    case Set(field, value) => Ok(WriteAt(v, field, value))
    case Rename(source, to) =>
      (match Owned(ReadRecord(v, source))
       case None => Err(Absent)
       case Some(value) => Ok(WriteAt(Without(v, source), to, value)))
    case Copy(path, to) =>
      (match Owned(ReadPath(path, v, meta))
       case None => Err(Absent)
       case Some(value) => Ok(WriteAt(v, to, value)))
    case Hash(field) =>
      (match ReadRecord(v, field)
       case Null => Err(Absent)
       case Json(_) => Err(Type)
       case scalar => Ok(WriteAt(v, field, J.Str(digest(scalar)))))
    case Delete(fields) => Ok(WithoutAll(v, fields))
  }

  /** `v` without what `segments` names, if it names anything. */
  function Without(v: J.Value, segments: seq<string>): J.Value {
    if ReadAt(v, segments).Some? then RemoveAt(v, segments) else v
  }

  function WithoutAll(v: J.Value, fields: seq<seq<string>>): J.Value
    decreases fields
  {
    if fields == [] then v else WithoutAll(Without(v, fields[0]), fields[1..])
  }

  /** The record after all ops, or nothing when an op that does not apply drops it. */
  function Edited(ops: seq<Op>, v: J.Value, meta: Meta, digest: FieldValue -> string,
      policy: OnUnapplied): Option<J.Value>
    decreases ops
  {
    if ops == [] then Some(v)
    else
      match Applied(ops[0], v, meta, digest)
      case Ok(next) => Edited(ops[1..], next, meta, digest, policy)
      case Err(_) => if policy == DropRecord then None else Edited(ops[1..], v, meta, digest, policy)
  }

  // ----- in place -----

  /** `Op::apply`: the record is unchanged when the op does not apply. */
  method Apply(op: Op, record: Record, meta: Meta, digest: FieldValue -> string) returns (unapplied: Option<Cause>)
    modifies record
    ensures match Applied(op, old(record.value), meta, digest)
            case Ok(v) => unapplied == None && record.value == v
            case Err(cause) => unapplied == Some(cause) && record.value == old(record.value)
  {
    unapplied := None;
    match op
    case Set(field, value) =>
      record.Write(field, value);
    case Rename(source, to) =>
      var found := record.Read(source);
      var value := Owned(if found.Some? then FromJson(found.value) else Null);
      if value.None? {
        return Some(Absent);
      }
      var _ := record.Remove(source);
      record.Write(to, value.value);
    case Copy(path, to) =>
      var value := Owned(ReadPath(path, record.value, meta));
      if value.None? {
        return Some(Absent);
      }
      record.Write(to, value.value);
    case Hash(field) =>
      var found := record.Read(field);
      var value := if found.Some? then FromJson(found.value) else Null;
      if value.Null? {
        return Some(Absent);
      }
      if value.Json? {
        return Some(Type);
      }
      record.Write(field, J.Str(digest(value)));
    case Delete(fields) =>
      assert fields[0..] == fields;
      for k := 0 to |fields|
        invariant WithoutAll(record.value, fields[k..]) == WithoutAll(old(record.value), fields)
      {
        assert fields[k..][1..] == fields[k + 1..];
        var _ := record.Remove(fields[k]);
      }
  }

  /** `Edit::process`: `None` is the drop with reason `edit_unapplied`. */
  method Process(ops: seq<Op>, record: Record, meta: Meta, digest: FieldValue -> string, policy: OnUnapplied)
      returns (passed: bool)
    modifies record
    ensures passed <==> Edited(ops, old(record.value), meta, digest, policy).Some?
    ensures passed ==> Some(record.value) == Edited(ops, old(record.value), meta, digest, policy)
  {
    assert ops[0..] == ops;
    for k := 0 to |ops|
      invariant Edited(ops[k..], record.value, meta, digest, policy) ==
        Edited(ops, old(record.value), meta, digest, policy)
    {
      assert ops[k..][1..] == ops[k + 1..];
      var unapplied := Apply(ops[k], record, meta, digest);
      if unapplied.Some? && policy == DropRecord {
        return false;
      }
    }
    return true;
  }

  // ----- laws -----

  /** Reading a JSON value and owning it gives it back, unless it is null. */
  lemma OwnedFromJson(v: J.Value)
    ensures Owned(FromJson(v)) == if v.Null? then None else Some(v)
  {
  }

  /** A rename applies exactly when its source holds something but null; then `to` holds just
      what the source held, even when one path lies under the other. */
  lemma RenameMoves(source: seq<string>, to: seq<string>, v: J.Value, meta: Meta, digest: FieldValue -> string)
    ensures Applied(Rename(source, to), v, meta, digest).Ok? <==>
      ReadAt(v, source).Some? && !ReadAt(v, source).value.Null?
    ensures var after := Applied(Rename(source, to), v, meta, digest);
            after.Ok? ==> ReadAt(after.value, to) == ReadAt(v, source)
  {
    if ReadAt(v, source).Some? && !ReadAt(v, source).value.Null? {
      OwnedFromJson(ReadAt(v, source).value);
      ReadAfterWrite(Without(v, source), to, ReadAt(v, source).value);
    }
  }

  /** After a rename between object keys the source reads as absent, when neither path lies
      under the other and the write replaces no list. */
  lemma RenameLeavesSourceEmpty(p: seq<string>, key: string, to: seq<string>, k: nat, v: J.Value, meta: Meta,
      digest: FieldValue -> string)
    requires var source := p + [key];
             PartAt(to, source, k) && ReadAt(v, p).Some? && ReadAt(v, p).value.Object?
             && Applied(Rename(source, to), v, meta, digest).Ok?
    ensures ReadRecord(Applied(Rename(p + [key], to), v, meta, digest).value, p + [key]) == Null
  {
    var source := p + [key];
    RenameMoves(source, to, v, meta, digest);
    var removed := RemoveAt(v, source);
    ReadParentAfterRemove(v, p, key);
    ReadDropped(ReadAt(v, p).value, key);
    ReadAppend(removed, p, [key]);
    OwnedFromJson(ReadAt(v, source).value);
    WriteFrame(removed, to, source, k, ReadAt(v, source).value);
  }

  /** A copy leaves what it read where it was whenever the two paths part at no list the write
      replaces. */
  lemma CopyKeepsSource(source: seq<string>, to: seq<string>, k: nat, v: J.Value, meta: Meta,
      digest: FieldValue -> string)
    requires PartAt(to, source, k) && !ReplacesList(ReadAt(v, to[..k]), to[k])
    requires Applied(Copy(PathText.Record(source), to), v, meta, digest).Ok?
    ensures var after := Applied(Copy(PathText.Record(source), to), v, meta, digest).value;
            ReadAt(after, source) == ReadAt(v, source) && ReadAt(after, to) == ReadAt(v, source)
  {
    var value := ReadAt(v, source).value;
    OwnedFromJson(value);
    WriteFrame(v, to, source, k, value);
    ReadAfterWrite(v, to, value);
  }
}
