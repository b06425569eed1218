/** Values as read through a field path, from a record or from its `Meta`
    (crates/core/src/path.rs:113-187, 598-611). */
module Fields {
  import opened Wrappers
  import J = Json
  import opened PathWalk
  import PathText

  /** Integers compare exactly; a float is taken as the real number it stands for. */
  datatype Num = Int(i: int) | Float(f: real)

  /** A value as read through a path; a path that matches nothing reads as `Null`. */
  datatype FieldValue = Null | Bool(b: bool) | Num(n: Num) | Str(text: string) | Json(v: J.Value)

  /** The pipeline's view of a record. */
  datatype Meta = Meta(id: u64, tenant: string, ingestionTime: u64, deliveryCount: u64)

  function FromJson(v: J.Value): FieldValue {
    match v
    case Null => Null
    case Bool(b) => Bool(b)
    case Number(Int(i)) => Num(Int(i))
    case Number(Float(f)) => Num(Float(f))
    case Str(text) => Str(text)
    case List(_) | Object(_) => Json(v)
  }

  function ReadRecord(v: J.Value, segments: seq<string>): FieldValue {
    match ReadAt(v, segments)
    case None => Null
    case Some(found) => FromJson(found)
  }

  function ReadPath(path: PathText.FieldPath, v: J.Value, meta: Meta): FieldValue {
    match path
    case Record(segments) => ReadRecord(v, segments)
    case Meta(Id) => Num(Int(meta.id))
    case Meta(Tenant) => Str(meta.tenant)
    case Meta(IngestionTime) => Num(Int(meta.ingestionTime))
    case Meta(DeliveryCount) => Num(Int(meta.deliveryCount))
  }
}
