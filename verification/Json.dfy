/** JSON values (section 3 of RFC 8259), as records hold them. */
module Json {
  /** An integer a JSON record can hold: signed or unsigned 64-bit. */
  type JsonInt = i: int | -0x8000_0000_0000_0000 <= i < 0x1_0000_0000_0000_0000

  datatype Number = Int(i: JsonInt) | Float(f: real)

  datatype Value =
    | Null
    | Bool(b: bool)
    | Number(n: Number)
    | Str(text: string)
    | List(items: seq<Value>)
    | Object(fields: map<string, Value>)
}
