/** Decoded JSON documents, as Go's encoding/json hands them to the program. */
module Json {
  import opened Text

  datatype Value =
    | Null
    | Bool(b: bool)
    | Number(n: real)
    | Str(s: string)
    | Array(elems: seq<Value>)
    | Object(fields: map<string, Value>)

  type Byte = b: int | 0 <= b < 256

  /** json.Unmarshal into an interface: None when the bytes are not a JSON text.
      The codec itself is a parameter of everything that reads raw JSON. */
  type Decoder = seq<Byte> -> Option<Value>

  /** A field of an object; a missing field reads as null. */
  function Field(fields: map<string, Value>, key: string): Value {
    if key in fields then fields[key] else Null
  }
}
