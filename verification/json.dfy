/**
 The JSON values the writer hands to its JSON library. Objects are maps, so
 the model does not fix the key order of Java's `HashMap`; the library's text
 output is a collaborator (`Encoder`) of which only newline-freedom is assumed.
 */
module Json {

  /** A Java `double`, kept opaque as its IEEE-754 bit pattern. */
  datatype Double = Double(bits: bv64)

  datatype Json =
    | JNull
    | JString(str: string)
    | JLong(long: int)
    | JDouble(double: Double)
    | JObject(fields: map<string, Json>)

  /** The serialiser: fastjson's compact `toJSONString`. */
  type Encoder = Json -> string

  /** Compact JSON never contains a raw newline (string escapes write `\n` as two characters). */
  ghost predicate NewlineFree(encode: Encoder)
  {
    forall j :: '\n' !in encode(j)
  }
}
