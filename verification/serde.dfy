/** The vocabulary every field rule shares: what the wire-format decoder hands a
    rule (Wire), what a serializer writes (Json), and the two error kinds a
    rule can report. The wire-format parser itself is not part of this model;
    Wire stands for its output. */
module Serde {

  import opened Wrappers
  import opened Utf8
  import opened Slices

  /** How a string or byte value reaches a visitor. */
  datatype Provenance =
    | FromInput(slice: Slice)  // a window on the input buffer that outlives the call (visit_borrowed_str, visit_borrowed_bytes)
    | Transient                // a temporary buffer, e.g. after escape processing (visit_str, visit_bytes)
    | Handed                   // an owned String or Vec<u8> handed over (visit_string, visit_byte_buf)

  /** A field's raw value, as the wire-format decoder presents it. */
  datatype Wire =
    | Text(text: string, from: Provenance)
    | Bytes(bytes: seq<byte>, from: Provenance)
    | Null              // the null marker; deserialize_option reports it as visit_none
    | Unit              // a unit value; deserialize_option reports it as visit_unit
    | Bool(b: bool)
    | Number(literal: string)
    | Seq(items: seq<Wire>)

  /** A borrowed value really is the part of the input buffer it claims to be. */
  predicate Consistent(input: seq<byte>, w: Wire) {
    match w
    case Text(t, FromInput(sl)) => SliceText(input, sl) == Some(t)
    case Bytes(b, FromInput(sl)) => sl.start <= sl.end <= |input| && input[sl.start..sl.end] == b
    case _ => true
  }

  /** serde's `de::Unexpected`: how an error names the offending value. */
  datatype Unexpected =
    | UBool(b: bool)
    | UStr(s: string)
    | UBytes(bytes: seq<byte>)
    | UUnit
    | UOption
    | USeq
    | UNumber(literal: string)
    | UOther(what: string)

  datatype Error =
    | InvalidType(unexpected: Unexpected, expected: string)   // the value has the wrong shape
    | InvalidValue(unexpected: Unexpected, expected: string)  // right shape, rejected by a policy
    | MissingField(field: string)                             // a required key is absent

  datatype Result<+T> = Ok(value: T) | Err(error: Error)

  /** How a type-mismatch error describes a wire value (serde_json reports null as a unit). */
  function Describe(w: Wire): (u: Unexpected)
    ensures u == UUnit <==> w.Null? || w.Unit?
    ensures !u.UOption? && !u.UOther?
    ensures u.UStr? <==> w.Text?
    ensures u.UBytes? <==> w.Bytes?
    ensures u.UBool? <==> w.Bool?
    ensures u.UNumber? <==> w.Number?
    ensures u.USeq? <==> w.Seq?
  {
    match w
    case Text(t, _) => UStr(t)
    case Bytes(b, _) => UBytes(b)
    case Null => UUnit
    case Unit => UUnit
    case Bool(b) => UBool(b)
    case Number(lit) => UNumber(lit)
    case Seq(_) => USeq
  }

  /** What a JSON serializer writes for one field value; `serialize_none` and
      `serialize_unit` both write null. */
  datatype Json = JNull | JBool(b: bool) | JStr(s: string) | JNumber(literal: string)

  /** What a copying JSON reader (one that reads from a stream, such as
      `serde_json::from_reader`) hands a field rule for a value it wrote:
      strings come back in a transient buffer. A reader over an in-memory
      string (`serde_json::from_str`) would lend an unescaped string from the
      input instead; the decimal decoder reads both alike. */
  function Read(j: Json): (w: Wire)
    ensures w.Null? <==> j.JNull?
    ensures j.JStr? ==> w == Text(j.s, Transient)
  {
    match j
    case JNull => Null
    case JBool(b) => Bool(b)
    case JStr(s) => Text(s, Transient)
    case JNumber(lit) => Number(lit)
  }

  /** Distinct written values are read as distinct wire values: reading loses
      nothing a writer put down. */
  lemma ReadInjective(j: Json, k: Json)
    ensures Read(j) == Read(k) <==> j == k
  {
  }
}
