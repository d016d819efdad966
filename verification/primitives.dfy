/** serde's own decoders for the primitive types the field rules build on:
    `bool`, `String`, `&str`, `Option<String>` and `Vec<String>`. They belong to
    serde, not to this repository; they are written out here because every rule
    propagates their results and their errors unchanged. */
module Primitives {

  import opened Wrappers
  import opened Utf8
  import opened Slices
  import opened Serde

  /** The text a string-like wire value carries: the string itself, or the
      bytes read as UTF-8; None for anything else or for invalid UTF-8. */
  function TextOf(w: Wire): Option<string> {
    match w
    case Text(t, _) => Some(t)
    case Bytes(b, _) => Decode(b)
    case _ => None
  }

  /** `bool::deserialize`. */
  function DecodeBool(w: Wire): (r: Result<bool>)
    ensures r.Ok? <==> w.Bool?
    ensures r.Ok? ==> r.value == w.b
    ensures r.Err? ==> r.error == InvalidType(Describe(w), "a boolean")
  {
    match w
    case Bool(b) => Ok(b)
    case _ => Err(InvalidType(Describe(w), "a boolean"))
  }

  /** `String::deserialize`: any string, or bytes that are valid UTF-8. */
  function DecodeString(w: Wire): (r: Result<string>)
    ensures r.Ok? <==> TextOf(w).Some?
    ensures r.Ok? ==> r.value == TextOf(w).value
    ensures w.Bytes? && r.Err? ==> r.error == InvalidValue(UBytes(w.bytes), "a string")
    ensures !w.Text? && !w.Bytes? ==> r == Err(InvalidType(Describe(w), "a string"))
  {
    match w
    case Text(t, _) => Ok(t)
    case Bytes(b, _) =>
      (match Decode(b)
       case Some(t) => Ok(t)
       case None => Err(InvalidValue(UBytes(b), "a string")))
    case _ => Err(InvalidType(Describe(w), "a string"))
  }

  /** `<&str>::deserialize`: only a string or valid UTF-8 bytes borrowed from
      the input qualify; the result is the borrowed window. */
  function DecodeStr(w: Wire): (r: Result<Slice>)
    ensures r.Ok? <==> (w.Text? || w.Bytes?) && w.from.FromInput? && TextOf(w).Some?
    ensures r.Ok? ==> r.value == w.from.slice
  {
    match w
    case Text(t, FromInput(sl)) => Ok(sl)
    case Text(t, _) => Err(InvalidType(UStr(t), "a borrowed string"))
    case Bytes(b, FromInput(sl)) =>
      if Decode(b).Some? then Ok(sl) else Err(InvalidValue(UBytes(b), "a borrowed string"))
    case Bytes(b, _) => Err(InvalidType(UBytes(b), "a borrowed string"))
    case _ => Err(InvalidType(Describe(w), "a borrowed string"))
  }

  /** `Option::<String>::deserialize`: null and unit are None, anything else is
      decoded as a String. */
  function DecodeOptionString(w: Wire): (r: Result<Option<string>>)
    ensures (w.Null? || w.Unit?) ==> r == Ok(None)
    ensures !w.Null? && !w.Unit? ==>
      r == match DecodeString(w) case Ok(s) => Ok(Some(s)) case Err(e) => Err(e)
  {
    match w
    case Null => Ok(None)
    case Unit => Ok(None)
    case _ =>
      match DecodeString(w)
      case Ok(s) => Ok(Some(s))
      case Err(e) => Err(e)
  }

  /** `Vec::<String>::deserialize` on a sequence's items: the first item that
      is not a string aborts the whole decode. */
  function DecodeStrings(items: seq<Wire>): (r: Result<seq<string>>)
    ensures r.Ok? <==> forall i :: 0 <= i < |items| ==> DecodeString(items[i]).Ok?
    ensures r.Ok? ==> |r.value| == |items|
    ensures r.Ok? ==> forall i :: 0 <= i < |items| ==> r.value[i] == DecodeString(items[i]).value
  {
    if items == [] then Ok([])
    else
      match DecodeString(items[0])
      case Err(e) => Err(e)
      case Ok(s) =>
        match DecodeStrings(items[1..])
        case Err(e) => Err(e)
        case Ok(rest) => Ok([s] + rest)
  }

  /** `Vec::<String>::deserialize`: anything but a sequence is a type mismatch. */
  function DecodeStringVec(w: Wire): (r: Result<seq<string>>)
    ensures !w.Seq? ==> r == Err(InvalidType(Describe(w), "a sequence"))
    ensures w.Seq? ==> r == DecodeStrings(w.items)
  {
    match w
    case Seq(items) => DecodeStrings(items)
    case _ => Err(InvalidType(Describe(w), "a sequence"))
  }
}
