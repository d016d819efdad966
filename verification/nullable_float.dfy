/** crates/serde-decimal/src/nullable_float.rs: `Option<Decimal>` for a key
    that must be present but may be null, written as a JSON number. */
module NullableFloat {

  import opened Wrappers
  import opened Serde
  import opened Decimal
  import opened Record

  /** The attributes the rule is used with: none. */
  const Attributes := Attrs(false, false)

  /** `deserialize`: `deserialize_option` with OptionDecimalVisitor. A null
      reaches `visit_none`, a unit `visit_unit`, and both are None; any other
      value reaches `visit_some` and is decoded as a decimal, whose error, if
      any, is passed on. */
  function Deserialize<D>(codec: Codec<D>, w: Wire): (r: Result<Option<D>>)
    ensures w.Null? || w.Unit? ==> r == Ok(None)
    ensures r.Ok? && r.value.Some? ==> codec.decode(w) == Ok(r.value.value)
    ensures !w.Null? && !w.Unit? ==> (r.Ok? <==> codec.decode(w).Ok?) && (r.Ok? ==> r.value.Some?)
    ensures r.Err? ==> r.error == codec.decode(w).error
  {
    match w
    case Null => Ok(None)
    case Unit => Ok(None)
    case _ =>
      match codec.decode(w)
      case Ok(d) => Ok(Some(d))
      case Err(e) => Err(e)
  }

  /** `serialize`: None is written as null, a decimal as its number form. */
  function Serialize<D>(codec: Codec<D>, v: Option<D>): (j: Json)
    ensures v.None? <==> j == JNull
    ensures v.Some? ==> j == JNumber(codec.number(v.value))
  {
    match v
    case None => JNull
    case Some(d) => JNumber(codec.number(d))
  }

  /** Both states of the field survive a write and a read, in the record and
      in the flattened record, given that the decimal's number form reads back
      as that decimal. */
  lemma RoundTrip<D>(codec: Codec<D>, v: Option<D>, flattened: bool)
    requires v.Some? ==> NumberReadsBack(codec, v.value)
    ensures DecodeFoo(EncodeFoo(v, Attributes, x => Serialize(codec, x)), Attributes, flattened, w => Deserialize(codec, w)) == Ok(v)
  {
  }

  /** Null is read as None, in the record and in the flattened record, whose
      buffer hands the visitor a unit instead. */
  lemma NullIsNone<D>(codec: Codec<D>, flattened: bool)
    ensures DecodeFoo(Some(JNull), Attributes, flattened, w => Deserialize(codec, w)) == Ok(None)
  {
  }

  /** The key is required: `{}` is a missing-field error. */
  lemma MissingKeyRejected<D>(codec: Codec<D>, flattened: bool)
    ensures DecodeFoo(None, Attributes, flattened, w => Deserialize(codec, w)) == Err(MissingField("foo"))
  {
  }

  /** None is written as an explicit null, never left out. */
  lemma NoneWrittenAsNull<D>(codec: Codec<D>)
    ensures EncodeFoo(None, Attributes, x => Serialize(codec, x)) == Some(JNull)
  {
  }
}
