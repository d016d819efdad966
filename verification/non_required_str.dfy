/** crates/serde-decimal/src/non_required_str.rs: `Option<Decimal>` for a key
    that may be absent but may not be null, written as a JSON string. */
module NonRequiredStr {

  import opened Wrappers
  import opened Serde
  import opened Decimal
  import opened Record

  /** The attributes the rule is used with: `default` and
      `skip_serializing_if = "Option::is_none"`. */
  const Attributes := Attrs(true, true)

  /** `deserialize`: `deserialize_option` with an OptionDecimalVisitor that
      only defines `visit_some`. A null reaches serde's default `visit_none`
      and a unit its default `visit_unit`, which both report a type mismatch
      naming what arrived; any other value is decoded as a decimal. */
  function Deserialize<D>(codec: Codec<D>, w: Wire): (r: Result<Option<D>>)
    ensures w.Null? ==> r == Err(InvalidType(UOption, Expecting))
    ensures w.Unit? ==> r == Err(InvalidType(UUnit, Expecting))
    ensures r.Ok? ==> r.value.Some? && codec.decode(w) == Ok(r.value.value)
    ensures !w.Null? && !w.Unit? ==> (r.Ok? <==> codec.decode(w).Ok?)
    ensures !w.Null? && !w.Unit? && r.Err? ==> r.error == codec.decode(w).error
  {
    match w
    case Null => Err(InvalidType(UOption, Expecting))
    case Unit => Err(InvalidType(UUnit, Expecting))
    case _ =>
      match codec.decode(w)
      case Ok(d) => Ok(Some(d))
      case Err(e) => Err(e)
  }

  /** `serialize`: a decimal is written as its string form, None as null
      (which the record's skip attribute keeps from being written at all). */
  function Serialize<D>(codec: Codec<D>, v: Option<D>): (j: Json)
    ensures v.None? <==> j == JNull
    ensures v.Some? ==> j == JStr(codec.text(v.value))
  {
    match v
    case None => JNull
    case Some(d) => JStr(codec.text(d))
  }

  /** Both states of the field survive a write and a read, in the record and
      in the flattened record: None by leaving the key out and reading the
      default, a decimal through its string form. */
  lemma RoundTrip<D>(codec: Codec<D>, v: Option<D>, flattened: bool)
    requires v.Some? ==> TextReadsBack(codec, v.value)
    ensures DecodeFoo(EncodeFoo(v, Attributes, x => Serialize(codec, x)), Attributes, flattened, w => Deserialize(codec, w)) == Ok(v)
  {
  }

  /** None is written by leaving the key out: `{}`. */
  lemma NoneLeftOut<D>(codec: Codec<D>)
    ensures EncodeFoo(None, Attributes, x => Serialize(codec, x)) == None
  {
  }

  /** Null is refused, in the record and in the flattened record; the two
      report it differently because the buffer turns null into a unit. */
  lemma NullRejected<D>(codec: Codec<D>, flattened: bool)
    ensures DecodeFoo(Some(JNull), Attributes, flattened, w => Deserialize(codec, w)) ==
      Err(InvalidType(if flattened then UUnit else UOption, Expecting))
  {
  }

  /** An absent key is None. */
  lemma MissingKeyIsNone<D>(codec: Codec<D>, flattened: bool)
    ensures DecodeFoo(None, Attributes, flattened, w => Deserialize(codec, w)) == Ok(None)
  {
  }
}
