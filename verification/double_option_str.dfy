/** crates/serde-decimal/src/double_option_str.rs: `Option<Option<Decimal>>`
    for a key that may be absent (outer None), null (Some(None)) or a decimal
    written as a JSON string (Some(Some(d))). The three states are only told
    apart together with the record attributes the rule is used with. */
module DoubleOptionStr {

  import opened Wrappers
  import opened Serde
  import opened Decimal
  import opened Record
  import NullableStr

  /** The attributes the rule is used with: `default` and
      `skip_serializing_if = "Option::is_none"`. */
  const Attributes := Attrs(true, true)

  /** `deserialize`: the `nullable_str` result, wrapped in Some. A present key
      therefore never yields the outer None; errors pass through unchanged. */
  function Deserialize<D>(codec: Codec<D>, w: Wire): (r: Result<Option<Option<D>>>)
    ensures r.Ok? <==> NullableStr.Deserialize(codec, w).Ok?
    ensures r.Ok? ==> r.value == Some(NullableStr.Deserialize(codec, w).value)
    ensures r.Err? ==> r.error == NullableStr.Deserialize(codec, w).error
  {
    match NullableStr.Deserialize(codec, w)
    case Ok(v) => Ok(Some(v))
    case Err(e) => Err(e)
  }

  /** `serialize`: the outer None is written as a unit, which JSON writes as
      null; Some(v) is written by `nullable_str`. */
  function Serialize<D>(codec: Codec<D>, v: Option<Option<D>>): (j: Json)
    ensures v.None? ==> j == JNull
    ensures v.Some? ==> j == NullableStr.Serialize(codec, v.value)
  {
    match v
    case None => JNull
    case Some(inner) => NullableStr.Serialize(codec, inner)
  }

  /** With `default` and the skip attribute, each of the three states survives
      a write and a read, in the record and in the flattened record. */
  lemma RoundTrip<D>(codec: Codec<D>, v: Option<Option<D>>, flattened: bool)
    requires v.Some? && v.value.Some? ==> TextReadsBack(codec, v.value.value)
    ensures DecodeFoo(EncodeFoo(v, Attributes, x => Serialize(codec, x)), Attributes, flattened, w => Deserialize(codec, w)) == Ok(v)
  {
    if v.Some? {
      NullableStr.RoundTrip(codec, v.value, flattened);
    }
  }

  /** The three states are written as three different objects: `{}`,
      `{"foo":null}` and `{"foo":"<decimal>"}`. */
  lemma ThreeShapes<D>(codec: Codec<D>, d: D)
    ensures EncodeFoo(None, Attributes, x => Serialize(codec, x)) == None
    ensures EncodeFoo(Some(None), Attributes, x => Serialize(codec, x)) == Some(JNull)
    ensures EncodeFoo(Some(Some(d)), Attributes, x => Serialize(codec, x)) == Some(JStr(codec.text(d)))
  {
  }

  /** Reading: `{}` is None, `{"foo":null}` is Some(None), and a string the
      decimal decoder accepts is Some(Some(_)). */
  lemma ThreeReadings<D>(codec: Codec<D>, s: string, flattened: bool)
    requires codec.decode(Text(s, if flattened then Handed else Transient)).Ok?
    ensures DecodeFoo(None, Attributes, flattened, w => Deserialize(codec, w)) == Ok(None)
    ensures DecodeFoo(Some(JNull), Attributes, flattened, w => Deserialize(codec, w)) == Ok(Some(None))
    ensures var r := DecodeFoo(Some(JStr(s)), Attributes, flattened, w => Deserialize(codec, w));
      r.Ok? && r.value.Some? && r.value.value.Some?
  {
  }

  /** Without the skip attribute, None and Some(None) would both be written as
      null, and read back as Some(None): the attribute is what keeps "absent"
      apart from "null". */
  lemma SkipNeeded<D>(codec: Codec<D>, flattened: bool)
    ensures EncodeFoo(None, Attrs(true, false), x => Serialize(codec, x)) ==
            EncodeFoo(Some(None), Attrs(true, false), x => Serialize(codec, x)) == Some(JNull)
    ensures DecodeFoo(Some(JNull), Attrs(true, false), flattened, w => Deserialize(codec, w)) == Ok(Some(None))
  {
  }

  /** Without `default`, an absent key is a missing-field error rather than
      the outer None. */
  lemma DefaultNeeded<D>(codec: Codec<D>, flattened: bool)
    ensures DecodeFoo(None, Attrs(false, true), flattened, w => Deserialize(codec, w)) == Err(MissingField("foo"))
  {
  }
}
