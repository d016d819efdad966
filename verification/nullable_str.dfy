/** `nullable_str`, the rule `double_option_str` delegates to: `Option<Decimal>`
    for a key that may be null, written as a JSON string. Its source,
    crates/serde-decimal/src/nullable_str.rs, is not part of this model; it is
    taken to read like `nullable_float` (null and unit are None, any other
    value a decimal) and to write with the same string-form serializer as
    `non_required_str` (None as null, a decimal as its string form). */
module NullableStr {

  import opened Wrappers
  import opened Serde
  import opened Decimal
  import NullableFloat
  import NonRequiredStr
  import Record

  /** `nullable_str::deserialize`. */
  function Deserialize<D>(codec: Codec<D>, w: Wire): (r: Result<Option<D>>)
    ensures w.Null? || w.Unit? ==> r == Ok(None)
    ensures r.Ok? && r.value.Some? ==> codec.decode(w) == Ok(r.value.value)
    ensures !w.Null? && !w.Unit? ==> (r.Ok? <==> codec.decode(w).Ok?) && (r.Ok? ==> r.value.Some?)
    ensures r.Err? ==> r.error == codec.decode(w).error
  {
    NullableFloat.Deserialize(codec, w)
  }

  /** `nullable_str::serialize`. */
  function Serialize<D>(codec: Codec<D>, v: Option<D>): (j: Json)
    ensures v.None? <==> j == JNull
    ensures v.Some? ==> j == JStr(codec.text(v.value))
  {
    NonRequiredStr.Serialize(codec, v)
  }

  /** What it writes, it reads back, whether directly or through the buffer
      of a flattened record. */
  lemma RoundTrip<D>(codec: Codec<D>, v: Option<D>, buffered: bool)
    requires v.Some? ==> TextReadsBack(codec, v.value)
    ensures Deserialize(codec, if buffered then Record.Buffer(Read(Serialize(codec, v))) else Read(Serialize(codec, v))) == Ok(v)
  {
  }
}
