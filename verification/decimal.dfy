/** The decimal type of the serde-decimal rules, kept opaque: a type D with
    the foreign library's own decoder and its two written forms. */
module Decimal {

  import opened Serde

  /** `Decimal::deserialize`, the string form `Decimal::to_string` and the
      number form the float serializer writes. */
  datatype Codec<!D> = Codec(decode: Wire -> Result<D>, text: D -> string, number: D -> string)

  /** What the decimal visitors answer when asked what they expect. */
  const Expecting := "a Decimal type representing a fixed-point number"

  /** The string form of d reads back as d when the string arrives as a copy:
      in a transient buffer, as the copying reader `Read` hands it over, or as
      an owned string, as the buffer of a flattened record holds such a copy.
      A string lent from the input is not covered. */
  ghost predicate TextReadsBack<D>(codec: Codec<D>, d: D) {
    && codec.decode(Text(codec.text(d), Transient)) == Ok(d)
    && codec.decode(Text(codec.text(d), Handed)) == Ok(d)
  }

  /** The number form of d reads back as d. */
  ghost predicate NumberReadsBack<D>(codec: Codec<D>, d: D) {
    codec.decode(Number(codec.number(d))) == Ok(d)
  }
}
