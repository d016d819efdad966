/** src/lib.rs of serde-bool: `True` and `False`, unit types that decode from
    one boolean value only and encode as that value. */
module SerdeBool {

  import opened Serde
  import opened Primitives

  /** The type that only decodes from `true`. */
  datatype True = True {
    /** `True::as_bool`, and the `From<True> for bool` conversion. */
    function AsBool(): (b: bool)
      ensures b
    {
      true
    }
  }

  /** The type that only decodes from `false`. */
  datatype False = False {
    /** `False::as_bool`, and the `From<False> for bool` conversion. */
    function AsBool(): (b: bool)
      ensures !b
    {
      false
    }
  }

  /** `True::deserialize`: a boolean is required, and it must be `true`;
      `false` is an invalid value, anything else a type mismatch. */
  function DecodeTrue(w: Wire): (r: Result<True>)
    ensures r.Ok? <==> DecodeBool(w) == Ok(true)
    ensures w == Bool(false) ==> r == Err(InvalidValue(UBool(false), "the `true` boolean"))
    ensures !w.Bool? ==> r == Err(InvalidType(Describe(w), "a boolean"))
  {
    match DecodeBool(w)
    case Err(e) => Err(e)
    case Ok(b) =>
      if b then Ok(True) else Err(InvalidValue(UBool(false), "the `true` boolean"))
  }

  /** `False::deserialize`: the mirror image of DecodeTrue. */
  function DecodeFalse(w: Wire): (r: Result<False>)
    ensures r.Ok? <==> DecodeBool(w) == Ok(false)
    ensures w == Bool(true) ==> r == Err(InvalidValue(UBool(true), "the `false` boolean"))
    ensures !w.Bool? ==> r == Err(InvalidType(Describe(w), "a boolean"))
  {
    match DecodeBool(w)
    case Err(e) => Err(e)
    case Ok(b) =>
      if b then Err(InvalidValue(UBool(true), "the `false` boolean")) else Ok(False)
  }

  /** `True::serialize`: writes the boolean `true`. */
  function EncodeTrue(t: True): (j: Json)
    ensures DecodeBool(Read(j)) == Ok(t.AsBool())
  {
    JBool(true)
  }

  /** `False::serialize`: writes the boolean `false`. */
  function EncodeFalse(f: False): (j: Json)
    ensures DecodeBool(Read(j)) == Ok(f.AsBool())
  {
    JBool(false)
  }

  /** Writing a value and reading it back gives the value again. */
  lemma RoundTrip(t: True, f: False)
    ensures DecodeTrue(Read(EncodeTrue(t))) == Ok(t)
    ensures DecodeFalse(Read(EncodeFalse(f))) == Ok(f)
  {
  }

  /** Every boolean is accepted by exactly one of the two types, and the one
      that accepts it has that boolean as its `as_bool`. */
  lemma ExactlyOneAccepts(b: bool)
    ensures DecodeTrue(Bool(b)).Ok? != DecodeFalse(Bool(b)).Ok?
    ensures DecodeTrue(Bool(b)).Ok? ==> DecodeTrue(Bool(b)).value.AsBool() == b
    ensures DecodeFalse(Bool(b)).Ok? ==> DecodeFalse(Bool(b)).value.AsBool() == b
  {
  }

  /** Neither type accepts anything that is not a boolean. */
  lemma NonBooleansRejected(w: Wire)
    requires !w.Bool?
    ensures DecodeTrue(w).Err? && DecodeFalse(w).Err?
    ensures DecodeTrue(w).error == DecodeFalse(w).error == InvalidType(Describe(w), "a boolean")
  {
  }
}
