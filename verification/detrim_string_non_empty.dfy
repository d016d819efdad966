/** crates/detrim/src/string_non_empty.rs: trimming rules that refuse, or
    drop, a value that is nothing but whitespace. */
module DetrimStringNonEmpty {

  import opened Wrappers
  import opened Whitespace
  import opened Serde
  import opened Primitives

  /** The error for a string that trims to nothing. */
  const EmptyString := InvalidValue(UOther("empty string"), "non-empty string")

  /** `string_non_empty`: the trimmed string, or an error when it is empty.
      Errors of the underlying String decoder, null included, pass through. */
  function StringNonEmpty(w: Wire): (r: Result<string>)
    ensures r.Ok? ==> DecodeString(w).Ok? && r.value != [] && TrimmedFrom(r.value, DecodeString(w).value)
    ensures r == Err(EmptyString) <==> DecodeString(w).Ok? && AllWhitespace(DecodeString(w).value)
    ensures r.Ok? <==> DecodeString(w).Ok? && !AllWhitespace(DecodeString(w).value)
    ensures DecodeString(w).Err? ==> r == Err(DecodeString(w).error)
  {
    match DecodeString(w)
    case Err(e) => Err(e)
    case Ok(s) =>
      TrimCharacterized(s, Trim(s));
      AllWhitespaceTrimsToEmpty(s);
      if Trim(s) == [] then Err(EmptyString) else Ok(Trim(s))
  }

  /** `option_string_non_empty`: null and blank strings are both None; any
      other string is Some of its non-empty trimmed text. */
  function OptionStringNonEmpty(w: Wire): (r: Result<Option<string>>)
    ensures (w.Null? || w.Unit?) ==> r == Ok(None)
    ensures r.Ok? && r.value.Some? ==>
      DecodeString(w).Ok? && r.value.value != [] && TrimmedFrom(r.value.value, DecodeString(w).value)
    ensures !w.Null? && !w.Unit? ==>
      (r == Ok(None) <==> DecodeString(w).Ok? && AllWhitespace(DecodeString(w).value))
    ensures r.Err? <==> DecodeOptionString(w).Err?
    ensures r.Err? ==> r.error == DecodeString(w).error
  {
    match DecodeOptionString(w)
    case Err(e) => Err(e)
    case Ok(None) => Ok(None)
    case Ok(Some(s)) =>
      TrimCharacterized(s, Trim(s));
      AllWhitespaceTrimsToEmpty(s);
      if Trim(s) == [] then Ok(None) else Ok(Some(Trim(s)))
  }

  /** The two rules agree: the optional form is None exactly where the
      required one reports an empty string or the value is null, and otherwise
      carries the same text or the same error. */
  lemma OptionalAgreesWithRequired(w: Wire)
    requires !w.Null? && !w.Unit?
    ensures OptionStringNonEmpty(w) == match StringNonEmpty(w)
      case Ok(s) => Ok(Some(s))
      case Err(e) => if e == EmptyString then Ok(None) else Err(e)
  {
    if DecodeString(w).Err? {
      assert DecodeString(w).error != EmptyString;
    }
  }

  /** Null, which `string_non_empty` refuses, is the one value the optional
      form accepts without a string behind it. */
  lemma NullRefusedByRequired()
    ensures StringNonEmpty(Null) == Err(InvalidType(UUnit, "a string"))
    ensures OptionStringNonEmpty(Null) == Ok(None)
  {
  }

  /** The unit tests' padded case: "  bar  " decodes to "bar" under both rules. */
  lemma PaddingExample(from: Provenance)
    ensures StringNonEmpty(Text("  bar  ", from)) == Ok("bar")
    ensures OptionStringNonEmpty(Text("  bar  ", from)) == Ok(Some("bar"))
  {
    assert "  bar  " == "  " + "bar" + "  ";
    TrimOfPadded("  ", "bar", "  ");
  }
}
