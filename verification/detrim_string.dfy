/** crates/detrim/src/string.rs: `str`, `string` and `option_string` decode a
    field with serde's decoder and trim the result. */
module DetrimString {

  import opened Wrappers
  import opened Utf8
  import opened Whitespace
  import opened Slices
  import opened Serde
  import opened Primitives

  /** `detrim::str`: the borrowed string, trimmed without copying. The result
      is a window inside the borrowed one whose bytes read as the trimmed text;
      whatever serde's `&str` decoder rejects is rejected with the same error. */
  function Str(input: seq<byte>, w: Wire): (r: Result<Slice>)
    requires Consistent(input, w)
    ensures r.Ok? <==> DecodeStr(w).Ok?
    ensures r.Err? ==> r.error == DecodeStr(w).error
    ensures r.Ok? ==> Within(r.value, DecodeStr(w).value)
    ensures r.Ok? ==> TextOf(w).Some? && SliceText(input, r.value) == Some(Trim(TextOf(w).value))
    ensures r.Ok? ==> IsTrimmed(SliceText(input, r.value).value)
  {
    match DecodeStr(w)
    case Err(e) => Err(e)
    case Ok(sl) =>
      var t := TextOf(w).value;
      assert SliceText(input, sl) == Some(t) by {
        if w.Bytes? { assert input[sl.start..sl.end] == w.bytes; }
      }
      TrimSliceCorrect(input, t, sl);
      TrimSplits(t);
      Ok(TrimSlice(t, sl))
  }

  /** `detrim::string`: the decoded string, trimmed, as an owned value. */
  function String(w: Wire): (r: Result<string>)
    ensures r.Ok? <==> DecodeString(w).Ok?
    ensures r.Err? ==> r.error == DecodeString(w).error
    ensures r.Ok? ==> TrimmedFrom(r.value, DecodeString(w).value)
  {
    match DecodeString(w)
    case Err(e) => Err(e)
    case Ok(s) =>
      TrimCharacterized(s, Trim(s));
      Ok(Trim(s))
  }

  /** `detrim::option_string`: null stays None, a string becomes its trimmed
      text; a blank string is kept as Some("") rather than becoming None. */
  function OptionString(w: Wire): (r: Result<Option<string>>)
    ensures (w.Null? || w.Unit?) ==> r == Ok(None)
    ensures r.Ok? && r.value.Some? ==> String(w) == Ok(r.value.value)
    ensures !w.Null? && !w.Unit? ==> (r.Ok? <==> String(w).Ok?)
    ensures !w.Null? && !w.Unit? && r.Ok? ==> r.value.Some?
    ensures r.Err? ==> r.error == DecodeString(w).error
  {
    match DecodeOptionString(w)
    case Err(e) => Err(e)
    case Ok(None) => Ok(None)
    case Ok(Some(s)) => Ok(Some(Trim(s)))
  }

  /** `str` and `string` agree: wherever the borrowing form succeeds, the owned
      form succeeds with the very text the borrowed window holds. */
  lemma StrAgreesWithString(input: seq<byte>, w: Wire)
    requires Consistent(input, w)
    requires Str(input, w).Ok?
    ensures String(w).Ok? && SliceText(input, Str(input, w).value) == Some(String(w).value)
  {
  }

  /** Decoding is idempotent: a decoded value, handed back as a string in any
      buffer, decodes to itself. */
  lemma StringIdempotent(w: Wire, from: Provenance)
    requires String(w).Ok?
    ensures String(Text(String(w).value, from)) == String(w)
  {
    TrimIdempotent(DecodeString(w).value);
  }

  /** Numbers and booleans are type mismatches for both `str` and `string`. */
  lemma NonStringsMismatch(input: seq<byte>, w: Wire)
    requires w.Number? || w.Bool?
    ensures Str(input, w) == Err(InvalidType(Describe(w), "a borrowed string"))
    ensures String(w) == Err(InvalidType(Describe(w), "a string"))
  {
  }

  /** Blank input decodes to the empty string instead of failing. */
  lemma BlankIsEmpty(s: string, from: Provenance)
    requires AllWhitespace(s)
    ensures String(Text(s, from)) == Ok([])
    ensures OptionString(Text(s, from)) == Ok(Some([]))
  {
    AllWhitespaceTrimsToEmpty(s);
  }

  /** Padding around a trimmed core, on either side or both, is dropped by
      every string rule of string.rs. */
  lemma PaddingDropped(p: string, t: string, q: string, from: Provenance)
    requires AllWhitespace(p) && AllWhitespace(q) && IsTrimmed(t)
    ensures String(Text(p + t + q, from)) == Ok(t)
    ensures OptionString(Text(p + t + q, from)) == Ok(Some(t))
  {
    TrimOfPadded(p, t, q);
  }

  /** The unit tests' both-side case: "  bar  " decodes to "bar". */
  lemma PaddingExample(from: Provenance)
    ensures String(Text("  bar  ", from)) == Ok("bar")
  {
    assert "  bar  " == "  " + "bar" + "  ";
    PaddingDropped("  ", "bar", "  ", from);
  }
}
