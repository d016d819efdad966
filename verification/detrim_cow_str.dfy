/** crates/detrim/src/cow_str.rs: `cow_str` trims a string into a `Cow<str>`,
    borrowing from the input whenever the decoder lent it the string, and
    copying otherwise. `CowStrVisitor` is stateless: each visit_* method is a
    function of the value it is handed. */
module DetrimCowStr {

  import opened Wrappers
  import opened Utf8
  import opened Whitespace
  import opened Slices
  import opened Serde
  import opened Primitives

  /** `Cow<str>`: a window on the input buffer, or an owned string. */
  datatype Cow = Borrowed(slice: Slice) | Owned(text: string)

  /** The text a Cow stands for. */
  function CowText(input: seq<byte>, c: Cow): Option<string> {
    match c
    case Borrowed(sl) => SliceText(input, sl)
    case Owned(t) => Some(t)
  }

  /** What CowStrVisitor answers when it is asked what it expects. */
  const Expecting := "a string"

  /** `visit_str`: a string in a transient buffer must be copied. */
  function VisitStr(t: string): (r: Result<Cow>)
    ensures r.Ok? && r.value.Owned?
    ensures TrimmedFrom(r.value.text, t)
  {
    TrimCharacterized(t, Trim(t));
    Ok(Owned(Trim(t)))
  }

  /** `visit_borrowed_str`: a string lent from the input is trimmed in place,
      as a narrower window on the same bytes. */
  function VisitBorrowedStr(input: seq<byte>, t: string, sl: Slice): (r: Result<Cow>)
    requires SliceText(input, sl) == Some(t)
    ensures r.Ok? && r.value.Borrowed?
    ensures Within(r.value.slice, sl)
    ensures CowText(input, r.value) == Some(Trim(t))
  {
    TrimSliceCorrect(input, t, sl);
    Ok(Borrowed(TrimSlice(t, sl)))
  }

  /** `visit_string`: an owned string handed over is trimmed into a new one. */
  function VisitString(t: string): (r: Result<Cow>)
    ensures r.Ok? && r.value.Owned?
    ensures TrimmedFrom(r.value.text, t)
  {
    VisitStr(t)
  }

  /** `visit_bytes`: transient bytes must be UTF-8; the trimmed text is copied.
      Invalid UTF-8 is an invalid value naming the bytes. */
  function VisitBytes(b: seq<byte>): (r: Result<Cow>)
    ensures r.Ok? <==> Decode(b).Some?
    ensures r.Ok? ==> r.value.Owned? && TrimmedFrom(r.value.text, Decode(b).value)
    ensures r.Err? ==> r.error == InvalidValue(UBytes(b), Expecting)
  {
    match Decode(b)
    case Some(t) => TrimCharacterized(t, Trim(t)); Ok(Owned(Trim(t)))
    case None => Err(InvalidValue(UBytes(b), Expecting))
  }

  /** `visit_borrowed_bytes`: bytes lent from the input must be UTF-8; the
      result borrows the trimmed part of them. */
  function VisitBorrowedBytes(input: seq<byte>, b: seq<byte>, sl: Slice): (r: Result<Cow>)
    requires sl.start <= sl.end <= |input| && input[sl.start..sl.end] == b
    ensures r.Ok? <==> Decode(b).Some?
    ensures r.Ok? ==> r.value.Borrowed? && Within(r.value.slice, sl)
    ensures r.Ok? ==> CowText(input, r.value) == Some(Trim(Decode(b).value))
    ensures r.Err? ==> r.error == InvalidValue(UBytes(b), Expecting)
  {
    match Decode(b)
    case Some(t) =>
      TrimSliceCorrect(input, t, sl);
      Ok(Borrowed(TrimSlice(t, sl)))
    case None => Err(InvalidValue(UBytes(b), Expecting))
  }

  /** `visit_byte_buf`: an owned byte buffer must be UTF-8; on failure the
      error carries the buffer's bytes, recovered from the conversion error. */
  function VisitByteBuf(b: seq<byte>): (r: Result<Cow>)
    ensures r.Ok? <==> Decode(b).Some?
    ensures r.Ok? ==> r.value.Owned? && TrimmedFrom(r.value.text, Decode(b).value)
    ensures r.Err? ==> r.error == InvalidValue(UBytes(b), Expecting)
  {
    match Decode(b)
    case Some(t) => VisitString(t)
    case None => Err(InvalidValue(UBytes(b), Expecting))
  }

  /** `cow_str`: `deserialize_str` with CowStrVisitor. The decoder picks the
      visit_* method from the way the value reached it; anything that is not a
      string or bytes is a type mismatch against "a string". */
  function CowStr(input: seq<byte>, w: Wire): (r: Result<Cow>)
    requires Consistent(input, w)
    ensures r.Ok? <==> TextOf(w).Some?
    ensures r.Ok? ==> CowText(input, r.value) == Some(Trim(TextOf(w).value))
    ensures r.Ok? ==> (r.value.Borrowed? <==> w.from.FromInput?)
    ensures r.Ok? && r.value.Borrowed? ==> Within(r.value.slice, w.from.slice)
    ensures w.Bytes? && r.Err? ==> r.error == InvalidValue(UBytes(w.bytes), Expecting)
    ensures !w.Text? && !w.Bytes? ==> r == Err(InvalidType(Describe(w), Expecting))
  {
    match w
    case Text(t, FromInput(sl)) => VisitBorrowedStr(input, t, sl)
    case Text(t, Transient) => VisitStr(t)
    case Text(t, Handed) => VisitString(t)
    case Bytes(b, FromInput(sl)) => VisitBorrowedBytes(input, b, sl)
    case Bytes(b, Transient) => VisitBytes(b)
    case Bytes(b, Handed) => VisitByteBuf(b)
    case _ => Err(InvalidType(Describe(w), Expecting))
  }

  /** `cow_str` and `string` decode the same text; `cow_str` only chooses how
      to hold it. */
  lemma CowStrAgreesWithString(input: seq<byte>, w: Wire)
    requires Consistent(input, w)
    ensures CowStr(input, w).Ok? <==> DecodeString(w).Ok?
    ensures CowStr(input, w).Ok? ==>
      CowText(input, CowStr(input, w).value) == Some(Trim(DecodeString(w).value))
  {
  }

  /** The zero-copy case of the unit tests: `" bar "` read straight from the
      input comes back borrowed, narrowed by one byte at each end. */
  lemma BorrowedExample(input: seq<byte>, sl: Slice)
    requires SliceText(input, sl) == Some(" bar ")
    ensures CowStr(input, Text(" bar ", FromInput(sl))) == Ok(Borrowed(Slice(sl.start + 1, sl.end - 1)))
  {
    SliceIsEncoding(input, sl, " bar ");
    assert " bar " == " " + "bar" + " ";
    TrimOfPadded(" ", "bar", " ");
    assert TrimmedPrefix(" bar ") == " ";
  }

  /** The copying case of the unit tests: ` b\ar `, unescaped by the reader
      into a transient buffer, comes back owned and trimmed. */
  lemma OwnedExample()
    ensures CowStr([], Text(" b\\ar ", Transient)) == Ok(Owned("b\\ar"))
  {
    assert " b\\ar " == " " + "b\\ar" + " ";
    TrimOfPadded(" ", "b\\ar", " ");
  }

  /** Numbers and booleans are rejected. */
  lemma NonStringsRejected(input: seq<byte>, w: Wire)
    requires w.Number? || w.Bool?
    ensures CowStr(input, w) == Err(InvalidType(Describe(w), Expecting))
  {
  }
}
