# serde-bool, detrim and serde-decimal field rules in Dafny

This project models three families of field-level serde rules from the
serde-bool repository and proves their properties:

- **detrim: whitespace-trimming decoders.**
  - `str` and `string` trim a decoded string, and `option_string` trims an optional one.
  - `cow_str` returns `Cow::Borrowed` or `Cow::Owned` depending on how the decoder handed it the value.
  - `string_non_empty` and `option_string_non_empty` refuse a blank value, or turn it into None.
  - `vec_string` and `hashset_string` trim every element of a list in place.
- **serde-bool:** the `True` and `False` unit types. Each decodes from exactly one boolean and encodes as that boolean.
- **serde-decimal:** `nullable_float`, `non_required_str` and `double_option_str`. Together with the record attributes `default` and `skip_serializing_if`, they keep "absent", "null" and "a value" apart.

How the model is built:

- **Input buffer.** The input is a byte buffer. A string the decoder lends from the input is a byte range (`Slice`) whose UTF-8 decoding is the text. So "the trimmed `&str` borrows from the input" is proved as "the result is a sub-range of the original range, and its bytes decode to the trimmed text".
- **UTF-8.** The encoding follows section 3 of RFC 3629, written with value ranges: no overlong forms, no surrogates, nothing above U+10FFFF. Its decoder and encoder are proved inverse.
- **Trimming.** `str::trim` removes characters with the Unicode White_Space property (the 25 code points of `char::is_whitespace`) from both ends.
- **Wire values.** What the wire-format decoder hands a rule is a `Wire` value. Its `Provenance` says which visitor method receives it:
  - a window on the input goes to `visit_borrowed_*`;
  - a transient buffer goes to `visit_str` or `visit_bytes`;
  - an owned value goes to `visit_string` or `visit_byte_buf`.
- **Serde's own decoders.** `bool`, `String`, `&str`, `Option<String>` and `Vec<String>` are serde's, not this repository's. They are written out in `Primitives`, because every rule passes on their results and errors.
- **Errors.** An error is serde's `invalid_type` or `invalid_value` with its `Unexpected` payload and expected text, or `missing_field`.
- **Writing.** A serializer writes JSON values (`Json`). `serialize_none` and `serialize_unit` both write null. `Read` is what a copying JSON reader, such as `serde_json::from_reader`, hands back for a written value: a string arrives in a transient buffer. `serde_json::from_str` would instead lend an unescaped string straight from the input, and serde's flatten buffer would keep it lent. rust_decimal's visitor parses a lent string and a copied one alike, so the decimal round trips do not depend on which reader is used.
- **Decimal.** The decimal type is an opaque type `D`, given with its decoder and its string and number forms (`Decimal.Codec`). Round trips hold for a value whose written form the decoder reads back; `TextReadsBack` and `NumberReadsBack` state this.
- **Records.** `Record` models the derived code of the one-field records `Foo { foo }` and `Bar { #[serde(flatten)] foo: Foo }`:
  - an absent key gives the default, or a missing-field error;
  - `skip_serializing_if` leaves the key out;
  - a flattened record reads the field from serde's buffer, which keeps the reader's null as a unit.

Where a rule changes state, the model does so too. The trimming loop of `vec_string` and `hashset_string` is a method over an array (`DetrimVecString.TrimInPlace`), proved against the function `TrimEach`. The method that decodes the list and runs the loop is proved to return that function's result (`TrimmedVec`, `TrimmedHashset`). Everything else in the core is a pure function of the wire value and is modelled as one.

## Model

| member | source | states |
|---|---|---|
| Utf8.DecodeEncode | crates/detrim/src/cow_str.rs:34-39 | the UTF-8 bytes of any text decode back to exactly that text |
| Utf8.DecodeIsEncoding | crates/detrim/src/cow_str.rs:41-46 | bytes that decode to a text are exactly that text's encoding, so a valid byte buffer and its text determine each other |
| Utf8.EncodeAppend | crates/detrim/src/cow_str.rs:43 | the encoding of a concatenation is the concatenation of the encodings, which is what makes a trimmed text a byte sub-range |
| Utf8.Decode | crates/detrim/src/cow_str.rs:35 | valid UTF-8 decodes to at most one character per byte and at least one per four bytes; `DecodeEncode` and `DecodeIsEncoding` make it the exact inverse of the encoding, as `str::from_utf8` is |
| Whitespace.WhitespaceExamples | crates/detrim/src/string.rs:7 | the characters trim removes: tab, newline, carriage return, space, no-break space and ideographic space are whitespace; zero-width space, the byte-order mark and a letter are not |
| Whitespace.Trim | crates/detrim/src/string.rs:7 | the trimmed text neither starts nor ends with whitespace and is no longer than the string; `TrimSplits` and `TrimCharacterized` make it the unique padding-free core |
| Whitespace.LeadingWs | crates/detrim/src/string.rs:7 | the count of leading characters trim removes: all of them whitespace, and the next one not |
| Whitespace.TrailingWs | crates/detrim/src/string.rs:7 | the count of trailing characters trim removes: all of them whitespace, and the one before them not |
| Whitespace.TrimSplits | crates/detrim/src/string.rs:7 | a string is its removed leading whitespace, its trimmed text and its removed trailing whitespace; the trimmed text neither starts nor ends with whitespace |
| Whitespace.TrimCharacterized | crates/detrim/src/string.rs:7 | trim is the unique padding-free core: t is s with whitespace padding removed and no whitespace at either end, if and only if t is trim(s) |
| Whitespace.TrimFixpoint | crates/detrim/src/string.rs:7 | trim leaves a string unchanged exactly when it neither starts nor ends with whitespace |
| Whitespace.TrimIdempotent | crates/detrim/src/string.rs:7 | trimming twice is trimming once |
| Whitespace.TrimOfPadded | crates/detrim/src/string.rs:99-118 | left, right or both-side whitespace padding around a trimmed core all trim to that core |
| Whitespace.AllWhitespaceTrimsToEmpty | crates/detrim/src/string.rs:91-98 | a string trims to the empty string exactly when it is all whitespace |
| Slices.TrimSliceCorrect | crates/detrim/src/string.rs:6-8 | trimming a borrowed string gives a sub-range of its byte range whose bytes decode to the trimmed text; nothing is copied |
| Serde.Describe | crates/detrim/src/cow_str.rs:59 | a type mismatch names null and unit both as a unit, and every other value by its own kind: string, bytes, boolean, number or sequence; never as an option or "other" |
| Serde.Read | crates/serde-decimal/src/double_option_str.rs:63-79 | a reader hands back null exactly for a written null, and a written string as that text in a transient buffer |
| Serde.ReadInjective | crates/serde-decimal/src/double_option_str.rs:63-79 | distinct written values read back as distinct wire values: reading loses nothing the writer put down |
| Primitives.DecodeBool | src/lib.rs:27 | a boolean decodes to itself; anything else is a type mismatch against "a boolean" |
| Primitives.DecodeString | crates/detrim/src/string.rs:12 | a string, or bytes that are valid UTF-8, decode to their text; invalid bytes are an invalid value carrying them; anything else is a type mismatch against "a string" |
| Primitives.DecodeStr | crates/detrim/src/string.rs:7 | only a string or valid UTF-8 bytes lent from the input decode, to their own byte range |
| Primitives.DecodeOptionString | crates/detrim/src/string.rs:17 | null and unit are None; anything else decodes as a String, wrapped in Some, with its error passed on |
| Primitives.DecodeStrings | crates/detrim/src/vec_string.rs:7 | a list decodes when every item is a string, to the items' texts in order and with the same count; otherwise it fails with no partial result |
| Primitives.DecodeStringVec | crates/detrim/src/vec_string.rs:7 | a non-sequence is a type mismatch against "a sequence" |
| DetrimString.Str | crates/detrim/src/string.rs:6-8 | succeeds exactly where `&str` decoding does, with its error otherwise; the result is a window inside the borrowed one whose bytes read as the trimmed text, which has no whitespace at either end |
| DetrimString.String | crates/detrim/src/string.rs:11-13 | succeeds exactly where String decoding does, with its error otherwise; the result is the decoded text with its whitespace padding removed |
| DetrimString.OptionString | crates/detrim/src/string.rs:16-19 | null is None; any other value is Some of what `string` yields, and fails exactly when `string` fails, with the same error |
| DetrimString.StrAgreesWithString | crates/detrim/src/string.rs:6-13 | where `str` succeeds, `string` succeeds with the text of the window `str` returns |
| DetrimString.StringIdempotent | crates/detrim/src/string.rs:11-13 | decoding a decoded value again gives it back unchanged |
| DetrimString.NonStringsMismatch | crates/detrim/src/string.rs:41-42 | numbers and booleans are type mismatches for `str` and for `string` |
| DetrimString.BlankIsEmpty | crates/detrim/src/string.rs:145-152 | a blank string decodes to "" for `string` and to Some("") for `option_string`, never to an error or None |
| DetrimString.PaddingDropped | crates/detrim/src/string.rs:99-118 | whitespace padding on either side or both is dropped by `string` and `option_string` |
| DetrimString.PaddingExample | crates/detrim/src/string.rs:115-118 | "  bar  " decodes to "bar" |
| DetrimCowStr.VisitStr | crates/detrim/src/cow_str.rs:22-24 | a transient string gives Owned of its trimmed text |
| DetrimCowStr.VisitBorrowedStr | crates/detrim/src/cow_str.rs:26-28 | a string lent from the input gives Borrowed of a sub-range of its bytes that reads as the trimmed text |
| DetrimCowStr.VisitString | crates/detrim/src/cow_str.rs:30-32 | an owned string gives Owned of its trimmed text |
| DetrimCowStr.VisitBytes | crates/detrim/src/cow_str.rs:34-39 | transient bytes give Owned of the trimmed text exactly when they are valid UTF-8, and otherwise an invalid value carrying the bytes, against "a string" |
| DetrimCowStr.VisitBorrowedBytes | crates/detrim/src/cow_str.rs:41-46 | bytes lent from the input give Borrowed of a sub-range holding the trimmed text exactly when they are valid UTF-8, and otherwise an invalid value carrying the bytes |
| DetrimCowStr.VisitByteBuf | crates/detrim/src/cow_str.rs:48-56 | an owned byte buffer gives Owned of the trimmed text exactly when it is valid UTF-8, and otherwise an invalid value carrying the buffer's bytes |
| DetrimCowStr.CowStr | crates/detrim/src/cow_str.rs:12-60 | succeeds exactly on strings and valid UTF-8 bytes; whichever variant it returns holds the trimmed text; it is Borrowed exactly when the value was lent from the input, inside the lent range; anything else is a type mismatch against "a string" |
| DetrimCowStr.CowStrAgreesWithString | crates/detrim/src/cow_str.rs:85-112 | `cow_str` succeeds exactly where `string` does and holds the same text |
| DetrimCowStr.BorrowedExample | crates/detrim/src/cow_str.rs:129-133 | " bar " lent from the input comes back Borrowed, one byte narrower at each end |
| DetrimCowStr.OwnedExample | crates/detrim/src/cow_str.rs:135-139 | a string that needed unescaping comes back Owned and trimmed |
| DetrimCowStr.NonStringsRejected | crates/detrim/src/cow_str.rs:82-83 | numbers and booleans are type mismatches |
| DetrimStringNonEmpty.StringNonEmpty | crates/detrim/src/string_non_empty.rs:6-15 | succeeds exactly when String decoding succeeds with a text that is not all whitespace, giving that text without its padding, which is non-empty; fails with invalid value "empty string", expecting "non-empty string", exactly when the decoded text is all whitespace; errors of String decoding, null included, pass through |
| DetrimStringNonEmpty.OptionStringNonEmpty | crates/detrim/src/string_non_empty.rs:18-24 | null is None; a non-null value is None exactly when it is a blank string; Some carries the non-empty text without its padding; it fails exactly when Option decoding does |
| DetrimStringNonEmpty.OptionalAgreesWithRequired | crates/detrim/src/string_non_empty.rs:7-23 | on a non-null value the optional form is Some(t) where the required one is Ok(t), None where it reports an empty string, and the same error otherwise |
| DetrimStringNonEmpty.NullRefusedByRequired | crates/detrim/src/string_non_empty.rs:48 | null is an error for `string_non_empty` and None for `option_string_non_empty` |
| DetrimStringNonEmpty.PaddingExample | crates/detrim/src/string_non_empty.rs:62-65 | "  bar  " decodes to "bar" under both rules |
| DetrimVecString.TrimInPlace | crates/detrim/src/vec_string.rs:9-14 | after the loop the array holds each of its former items trimmed, in place and in order |
| DetrimVecString.VecString | crates/detrim/src/vec_string.rs:6-16 | returns what `TrimmedVec` specifies: the decode error, or the decoded list trimmed item by item |
| DetrimVecString.TrimEachCharacterized | crates/detrim/src/vec_string.rs:9-14 | the trimmed list has the same length, and item i is item i of the input without its padding |
| DetrimVecString.TrimmedVecCharacterized | crates/detrim/src/vec_string.rs:6-16 | `vec_string` succeeds exactly where `Vec<String>` decoding does, with its error otherwise, and keeps count and order |
| DetrimVecString.TrimEachAppend | crates/detrim/src/vec_string.rs:9-14 | items are trimmed independently: trimming a concatenation concatenates the trimmed parts |
| DetrimVecString.TrimEachOfTrimmed | crates/detrim/src/vec_string.rs:12 | a list is left unchanged exactly when all its items are trimmed already; trimming twice is trimming once |
| DetrimVecString.NonSequenceRejected | crates/detrim/src/vec_string.rs:41-42 | a number or a bare string is a type mismatch against "a sequence" |
| DetrimVecString.ListExamples | crates/detrim/src/vec_string.rs:44-75 | `[]` gives `[]`, and a one-item list of a padded string gives the list of its core |
| DetrimHashsetString.HashsetString | crates/detrim/src/hashset_string.rs:11-22 | returns what `TrimmedHashset` specifies: the decode error, or the set of the trimmed items |
| DetrimHashsetString.TrimmedSetMembers | crates/detrim/src/hashset_string.rs:14-21 | a string is a member exactly when it is some item without its padding; every member is trimmed |
| DetrimHashsetString.HashsetIsSetOfVec | crates/detrim/src/hashset_string.rs:12-21 | the set holds exactly the items of the trimmed list, and fails exactly when the list does |
| DetrimHashsetString.TrimmedSetSize | crates/detrim/src/hashset_string.rs:21 | the set has at most as many members as the list has items |
| DetrimHashsetString.PaddingVariantsCollapse | crates/detrim/src/hashset_string.rs:85-88 | two items differing only in padding collapse into one member: deduplication happens after trimming |
| DetrimHashsetString.NonSequenceRejected | crates/detrim/src/hashset_string.rs:46-47 | a non-sequence is a type mismatch against "a sequence" |
| SerdeBool.True.AsBool | src/lib.rs:14-23 | `True` converts to true |
| SerdeBool.False.AsBool | src/lib.rs:50-59 | `False` converts to false |
| SerdeBool.DecodeTrue | src/lib.rs:25-36 | succeeds exactly on the boolean true; false is an invalid value naming false, expecting "the `true` boolean"; a non-boolean gets the boolean decoder's type mismatch |
| SerdeBool.DecodeFalse | src/lib.rs:61-72 | succeeds exactly on false; true is an invalid value naming true, expecting "the `false` boolean"; a non-boolean gets the boolean decoder's type mismatch |
| SerdeBool.EncodeTrue | src/lib.rs:38-42 | writes a boolean that reads back as `True.as_bool()` |
| SerdeBool.EncodeFalse | src/lib.rs:74-78 | writes a boolean that reads back as `False.as_bool()` |
| SerdeBool.RoundTrip | src/lib.rs:25-78 | decoding what `True` and `False` write gives them back |
| SerdeBool.ExactlyOneAccepts | src/lib.rs:27-34 | every boolean is accepted by exactly one of the two types, the one whose `as_bool` it is |
| SerdeBool.NonBooleansRejected | src/lib.rs:63 | neither type accepts a non-boolean, and both report the boolean decoder's error |
| Record.Buffer | crates/serde-decimal/src/nullable_float.rs:68-72 | the buffer of a flattened record turns null into unit and keeps every other value's kind |
| Record.DecodeFoo | crates/serde-decimal/src/double_option_str.rs:28-40 | an absent key is None with `default` and a missing-field error without it; a present key is decoded by the field's rule, through the buffer when flattened |
| Record.EncodeFoo | crates/serde-decimal/src/double_option_str.rs:28-34 | the key is left out exactly when the skip attribute is set and the value is None |
| NullableFloat.Deserialize | crates/serde-decimal/src/nullable_float.rs:9-46 | null and unit are None; any other value is Some of the decimal it decodes to, and fails exactly when decimal decoding fails, with its error |
| NullableFloat.Serialize | crates/serde-decimal/src/nullable_float.rs:51-56 | None is written as null, a decimal as its number form |
| NullableFloat.RoundTrip | crates/serde-decimal/src/nullable_float.rs:74-105 | None and Some(d) survive a write and a read, plain and flattened |
| NullableFloat.NullIsNone | crates/serde-decimal/src/nullable_float.rs:101-105 | null reads as None, plain and flattened |
| NullableFloat.MissingKeyRejected | crates/serde-decimal/src/nullable_float.rs:95-99 | `{}` is a missing-field error, plain and flattened |
| NullableFloat.NoneWrittenAsNull | crates/serde-decimal/src/nullable_float.rs:83-87 | None is written as `{"foo":null}` |
| NonRequiredStr.Deserialize | crates/serde-decimal/src/non_required_str.rs:7-32 | null is a type mismatch naming an option, unit one naming a unit, both against the decimal visitor's expectation; any other value is Some of its decimal, or the decimal decoder's error |
| NonRequiredStr.Serialize | crates/serde-decimal/src/non_required_str.rs:37-42 | a decimal is written as its string form, None as null |
| NonRequiredStr.RoundTrip | crates/serde-decimal/src/non_required_str.rs:62-141 | None and Some(d) survive a write and a read, plain and flattened |
| NonRequiredStr.NoneLeftOut | crates/serde-decimal/src/non_required_str.rs:71-75 | None is written as `{}` |
| NonRequiredStr.NullRejected | crates/serde-decimal/src/non_required_str.rs:89-93 | null is refused, plain and flattened |
| NonRequiredStr.MissingKeyIsNone | crates/serde-decimal/src/non_required_str.rs:83-87 | `{}` reads as None, plain and flattened |
| NullableStr.Deserialize | crates/serde-decimal/src/double_option_str.rs:11 | null and unit are None; a string the decimal decoder accepts is Some of its decimal; decoder errors pass on |
| NullableStr.Serialize | crates/serde-decimal/src/double_option_str.rs:20 | None is written as null, a decimal as its string form |
| NullableStr.RoundTrip | crates/serde-decimal/src/double_option_str.rs:20 | None and Some(d) survive a write and a read, directly or through the buffer |
| DoubleOptionStr.Deserialize | crates/serde-decimal/src/double_option_str.rs:7-12 | a present key never yields the outer None: the result is Some of the nullable result, or its error |
| DoubleOptionStr.Serialize | crates/serde-decimal/src/double_option_str.rs:14-22 | the outer None is written as null (unit); Some(v) as `nullable_str` writes v |
| DoubleOptionStr.RoundTrip | crates/serde-decimal/src/double_option_str.rs:81-141 | all three states survive a write and a read, plain and flattened |
| DoubleOptionStr.ThreeShapes | crates/serde-decimal/src/double_option_str.rs:42-61 | the three states are written as `{}`, `{"foo":null}` and `{"foo":"<decimal>"}` |
| DoubleOptionStr.ThreeReadings | crates/serde-decimal/src/double_option_str.rs:63-79 | `{}` reads as None, null as Some(None), and a decimal string as Some(Some(_)), plain and flattened |
| DoubleOptionStr.SkipNeeded | crates/serde-decimal/src/double_option_str.rs:30 | without the skip attribute, None and Some(None) would both be written as null and read back as Some(None) |
| DoubleOptionStr.DefaultNeeded | crates/serde-decimal/src/double_option_str.rs:31 | without `default`, an absent key would be a missing-field error |

## Left out

- The wire-format parser and serializer (serde_json) are not modelled. Its output is the `Wire` value and its input the `Json` value. Escape processing, and the parser's choice between borrowed and transient strings, become the `Provenance` of a wire value.
- Allocation, lifetimes and the `Cow`/`&str` memory layout are reduced to index ranges into the input bytes.
- Hashing and `HashSet` iteration order: the set is a Dafny `set`.
- The decimal type, its text and float conversions, and their accuracy are left opaque. Round trips are proved for values whose written form the decoder reads back (`TextReadsBack`, `NumberReadsBack`). The float form's rounding is not modelled.
- crates/serde-decimal/src/nullable_str.rs is not part of this model. `NullableStr` is given the nullable visitor of `nullable_float` and the string-form serializer of `non_required_str`, which writes None as null and a decimal as its string form. These are the only things `double_option_str` relies on.
- crates/serde-secrecy, the crates' `lib.rs` module declarations, `double_option_float`, `non_required_float` and the arbitrary-precision modules are not modelled. They are either not core rules or not shown.
- Serde.Read models a copying reader such as `serde_json::from_reader`. Strings lent from the input by `serde_json::from_str`, which the repository's tests use, reach the decimal rules only as the opaque decoder's input. The decimal round trips (`TextReadsBack`) are stated for copied strings, transient or owned.
- Error messages are not modelled: errors are kinds with their payloads, not the `Display` text serde builds from them.
- A flattened record is modelled on the field's value only. serde's buffering of the whole object, and any other keys it holds, are not modelled.
- `str` is modelled as serde's `&str` decoder. It refuses strings that arrive in a transient or owned buffer, such as a JSON string that needed unescaping. The model reports that as a type mismatch naming the string.
