/** The one-field record of the serde-decimal unit tests, `Foo { foo }`, as
    serde's derived code handles it, and `Bar { #[serde(flatten)] foo: Foo }`,
    which reads Foo's field back from a buffer. JSON objects with no other key
    are written as the value under "foo", or None for `{}`. */
module Record {

  import opened Wrappers
  import opened Serde

  /** The field attributes the rules are used with: `#[serde(default)]` and
      `#[serde(skip_serializing_if = "Option::is_none")]`. */
  datatype Attrs = Attrs(default: bool, skipIfNone: bool)

  /** The record's field name. */
  const Field := "foo"

  /** The buffering a flattened record goes through: the reader's null is kept
      as a unit, and a string held in a transient buffer becomes an owned
      copy; everything else is kept as it is. */
  function Buffer(w: Wire): (b: Wire)
    ensures w.Null? ==> b == Unit
    ensures !w.Null? ==> Describe(b) == Describe(w)
    ensures w.Text? ==> b.Text? && b.text == w.text && (w.from.Transient? ==> b.from.Handed?)
  {
    match w
    case Null => Unit
    case Text(t, Transient) => Text(t, Handed)
    case Bytes(b, Transient) => Bytes(b, Handed)
    case _ => w
  }

  /** Decoding the field of a record whose JSON object is obj, with the
      field's decoder `with`: an absent key is the default `None` when the
      field has one, and otherwise a missing-field error, because a field
      decoded by a `with` function has no fallback of its own. */
  function DecodeFoo<T>(obj: Option<Json>, attrs: Attrs, flattened: bool, with: Wire -> Result<Option<T>>): (r: Result<Option<T>>)
    ensures obj.None? && attrs.default ==> r == Ok(None)
    ensures obj.None? && !attrs.default ==> r == Err(MissingField(Field))
    ensures obj.Some? && !flattened ==> r == with(Read(obj.value))
    ensures obj.Some? && flattened ==> r == with(Buffer(Read(obj.value)))
  {
    match obj
    case None => if attrs.default then Ok(None) else Err(MissingField(Field))
    case Some(j) => with(if flattened then Buffer(Read(j)) else Read(j))
  }

  /** Writing the field of a record with the field's encoder `with`: a None
      value is left out when the field skips None, and written otherwise. The
      flattened record writes the same object. */
  function EncodeFoo<T>(v: Option<T>, attrs: Attrs, with: Option<T> -> Json): (obj: Option<Json>)
    ensures obj.None? <==> attrs.skipIfNone && v.None?
    ensures obj.Some? ==> obj.value == with(v)
  {
    if attrs.skipIfNone && v.None? then None else Some(with(v))
  }
}
