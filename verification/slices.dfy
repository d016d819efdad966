/** Borrowed text: a byte range of the input buffer that holds valid UTF-8,
    the way a Rust `&str` borrowed from the input is a window on its bytes. */
module Slices {

  import opened Wrappers
  import opened Utf8
  import opened Whitespace

  /** The byte range [start, end) of the input buffer. */
  datatype Slice = Slice(start: nat, end: nat)

  /** Whether inner lies within outer. */
  predicate Within(inner: Slice, outer: Slice) {
    outer.start <= inner.start <= inner.end <= outer.end
  }

  /** The text a slice of input stands for: None when the range is outside the
      buffer or does not hold valid UTF-8. */
  function SliceText(input: seq<byte>, sl: Slice): Option<string> {
    if sl.start <= sl.end <= |input| then Decode(input[sl.start..sl.end]) else None
  }

  /** `str::trim` on a borrowed `&str`: the narrower window on the same bytes,
      skipping the encoded leading and trailing whitespace of the slice's text t. */
  function TrimSlice(t: string, sl: Slice): Slice {
    var start := sl.start + |Encode(TrimmedPrefix(t))|;
    Slice(start, start + |Encode(Trim(t))|)
  }

  /** Trimming a borrowed string allocates nothing: the result is a sub-range of
      the original slice, and the bytes in it are exactly the trimmed text. */
  lemma TrimSliceCorrect(input: seq<byte>, t: string, sl: Slice)
    requires SliceText(input, sl) == Some(t)
    ensures Within(TrimSlice(t, sl), sl)
    ensures SliceText(input, TrimSlice(t, sl)) == Some(Trim(t))
  {
    SliceIsEncoding(input, sl, t);
    TrimSliceOfEncoding(input, t, sl);
  }

  lemma TrimSliceOfEncoding(input: seq<byte>, t: string, sl: Slice)
    requires sl.start <= sl.end <= |input| && input[sl.start..sl.end] == Encode(t)
    ensures Within(TrimSlice(t, sl), sl)
    ensures SliceText(input, TrimSlice(t, sl)) == Some(Trim(t))
  {
    var x, c, z := Encode(TrimmedPrefix(t)), Trim(t), Encode(TrimmedSuffix(t));
    EncodeAroundTrim(t);
    MiddleText(input, sl, x, c, z);
    assert TrimSlice(t, sl) == Slice(sl.start + |x|, sl.start + |x| + |Encode(c)|);
  }

  /** In a window holding the bytes x, then the encoding of c, then the bytes
      z, the range after x as long as c's encoding reads back as c. */
  lemma MiddleText(input: seq<byte>, sl: Slice, x: seq<byte>, c: string, z: seq<byte>)
    requires sl.start <= sl.end <= |input| && input[sl.start..sl.end] == x + Encode(c) + z
    ensures Within(Slice(sl.start + |x|, sl.start + |x| + |Encode(c)|), sl)
    ensures SliceText(input, Slice(sl.start + |x|, sl.start + |x| + |Encode(c)|)) == Some(c)
  {
    WindowText(input, sl, x, Encode(c), z);
    DecodeEncode(c);
  }

  /** The middle of a window split in three. */
  lemma WindowText(input: seq<byte>, sl: Slice, x: seq<byte>, y: seq<byte>, z: seq<byte>)
    requires sl.start <= sl.end <= |input| && input[sl.start..sl.end] == x + y + z
    ensures Within(Slice(sl.start + |x|, sl.start + |x| + |y|), sl)
    ensures SliceText(input, Slice(sl.start + |x|, sl.start + |x| + |y|)) == Decode(y)
  {
    var r := Slice(sl.start + |x|, sl.start + |x| + |y|);
    MiddleOfWindow(input, sl.start, sl.end, x, y, z);
    assert input[r.start..r.end] == y;
  }

  lemma SliceIsEncoding(input: seq<byte>, sl: Slice, t: string)
    requires SliceText(input, sl) == Some(t)
    ensures sl.start <= sl.end <= |input| && input[sl.start..sl.end] == Encode(t)
  {
    DecodeIsEncoding(input[sl.start..sl.end], t);
  }

  /** The bytes of t are those of the whitespace Trim removes in front, of the
      trimmed text, and of the whitespace it removes behind. */
  lemma EncodeAroundTrim(t: string)
    ensures Encode(t) == Encode(TrimmedPrefix(t)) + Encode(Trim(t)) + Encode(TrimmedSuffix(t))
  {
    var p, c, q := TrimmedPrefix(t), Trim(t), TrimmedSuffix(t);
    TrimSplits(t);
    EncodeAppend(p + c, q);
    EncodeAppend(p, c);
  }

  lemma MiddleOfWindow(input: seq<byte>, s: nat, e: nat, x: seq<byte>, y: seq<byte>, z: seq<byte>)
    requires s <= e <= |input| && input[s..e] == x + y + z
    ensures s + |x| + |y| <= e
    ensures input[s + |x|..s + |x| + |y|] == y
  {
    forall k | 0 <= k < |y|
      ensures input[s + |x|..s + |x| + |y|][k] == y[k]
    {
      assert input[s + |x| + k] == input[s..e][|x| + k] == (x + y + z)[|x| + k];
    }
  }
}
