/** crates/detrim/src/vec_string.rs: `vec_string` decodes a list of strings
    and trims every item in place. */
module DetrimVecString {

  import opened Wrappers
  import opened Whitespace
  import opened Serde
  import opened Primitives

  /** Every item of xs trimmed, in the same order. */
  function TrimEach(xs: seq<string>): seq<string> {
    seq(|xs|, i requires 0 <= i < |xs| => Trim(xs[i]))
  }

  /** The loop of `vec_string`: each item is replaced by its trimmed text. */
  method TrimInPlace(a: array<string>)
    modifies a
    ensures a[..] == TrimEach(old(a[..]))
  {
    for i := 0 to a.Length
      invariant forall k :: 0 <= k < i ==> a[k] == Trim(old(a[k]))
      invariant forall k :: i <= k < a.Length ==> a[k] == old(a[k])
    {
      a[i] := Trim(a[i]);
    }
  }

  /** What `vec_string` yields for a field value. */
  function TrimmedVec(w: Wire): Result<seq<string>> {
    match DecodeStringVec(w)
    case Err(e) => Err(e)
    case Ok(list) => Ok(TrimEach(list))
  }

  /** `vec_string`: decode a `Vec<String>`, then trim its items in place. */
  method VecString(w: Wire) returns (r: Result<seq<string>>)
    ensures r == TrimmedVec(w)
  {
    match DecodeStringVec(w)
    case Err(e) =>
      r := Err(e);
    case Ok(list) =>
      var a := new string[|list|](i requires 0 <= i < |list| => list[i]);
      assert a[..] == list;
      TrimInPlace(a);
      r := Ok(a[..]);
  }

  /** Item by item, the result is the decoded list with each item's padding
      removed: same length, same order, nothing else changed. */
  lemma TrimEachCharacterized(xs: seq<string>)
    ensures |TrimEach(xs)| == |xs|
    ensures forall i :: 0 <= i < |xs| ==> TrimmedFrom(TrimEach(xs)[i], xs[i])
  {
    forall i | 0 <= i < |xs|
      ensures TrimmedFrom(TrimEach(xs)[i], xs[i])
    {
      TrimCharacterized(xs[i], Trim(xs[i]));
    }
  }

  /** `vec_string` succeeds exactly where `Vec<String>` decoding does, passes
      its errors on unchanged, and yields each decoded item's trimmed text at
      the same position. */
  lemma TrimmedVecCharacterized(w: Wire)
    ensures TrimmedVec(w).Ok? <==> DecodeStringVec(w).Ok?
    ensures TrimmedVec(w).Err? ==> TrimmedVec(w).error == DecodeStringVec(w).error
    ensures TrimmedVec(w).Ok? ==>
      |TrimmedVec(w).value| == |DecodeStringVec(w).value| &&
      forall i :: 0 <= i < |DecodeStringVec(w).value| ==>
        TrimmedFrom(TrimmedVec(w).value[i], DecodeStringVec(w).value[i])
  {
    if DecodeStringVec(w).Ok? {
      TrimEachCharacterized(DecodeStringVec(w).value);
    }
  }

  /** Trimming commutes with concatenation: items are trimmed independently,
      so the order of the list is kept. */
  lemma TrimEachAppend(xs: seq<string>, ys: seq<string>)
    ensures TrimEach(xs + ys) == TrimEach(xs) + TrimEach(ys)
  {
  }

  /** A list whose items are all trimmed already is left as it is; in
      particular, trimming twice is trimming once. */
  lemma TrimEachOfTrimmed(xs: seq<string>)
    ensures (forall i :: 0 <= i < |xs| ==> IsTrimmed(xs[i])) <==> TrimEach(xs) == xs
    ensures TrimEach(TrimEach(xs)) == TrimEach(xs)
  {
    forall i | 0 <= i < |xs|
      ensures IsTrimmed(xs[i]) <==> Trim(xs[i]) == xs[i]
      ensures Trim(Trim(xs[i])) == Trim(xs[i])
    {
      TrimFixpoint(xs[i]);
      TrimIdempotent(xs[i]);
    }
    if TrimEach(xs) == xs {
      forall i | 0 <= i < |xs| ensures IsTrimmed(xs[i]) {
        assert TrimEach(xs)[i] == xs[i];
      }
    }
  }

  /** A number or a lone string where a list is expected is a type mismatch,
      as in the unit tests' `1` and `""`. */
  lemma NonSequenceRejected(w: Wire)
    requires !w.Seq?
    ensures TrimmedVec(w) == Err(InvalidType(Describe(w), "a sequence"))
  {
  }

  /** The unit tests' lists: `[]` stays empty, and a list of one padded item
      (`[" "]`, `["  bar  "]`, ...) is the list of its core. */
  lemma ListExamples(p: string, t: string, q: string, from: Provenance)
    requires AllWhitespace(p) && AllWhitespace(q) && IsTrimmed(t)
    ensures TrimmedVec(Seq([])) == Ok([])
    ensures TrimmedVec(Seq([Text(p + t + q, from)])) == Ok([t])
  {
    TrimOfPadded(p, t, q);
    var none: seq<Wire> := [];
    assert DecodeStrings(none) == Ok([]);
    assert TrimEach([]) == [];
    var items := [Text(p + t + q, from)];
    assert items[1..] == none;
    assert DecodeString(items[0]) == Ok(p + t + q);
    assert [p + t + q] + [] == [p + t + q];
    assert DecodeStrings(items) == Ok([p + t + q]);
    assert TrimEach([p + t + q]) == [t];
  }
}
