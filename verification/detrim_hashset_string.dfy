/** crates/detrim/src/hashset_string.rs: `hashset_string` decodes a list of
    strings, trims every item in place and collects the items into a set, so
    that strings differing only in their padding count once. */
module DetrimHashsetString {

  import opened Wrappers
  import opened Whitespace
  import opened Serde
  import opened Primitives
  import opened DetrimVecString

  /** The distinct trimmed items of xs. */
  function TrimmedSet(xs: seq<string>): set<string> {
    set i | 0 <= i < |xs| :: Trim(xs[i])
  }

  /** What `hashset_string` yields for a field value. */
  function TrimmedHashset(w: Wire): Result<set<string>> {
    match DecodeStringVec(w)
    case Err(e) => Err(e)
    case Ok(list) => Ok(TrimmedSet(list))
  }

  /** `hashset_string`: decode a `Vec<String>`, trim its items in place, then
      collect them into a set. */
  method HashsetString(w: Wire) returns (r: Result<set<string>>)
    ensures r == TrimmedHashset(w)
  {
    match DecodeStringVec(w)
    case Err(e) =>
      r := Err(e);
    case Ok(list) =>
      var a := new string[|list|](i requires 0 <= i < |list| => list[i]);
      assert a[..] == list;
      TrimInPlace(a);
      r := Ok(set x | x in a[..]);
      SetOfTrimEach(list);
  }

  /** Collecting the trimmed list into a set gives the distinct trimmed items. */
  lemma SetOfTrimEach(xs: seq<string>)
    ensures (set x | x in TrimEach(xs)) == TrimmedSet(xs)
  {
    forall x | x in TrimEach(xs) ensures x in TrimmedSet(xs) {
      var i :| 0 <= i < |xs| && TrimEach(xs)[i] == x;
    }
    forall x | x in TrimmedSet(xs) ensures x in TrimEach(xs) {
      var i :| 0 <= i < |xs| && x == Trim(xs[i]);
      assert TrimEach(xs)[i] == x;
    }
  }

  /** A string is in the set exactly when it is the padding-free form of some
      decoded item; every member is therefore trimmed. */
  lemma TrimmedSetMembers(xs: seq<string>, t: string)
    ensures t in TrimmedSet(xs) <==> exists i :: 0 <= i < |xs| && TrimmedFrom(t, xs[i])
    ensures t in TrimmedSet(xs) ==> IsTrimmed(t)
  {
    forall i | 0 <= i < |xs| {
      TrimCharacterized(xs[i], t);
    }
    if t in TrimmedSet(xs) {
      var i :| 0 <= i < |xs| && t == Trim(xs[i]);
      TrimSplits(xs[i]);
    }
  }

  /** The set holds exactly the items of the trimmed list `vec_string` yields. */
  lemma HashsetIsSetOfVec(w: Wire)
    ensures TrimmedHashset(w).Ok? <==> TrimmedVec(w).Ok?
    ensures TrimmedHashset(w).Err? ==> TrimmedHashset(w).error == TrimmedVec(w).error
    ensures TrimmedHashset(w).Ok? ==>
      forall x :: x in TrimmedHashset(w).value <==> x in TrimmedVec(w).value
  {
    if DecodeStringVec(w).Ok? {
      var list := DecodeStringVec(w).value;
      forall x ensures x in TrimmedSet(list) <==> x in TrimEach(list) {
        if x in TrimmedSet(list) {
          var i :| 0 <= i < |list| && x == Trim(list[i]);
          assert TrimEach(list)[i] == x;
        }
      }
    }
  }

  /** Deduplication never adds items: the set has at most as many members as
      the decoded list has items. */
  lemma {:induction false} TrimmedSetSize(xs: seq<string>)
    ensures |TrimmedSet(xs)| <= |xs|
  {
    if xs != [] {
      var n := |xs| - 1;
      TrimmedSetSize(xs[..n]);
      TrimmedSetSnoc(xs);
    }
  }

  /** The set of a non-empty list: that of all but its last item, plus the
      last item trimmed. */
  lemma TrimmedSetSnoc(xs: seq<string>)
    requires xs != []
    ensures TrimmedSet(xs) == TrimmedSet(xs[..|xs| - 1]) + {Trim(xs[|xs| - 1])}
  {
    var n := |xs| - 1;
    forall x | x in TrimmedSet(xs) ensures x in TrimmedSet(xs[..n]) + {Trim(xs[n])} {
      var i :| 0 <= i < |xs| && x == Trim(xs[i]);
      if i < n { assert xs[..n][i] == xs[i]; }
    }
    forall x | x in TrimmedSet(xs[..n]) ensures x in TrimmedSet(xs) {
      var i :| 0 <= i < n && x == Trim(xs[..n][i]);
      assert xs[i] == xs[..n][i];
    }
  }

  /** Items that differ only in their padding collapse into one member, as in
      the unit tests' `["  bar  ", "  bar"]`. */
  lemma PaddingVariantsCollapse(p: string, q: string, p': string, q': string, t: string, from: Provenance)
    requires AllWhitespace(p) && AllWhitespace(q) && AllWhitespace(p') && AllWhitespace(q')
    requires IsTrimmed(t)
    ensures TrimmedHashset(Seq([Text(p + t + q, from), Text(p' + t + q', from)])) == Ok({t})
  {
    TrimOfPadded(p, t, q);
    TrimOfPadded(p', t, q');
    var items := [Text(p + t + q, from), Text(p' + t + q', from)];
    var none: seq<Wire> := [];
    assert items[1..][1..] == none;
    assert DecodeStrings(none) == Ok([]);
    assert DecodeString(items[1..][0]) == Ok(p' + t + q');
    assert [p' + t + q'] + [] == [p' + t + q'];
    assert DecodeStrings(items[1..]) == Ok([p' + t + q']);
    assert DecodeString(items[0]) == Ok(p + t + q);
    assert [p + t + q] + [p' + t + q'] == [p + t + q, p' + t + q'];
    assert DecodeStrings(items) == Ok([p + t + q, p' + t + q']);
    var list := [p + t + q, p' + t + q'];
    assert TrimmedSet(list) == {t} by {
      assert Trim(list[0]) == t;
    }
  }

  /** A number or a lone string where a list is expected is a type mismatch. */
  lemma NonSequenceRejected(w: Wire)
    requires !w.Seq?
    ensures TrimmedHashset(w) == Err(InvalidType(Describe(w), "a sequence"))
  {
  }
}
