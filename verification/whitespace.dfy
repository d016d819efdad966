/** Rust's `str::trim`: removing leading and trailing characters that have the
    Unicode White_Space property (`char::is_whitespace`). */
module Whitespace {

  /** The Unicode White_Space property: the 25 code points listed in the
      Unicode Character Database file PropList.txt. */
  predicate IsWhitespace(c: char) {
    || '\U{0009}' <= c <= '\U{000D}'
    || c == '\U{0020}'
    || c == '\U{0085}'
    || c == '\U{00A0}'
    || c == '\U{1680}'
    || '\U{2000}' <= c <= '\U{200A}'
    || c == '\U{2028}' || c == '\U{2029}'
    || c == '\U{202F}'
    || c == '\U{205F}'
    || c == '\U{3000}'
  }

  predicate AllWhitespace(s: string) {
    forall k :: 0 <= k < |s| ==> IsWhitespace(s[k])
  }

  /** Neither starts nor ends with whitespace: the shape of every trimmed value. */
  predicate IsTrimmed(s: string) {
    s == [] || (!IsWhitespace(s[0]) && !IsWhitespace(s[|s| - 1]))
  }

  /** Rust's `char::is_whitespace` on a few characters: the ASCII blanks and
      the wide spaces are whitespace; the zero-width space and the byte-order
      mark, which lack the White_Space property, are not. */
  lemma WhitespaceExamples()
    ensures IsWhitespace(' ') && IsWhitespace('\t') && IsWhitespace('\n') && IsWhitespace('\r')
    ensures IsWhitespace('\U{00A0}') && IsWhitespace('\U{3000}')
    ensures !IsWhitespace('\U{200B}') && !IsWhitespace('\U{FEFF}') && !IsWhitespace('b')
  {
  }

  /** The number of whitespace characters s starts with. */
  function LeadingWs(s: string): (n: nat)
    ensures n <= |s|
    ensures forall k :: 0 <= k < n ==> IsWhitespace(s[k])
    ensures n < |s| ==> !IsWhitespace(s[n])
  {
    if s != [] && IsWhitespace(s[0]) then 1 + LeadingWs(s[1..]) else 0
  }

  /** The number of whitespace characters s ends with. */
  function TrailingWs(s: string): (n: nat)
    ensures n <= |s|
    ensures forall k :: |s| - n <= k < |s| ==> IsWhitespace(s[k])
    ensures n < |s| ==> !IsWhitespace(s[|s| - n - 1])
  {
    if s != [] && IsWhitespace(s[|s| - 1]) then 1 + TrailingWs(s[..|s| - 1]) else 0
  }

  /** `str::trim`: s without its leading and trailing whitespace. */
  function Trim(s: string): (r: string)
    ensures IsTrimmed(r)
    ensures |r| <= |s|
  {
    var i := LeadingWs(s);
    s[i .. |s| - TrailingWs(s[i..])]
  }

  /** The whitespace Trim removes from the front of s. */
  function TrimmedPrefix(s: string): string {
    s[..LeadingWs(s)]
  }

  /** The whitespace Trim removes from the back of s. */
  function TrimmedSuffix(s: string): string {
    var i := LeadingWs(s);
    s[|s| - TrailingWs(s[i..])..]
  }

  /** Trim keeps the middle of s and cuts only whitespace around it; what is left
      neither starts nor ends with whitespace. */
  lemma TrimSplits(s: string)
    ensures s == TrimmedPrefix(s) + Trim(s) + TrimmedSuffix(s)
    ensures AllWhitespace(TrimmedPrefix(s)) && AllWhitespace(TrimmedSuffix(s))
    ensures IsTrimmed(Trim(s))
  {
    var i := LeadingWs(s);
    var rest := s[i..];
    var j := TrailingWs(rest);
    assert TrimmedSuffix(s) == rest[|rest| - j..];
    assert Trim(s) == rest[..|rest| - j];
    if Trim(s) != [] {
      assert Trim(s)[0] == s[i];
      assert Trim(s)[|Trim(s)| - 1] == rest[|rest| - j - 1];
    }
  }

  /** A trimmed string is left alone by Trim, and only a trimmed string is. */
  lemma TrimFixpoint(s: string)
    ensures Trim(s) == s <==> IsTrimmed(s)
  {
    TrimSplits(s);
    if IsTrimmed(s) && s != [] {
      assert LeadingWs(s) == 0;
      assert TrailingWs(s) == 0;
    }
  }

  /** Trimming twice is trimming once. */
  lemma TrimIdempotent(s: string)
    ensures Trim(Trim(s)) == Trim(s)
  {
    TrimSplits(s);
    TrimFixpoint(Trim(s));
  }

  lemma {:induction false} LeadingWsOfPadded(p: string, t: string)
    requires AllWhitespace(p)
    requires t == [] || !IsWhitespace(t[0])
    ensures LeadingWs(p + t) == |p|
  {
    if p != [] {
      assert (p + t)[1..] == p[1..] + t;
      LeadingWsOfPadded(p[1..], t);
    }
  }

  lemma {:induction false} TrailingWsOfPadded(t: string, q: string)
    requires AllWhitespace(q)
    requires t == [] || !IsWhitespace(t[|t| - 1])
    ensures TrailingWs(t + q) == |q|
  {
    if q != [] {
      var tq := t + q;
      assert tq[..|tq| - 1] == t + q[..|q| - 1];
      TrailingWsOfPadded(t, q[..|q| - 1]);
    }
  }

  /** Whatever whitespace surrounds a trimmed core, on the left, the right or
      both sides, Trim recovers exactly that core. */
  lemma TrimOfPadded(p: string, t: string, q: string)
    requires AllWhitespace(p) && AllWhitespace(q)
    requires IsTrimmed(t)
    ensures Trim(p + t + q) == t
  {
    var s := p + t + q;
    if t == [] {
      assert AllWhitespace(s);
      AllWhitespaceTrimsToEmpty(s);
    } else {
      assert s == p + (t + q);
      LeadingWsOfPadded(p, t + q);
      assert s[|p|..] == t + q;
      TrailingWsOfPadded(t, q);
    }
  }

  /** A string made only of whitespace trims to the empty string, and only such a string does. */
  lemma AllWhitespaceTrimsToEmpty(s: string)
    ensures Trim(s) == [] <==> AllWhitespace(s)
  {
    TrimSplits(s);
  }

  /** t is s with its surrounding whitespace removed: s is t padded by
      whitespace on either side, and t neither starts nor ends with any. */
  ghost predicate TrimmedFrom(t: string, s: string) {
    IsTrimmed(t) && exists p, q :: AllWhitespace(p) && AllWhitespace(q) && s == p + t + q
  }

  /** Trim is the one and only way to strip a string's padding. */
  lemma TrimCharacterized(s: string, t: string)
    ensures TrimmedFrom(t, s) <==> t == Trim(s)
  {
    TrimSplits(s);
    if TrimmedFrom(t, s) {
      var p, q :| AllWhitespace(p) && AllWhitespace(q) && s == p + t + q;
      TrimOfPadded(p, t, q);
    }
  }
}
