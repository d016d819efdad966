/** UTF-8 as defined in section 4 of RFC 3629: the encoding of Unicode scalar
    values as byte sequences, and the validating decoder that Rust's
    `str::from_utf8` / `String::from_utf8` perform on byte input. */
module Utf8 {

  import opened Wrappers

  newtype byte = b: int | 0 <= b < 0x100

  /** A continuation byte: 10xxxxxx. */
  predicate IsContinuation(b: byte) {
    0x80 <= b <= 0xBF
  }

  /** The bytes of one scalar value, shortest form (RFC 3629, section 3). */
  function EncodeChar(c: char): (r: seq<byte>)
    ensures 1 <= |r| <= 4
    ensures r[0] < 0x80 <==> |r| == 1
    ensures forall k :: 1 <= k < |r| ==> IsContinuation(r[k])
  {
    var v := c as int;
    var r0, v1 := v % 64, v / 64;
    var r1, v2 := v1 % 64, v1 / 64;
    var r2, v3 := v2 % 64, v2 / 64;
    if v < 0x80 then [v as byte]
    else if v < 0x800 then [(0xC0 + v1) as byte, (0x80 + r0) as byte]
    else if v < 0x10000 then [(0xE0 + v2) as byte, (0x80 + r1) as byte, (0x80 + r0) as byte]
    else [(0xF0 + v3) as byte, (0x80 + r2) as byte, (0x80 + r1) as byte, (0x80 + r0) as byte]
  }

  function Encode(s: string): seq<byte> {
    if s == [] then [] else EncodeChar(s[0]) + Encode(s[1..])
  }

  /** Whether v is a Unicode scalar value: at most U+10FFFF and not a surrogate. */
  predicate IsScalar(v: int) {
    0 <= v < 0xD800 || 0xE000 <= v <= 0x10FFFF
  }

  /** Decodes the first scalar value of b and says how many bytes it took;
      None when b does not start with a well-formed UTF-8 sequence
      (a stray continuation byte, a truncated sequence, an overlong form,
      a surrogate, or a value above U+10FFFF). */
  function DecodeChar(b: seq<byte>): (r: Option<(char, nat)>)
    requires b != []
    ensures r.Some? ==> 1 <= r.value.1 <= |b| && r.value.1 <= 4
  {
    var b0 := b[0] as int;
    if b0 < 0x80 then
      Some((b0 as char, 1))
    else if 0xC0 <= b0 < 0xE0 then
      if |b| < 2 || !IsContinuation(b[1]) then None
      else
        var v := (b0 - 0xC0) * 64 + (b[1] as int - 0x80);
        if v < 0x80 then None else Some((v as char, 2))
    else if 0xE0 <= b0 < 0xF0 then
      if |b| < 3 || !IsContinuation(b[1]) || !IsContinuation(b[2]) then None
      else
        var v := ((b0 - 0xE0) * 64 + (b[1] as int - 0x80)) * 64 + (b[2] as int - 0x80);
        if v < 0x800 || !IsScalar(v) then None else Some((v as char, 3))
    else if 0xF0 <= b0 < 0xF8 then
      if |b| < 4 || !IsContinuation(b[1]) || !IsContinuation(b[2]) || !IsContinuation(b[3]) then None
      else
        var v := (((b0 - 0xF0) * 64 + (b[1] as int - 0x80)) * 64 + (b[2] as int - 0x80)) * 64 + (b[3] as int - 0x80);
        if v < 0x10000 || !IsScalar(v) then None else Some((v as char, 4))
    else
      None
  }

  /** The whole of b as text, or None when b is not valid UTF-8. */
  function Decode(b: seq<byte>): (r: Option<string>)
    ensures r.Some? ==> |r.value| <= |b| <= 4 * |r.value|
    decreases |b|
  {
    if b == [] then Some([])
    else match DecodeChar(b)
      case None => None
      case Some((c, n)) =>
        match Decode(b[n..])
        case None => None
        case Some(rest) => Some([c] + rest)
  }

  /** Decoding the encoding of a scalar value gives it back and consumes exactly its bytes. */
  lemma DecodeEncodeChar(c: char, rest: seq<byte>)
    ensures DecodeChar(EncodeChar(c) + rest) == Some((c, |EncodeChar(c)|))
  {
    var v := c as int;
    var b := EncodeChar(c) + rest;
    assert v == (((v / 64) / 64) / 64 * 64 + ((v / 64) / 64) % 64) * 4096 + ((v / 64) % 64) * 64 + v % 64;
    if v < 0x80 {
    } else if v < 0x800 {
      assert b[0] as int - 0xC0 == v / 64;
    } else if v < 0x10000 {
      assert b[0] as int - 0xE0 == (v / 64) / 64;
    } else {
      assert b[0] as int - 0xF0 == ((v / 64) / 64) / 64;
    }
  }

  /** A scalar value that DecodeChar reads was written in its unique shortest form. */
  lemma DecodeCharIsEncoding(b: seq<byte>)
    requires b != [] && DecodeChar(b).Some?
    ensures b[..DecodeChar(b).value.1] == EncodeChar(DecodeChar(b).value.0)
  {
    var b0 := b[0] as int;
    if b0 < 0x80 {
    } else if b0 < 0xE0 {
      var x0, x1 := b0 - 0xC0, b[1] as int - 0x80;
      var v := x0 * 64 + x1;
      assert v / 64 == x0 && v % 64 == x1;
    } else if b0 < 0xF0 {
      var x0, x1, x2 := b0 - 0xE0, b[1] as int - 0x80, b[2] as int - 0x80;
      var v1 := x0 * 64 + x1;
      var v := v1 * 64 + x2;
      assert v / 64 == v1 && v % 64 == x2;
      assert v1 / 64 == x0 && v1 % 64 == x1;
    } else {
      var x0, x1, x2, x3 := b0 - 0xF0, b[1] as int - 0x80, b[2] as int - 0x80, b[3] as int - 0x80;
      var v2 := x0 * 64 + x1;
      var v1 := v2 * 64 + x2;
      var v := v1 * 64 + x3;
      assert v / 64 == v1 && v % 64 == x3;
      assert v1 / 64 == v2 && v1 % 64 == x2;
      assert v2 / 64 == x0 && v2 % 64 == x1;
    }
  }

  /** Every string survives encoding: decoding its encoding gives it back. */
  lemma {:induction false} DecodeEncode(s: string)
    ensures Decode(Encode(s)) == Some(s)
  {
    if s != [] {
      var b := Encode(s);
      DecodeEncodeChar(s[0], Encode(s[1..]));
      assert b[|EncodeChar(s[0])|..] == Encode(s[1..]);
      DecodeEncode(s[1..]);
      assert [s[0]] + s[1..] == s;
    }
  }

  /** Valid UTF-8 has exactly one reading: bytes that decode to s are the encoding of s. */
  lemma {:induction false} DecodeIsEncoding(b: seq<byte>, s: string)
    requires Decode(b) == Some(s)
    ensures b == Encode(s)
    decreases |b|
  {
    if b != [] {
      var (c, n) := DecodeChar(b).value;
      DecodeCharIsEncoding(b);
      var rest := Decode(b[n..]).value;
      DecodeIsEncoding(b[n..], rest);
      assert s == [c] + rest;
      assert s[1..] == rest;
      assert b == b[..n] + b[n..];
    }
  }

  /** Encoding is a homomorphism from concatenation of text to concatenation of bytes. */
  lemma {:induction false} EncodeAppend(s: string, t: string)
    ensures Encode(s + t) == Encode(s) + Encode(t)
  {
    if s != [] {
      assert (s + t)[1..] == s[1..] + t;
      EncodeAppend(s[1..], t);
    } else {
      assert s + t == t;
    }
  }
}
