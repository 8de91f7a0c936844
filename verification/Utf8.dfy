/** The UTF-8 codec behind every Rust `String`: `as_bytes` on the way out and the
    strict `String::from_utf8` on the way in (section 3 of RFC 3629). */
module Utf8 {
  import opened Prelude

  function EncodeChar(c: char): (r: Bytes)
    ensures 1 <= |r| <= 4
    ensures r[0] < 0x80 <==> c as int < 0x80
    ensures c as int < 0x80 ==> r == [c as int]
  {
    var n := c as int;
    if n < 0x80 then [n]
    else if n < 0x800 then [0xC0 + n / 0x40, 0x80 + n % 0x40]
    else if n < 0x1_0000 then [0xE0 + n / 0x1000, 0x80 + n / 0x40 % 0x40, 0x80 + n % 0x40]
    else [0xF0 + n / 0x4_0000, 0x80 + n / 0x1000 % 0x40, 0x80 + n / 0x40 % 0x40, 0x80 + n % 0x40]
  }

  function Encode(s: string): (r: Bytes)
    ensures |s| <= |r|
  {
    if s == [] then [] else EncodeChar(s[0]) + Encode(s[1..])
  }

  predicate Continuation(b: byte) {
    0x80 <= b < 0xC0
  }

  /** Code points that are Unicode scalar values; surrogates are not. */
  predicate Scalar(n: int) {
    0 <= n < 0xD800 || 0xE000 <= n < 0x11_0000
  }

  /** The code points carried by two, three and four byte sequences. */
  function Code2(b: Bytes): int
    requires |b| >= 2
  {
    (b[0] as int - 0xC0) * 0x40 + (b[1] as int - 0x80)
  }

  function Code3(b: Bytes): int
    requires |b| >= 3
  {
    (b[0] as int - 0xE0) * 0x1000 + (b[1] as int - 0x80) * 0x40 + (b[2] as int - 0x80)
  }

  function Code4(b: Bytes): int
    requires |b| >= 4
  {
    (b[0] as int - 0xF0) * 0x4_0000 + (b[1] as int - 0x80) * 0x1000 + (b[2] as int - 0x80) * 0x40
    + (b[3] as int - 0x80)
  }

  /** The first character of a byte string and the number of bytes it takes, or
      nothing when the bytes are truncated, overlong, a surrogate or out of range. */
  function DecodeChar(b: Bytes): (r: Option<(char, nat)>)
    ensures r.Some? ==> 0 < r.value.1 <= |b|
  {
    if b == [] then None
    else if b[0] < 0x80 then Some((b[0] as char, 1))
    else if 0xC0 <= b[0] < 0xE0 && |b| >= 2 && Continuation(b[1]) then
      if 0x80 <= Code2(b) then Some((Code2(b) as char, 2)) else None
    else if 0xE0 <= b[0] < 0xF0 && |b| >= 3 && Continuation(b[1]) && Continuation(b[2]) then
      if 0x800 <= Code3(b) && Scalar(Code3(b)) then Some((Code3(b) as char, 3)) else None
    else if 0xF0 <= b[0] < 0xF8 && |b| >= 4
            && Continuation(b[1]) && Continuation(b[2]) && Continuation(b[3]) then
      if 0x1_0000 <= Code4(b) && Scalar(Code4(b)) then Some((Code4(b) as char, 4)) else None
    else None
  }

  lemma Split(high: int, low: int)
    requires 0 <= high && 0 <= low < 0x40
    ensures (high * 0x40 + low) / 0x40 == high && (high * 0x40 + low) % 0x40 == low
  {
  }

  lemma Split4(a: int, b: int, c: int, d: int)
    requires 0 <= a && 0 <= b < 0x40 && 0 <= c < 0x40 && 0 <= d < 0x40
    ensures var n := a * 0x4_0000 + b * 0x1000 + c * 0x40 + d;
            n / 0x4_0000 == a && n / 0x1000 % 0x40 == b && n / 0x40 % 0x40 == c && n % 0x40 == d
  {
    var n := a * 0x4_0000 + b * 0x1000 + c * 0x40 + d;
    Split(a * 0x1000 + b * 0x40 + c, d);
    Split(a * 0x40 + b, c);
    Split(a, b);
    assert n / 0x1000 == a * 0x40 + b;
  }

  lemma DecodeCharSound(b: Bytes)
    requires DecodeChar(b).Some?
    ensures EncodeChar(DecodeChar(b).value.0) == b[..DecodeChar(b).value.1]
  {
    var n := DecodeChar(b).value.1;
    if n == 2 {
      Split(b[0] as int - 0xC0, b[1] as int - 0x80);
    } else if n == 3 {
      Split4(0, b[0] as int - 0xE0, b[1] as int - 0x80, b[2] as int - 0x80);
      assert Code3(b) / 0x1000 < 0x40;
    } else if n == 4 {
      Split4(b[0] as int - 0xF0, b[1] as int - 0x80, b[2] as int - 0x80, b[3] as int - 0x80);
    }
  }

  lemma EncodeHead(b: Bytes, c: char, n: nat, rest: string)
    requires DecodeChar(b) == Some((c, n)) && Encode(rest) == b[n..]
    ensures Encode([c] + rest) == b
  {
    DecodeCharSound(b);
    assert b == b[..n] + b[n..];
    assert ([c] + rest)[1..] == rest;
  }

  /** Strict decoding. Whatever is accepted re-encodes to the very same bytes. */
  function Decode(b: Bytes): (r: Option<string>)
    ensures r.Some? ==> Encode(r.value) == b
  {
    if b == [] then Some([])
    else
      match DecodeChar(b)
      case None => None
      case Some((c, n)) =>
        match Decode(b[n..])
        case None => None
        case Some(rest) =>
          EncodeHead(b, c, n, rest);
          Some([c] + rest)
  }

  lemma DecodeCharEncoded(c: char, rest: Bytes)
    ensures DecodeChar(EncodeChar(c) + rest) == Some((c, |EncodeChar(c)|))
  {
    var n := c as int;
    var b := EncodeChar(c) + rest;
    assert b[..|EncodeChar(c)|] == EncodeChar(c);
    assert n == n / 0x40 * 0x40 + n % 0x40;
    if 0x1_0000 <= n {
      assert n / 0x1000 == n / 0x4_0000 * 0x40 + n / 0x1000 % 0x40;
      assert n / 0x40 == n / 0x1000 * 0x40 + n / 0x40 % 0x40;
    } else if 0x800 <= n {
      assert n / 0x40 == n / 0x1000 * 0x40 + n / 0x40 % 0x40;
    }
  }

  /** Decoding what was encoded gives the string back. */
  lemma {:induction false} RoundTrip(s: string)
    ensures Decode(Encode(s)) == Some(s)
  {
    if s != [] {
      var head, tail := EncodeChar(s[0]), Encode(s[1..]);
      DecodeCharEncoded(s[0], tail);
      assert (head + tail)[|head|..] == tail;
      RoundTrip(s[1..]);
      assert s == [s[0]] + s[1..];
    }
  }

  lemma Injective(s: string, t: string)
    requires Encode(s) == Encode(t)
    ensures s == t
  {
    RoundTrip(s);
    RoundTrip(t);
  }

  /** A text of ASCII characters has as many bytes as characters. */
  lemma {:induction false} EncodeAscii(s: string)
    requires forall c :: c in s ==> c as int < 0x80
    ensures |Encode(s)| == |s|
    ensures forall i :: 0 <= i < |s| ==> Encode(s)[i] == s[i] as int
  {
    if s != [] {
      assert s[0] in s && forall c :: c in s[1..] ==> c in s;
      EncodeAscii(s[1..]);
    }
  }

  lemma {:induction false} EncodeLength(s: string)
    ensures |s| <= |Encode(s)|
  {
    if s != [] {
      EncodeLength(s[1..]);
    }
  }
}
