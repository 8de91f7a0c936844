/** Lowercase hexadecimal text: src/hex.rs. */
module Hex {
  import opened Prelude
  import Utf8

  datatype HexError = OddLength | BadDigit

  function NibbleToHex(nibble: nat): (c: char)
    requires nibble < 16
    ensures HexToNibble(c) == Some(nibble)
    ensures Lower(c) == c
  {
    if nibble <= 9 then ('0' as int + nibble) as char else ('a' as int + nibble - 10) as char
  }

  /** `char::to_digit(16)`: ASCII digits and letters of either case, nothing else. */
  function HexToNibble(c: char): (r: Option<nat>)
    ensures r.Some? ==> r.value < 16 && c as int < 0x80
  {
    if '0' <= c <= '9' then Some(c as int - '0' as int)
    else if 'a' <= c <= 'f' then Some(c as int - 'a' as int + 10)
    else if 'A' <= c <= 'F' then Some(c as int - 'A' as int + 10)
    else None
  }

  /** The sixteen digits in either case. */
  lemma DigitIff(c: char, n: nat)
    requires n < 16
    ensures HexToNibble(c) == Some(n) <==> c == "0123456789abcdef"[n] || c == "0123456789ABCDEF"[n]
  {
  }

  function Lower(c: char): char {
    if 'A' <= c <= 'Z' then (c as int + 32) as char else c
  }

  function LowerAll(s: string): (r: string)
    ensures |r| == |s|
  {
    if s == [] then [] else [Lower(s[0])] + LowerAll(s[1..])
  }

  predicate IsHexDigit(c: char) {
    HexToNibble(c).Some?
  }

  predicate AllHexDigits(s: string) {
    s == [] || (IsHexDigit(s[0]) && AllHexDigits(s[1..]))
  }

  function Encode(bytes: Bytes): (r: string)
    ensures |r| == 2 * |bytes|
  {
    if bytes == [] then []
    else [NibbleToHex(bytes[0] / 16), NibbleToHex(bytes[0] % 16)] + Encode(bytes[1..])
  }

  /** What `decode_hex` computes: parity is tested on bytes, pairs are read as characters. */
  function Decode(value: string): Result<Bytes, HexError> {
    if |Utf8.Encode(value)| % 2 != 0 then Err(OddLength) else DecodePairs(value)
  }

  function DecodePairs(chars: string): (r: Result<Bytes, HexError>)
    requires |Utf8.Encode(chars)| % 2 == 0
    ensures r.Ok? ==> |chars| == 2 * |r.value|
  {
    if chars == [] then Ok([])
    else if HexToNibble(chars[0]).None? then Err(BadDigit)
    else
      PairInRange(chars);
      if HexToNibble(chars[1]).None? then Err(BadDigit)
      else
        var rest :- DecodePairs(chars[2..]);
        Ok([16 * HexToNibble(chars[0]).value + HexToNibble(chars[1]).value] + rest)
  }

  /** A leading hex digit in a text of even byte length is always followed by a character. */
  lemma PairInRange(chars: string)
    requires chars != [] && IsHexDigit(chars[0])
    requires |Utf8.Encode(chars)| % 2 == 0
    ensures |chars| >= 2
    ensures IsHexDigit(chars[1]) ==> |Utf8.Encode(chars[2..])| % 2 == 0
  {
    if |chars| >= 2 {
      assert chars[1..][1..] == chars[2..];
      assert chars[1..][0] == chars[1];
    }
  }

  function Normalize(value: string): Result<string, HexError> {
    if |Utf8.Encode(value)| % 2 != 0 then Err(OddLength)
    else if !AllHexDigits(value) then Err(BadDigit)
    else Ok(LowerAll(value))
  }

  method EncodeHex(bytes: Bytes) returns (out: string)
    ensures out == Encode(bytes)
  {
    out := "";
    for i := 0 to |bytes|
      invariant out + Encode(bytes[i..]) == Encode(bytes)
    {
      var pair := [NibbleToHex(bytes[i] / 16), NibbleToHex(bytes[i] % 16)];
      assert bytes[i..][1..] == bytes[i + 1..];
      assert out + Encode(bytes[i..]) == out + pair + Encode(bytes[i + 1..]);
      out := out + pair;
    }
  }

  /** The character list is indexed in pairs after a test on the byte length only;
      the index `i + 1` is in range all the same. */
  method DecodeHex(value: string) returns (r: Result<Bytes, HexError>)
    ensures r == Decode(value)
  {
    if |Utf8.Encode(value)| % 2 != 0 {
      return Err(OddLength);
    }
    var out: Bytes := [];
    var i := 0;
    assert value[0..] == value && forall rest: Bytes :: out + rest == rest;
    while i < |value|
      invariant 0 <= i <= |value|
      invariant |Utf8.Encode(value[i..])| % 2 == 0
      invariant Decode(value) ==
                match DecodePairs(value[i..]) case Ok(rest) => Ok(out + rest) case Err(e) => Err(e)
    {
      var high := HexToNibble(value[i]);
      if high.None? {
        return Err(BadDigit);
      }
      PairInRange(value[i..]);
      assert value[i..][1] == value[i + 1];
      var low := HexToNibble(value[i + 1]);
      if low.None? {
        return Err(BadDigit);
      }
      var b: byte := 16 * high.value + low.value;
      assert value[i..][2..] == value[i + 2..];
      assert forall rest: Bytes :: out + ([b] + rest) == (out + [b]) + rest;
      out := out + [b];
      i := i + 2;
    }
    assert out + [] == out;
    return Ok(out);
  }

  lemma {:induction false} EncodeShape(bytes: Bytes)
    ensures AllHexDigits(Encode(bytes))
    ensures LowerAll(Encode(bytes)) == Encode(bytes)
    ensures |Utf8.Encode(Encode(bytes))| == 2 * |bytes|
  {
    if bytes != [] {
      EncodeShape(bytes[1..]);
      var e := Encode(bytes);
      assert e[1..] == [e[1]] + Encode(bytes[1..]);
      assert e[1..][1..] == Encode(bytes[1..]);
    }
  }

  lemma {:induction false} DecodePairsEncoded(bytes: Bytes)
    requires |Utf8.Encode(Encode(bytes))| % 2 == 0
    ensures DecodePairs(Encode(bytes)) == Ok(bytes)
  {
    if bytes != [] {
      var e := Encode(bytes);
      EncodeShape(bytes[1..]);
      assert e[2..] == Encode(bytes[1..]);
      assert e[0] == NibbleToHex(bytes[0] / 16) && e[1] == NibbleToHex(bytes[0] % 16);
      PairInRange(e);
      DecodePairsEncoded(bytes[1..]);
      assert bytes == [bytes[0]] + bytes[1..];
    }
  }

  /** Decoding inverts encoding. */
  lemma DecodeEncode(bytes: Bytes)
    ensures Decode(Encode(bytes)) == Ok(bytes)
  {
    EncodeShape(bytes);
    DecodeEvenLength(Encode(bytes), |bytes|);
    DecodePairsEncoded(bytes);
  }

  lemma DecodeEvenLength(text: string, n: nat)
    requires |Utf8.Encode(text)| == 2 * n
    ensures |Utf8.Encode(text)| % 2 == 0 && Decode(text) == DecodePairs(text)
  {
  }

  lemma EncodeInjective(a: Bytes, b: Bytes)
    requires Encode(a) == Encode(b)
    ensures a == b
  {
    DecodeEncode(a);
    DecodeEncode(b);
  }

  lemma {:induction false} DecodePairsNormal(chars: string)
    requires |Utf8.Encode(chars)| % 2 == 0
    ensures DecodePairs(chars).Ok? <==> AllHexDigits(chars)
    ensures DecodePairs(chars).Ok? ==> Encode(DecodePairs(chars).value) == LowerAll(chars)
  {
    if chars != [] && IsHexDigit(chars[0]) {
      PairInRange(chars);
      PairUnfold(chars);
      if IsHexDigit(chars[1]) {
        DecodePairsNormal(chars[2..]);
        if DecodePairs(chars[2..]).Ok? {
          EncodePair(chars[0], chars[1], DecodePairs(chars[2..]).value);
        }
      }
    }
  }

  lemma {:induction false} Unfold(chars: string)
    requires chars != []
    ensures AllHexDigits(chars) == (IsHexDigit(chars[0]) && AllHexDigits(chars[1..]))
    ensures LowerAll(chars) == [Lower(chars[0])] + LowerAll(chars[1..])
  {
  }

  lemma {:induction false} PairUnfold(chars: string)
    requires |chars| >= 2
    ensures AllHexDigits(chars) == (IsHexDigit(chars[0]) && IsHexDigit(chars[1]) && AllHexDigits(chars[2..]))
    ensures LowerAll(chars) == [Lower(chars[0])] + [Lower(chars[1])] + LowerAll(chars[2..])
  {
    Unfold(chars);
    Unfold(chars[1..]);
    assert chars[1..][0] == chars[1] && chars[1..][1..] == chars[2..];
  }

  lemma EncodePair(high: char, low: char, rest: Bytes)
    requires IsHexDigit(high) && IsHexDigit(low)
    ensures Encode([16 * HexToNibble(high).value + HexToNibble(low).value] + rest)
         == [Lower(high)] + [Lower(low)] + Encode(rest)
  {
    var h, l := HexToNibble(high).value, HexToNibble(low).value;
    var bytes: Bytes := [16 * h + l] + rest;
    assert bytes[1..] == rest;
    Nibbles(h, l);
    LowerDigit(high);
    LowerDigit(low);
  }

  lemma Nibbles(h: nat, l: nat)
    requires l < 16
    ensures (16 * h + l) / 16 == h && (16 * h + l) % 16 == l
  {
  }

  lemma LowerDigit(c: char)
    requires IsHexDigit(c)
    ensures NibbleToHex(HexToNibble(c).value) == Lower(c)
  {
  }

  /** `decode_hex` and `normalize_hex` accept the same texts, and re-encoding what was
      decoded is exactly normalisation. */
  lemma NormalizeIsDecodeEncode(value: string)
    ensures Decode(value).Ok? <==> Normalize(value).Ok?
    ensures Decode(value).Ok? ==> Normalize(value) == Ok(Encode(Decode(value).value))
  {
    if |Utf8.Encode(value)| % 2 == 0 {
      DecodePairsNormal(value);
    }
  }
}
