/** Canonical decimal text: src/decimal.rs.

    Every numeral of the runtime is normalised to plain notation without exponent,
    leading zeros or trailing fraction zeros, and bounded to 256 digits. */
module Decimal {
  import opened Prelude

  const MAX_DECIMAL_DIGITS: nat := 256

  datatype DecimalError =
    | Empty
    | Whitespace
    | PlusSign
    | MissingDigits
    | MalformedExponent
    | ExponentOutOfRange
    | MissingIntegerPart
    | EmptyFraction
    | NotDigits
    | NegativeZero
    | TooManyDigits
    | ExponentUnderflow
    | LeadingZeros
    | NonCanonical

  /** The Unicode White_Space characters that `str::trim` strips. */
  predicate IsWhitespace(c: char) {
    var n := c as int;
    0x09 <= n <= 0x0D || n == 0x20 || n == 0x85 || n == 0xA0 || n == 0x1680 || 0x2000 <= n <= 0x200A
    || n == 0x2028 || n == 0x2029 || n == 0x202F || n == 0x205F || n == 0x3000
  }

  predicate IsDigit(c: char) {
    '0' <= c <= '9'
  }

  predicate AllDigits(s: string) {
    forall i :: 0 <= i < |s| ==> IsDigit(s[i])
  }

  /** Number of leading characters of `s` outside `stops`. */
  function Span(s: string, stops: set<char>): (n: nat)
    ensures n <= |s|
    ensures forall i :: 0 <= i < n ==> s[i] !in stops
    ensures n < |s| ==> s[n] in stops
  {
    if s == [] || s[0] in stops then 0 else 1 + Span(s[1..], stops)
  }

  function Zeros(n: nat): (z: string)
    ensures |z| == n && forall i :: 0 <= i < n ==> z[i] == '0'
  {
    seq(n, _ => '0')
  }

  function StripZeros(s: string): (r: string)
    ensures r != [] ==> r[0] != '0'
    ensures |r| <= |s|
  {
    if s == [] then [] else if s[0] == '0' then StripZeros(s[1..]) else s
  }

  function TrimZeros(s: string): (r: string)
    ensures r != [] ==> r[|r| - 1] != '0'
    ensures |r| <= |s|
  {
    if s == [] then [] else if s[|s| - 1] == '0' then TrimZeros(s[..|s| - 1]) else s
  }

  function Pow10(n: nat): (p: nat)
    ensures p > 0
  {
    if n == 0 then 1 else 10 * Pow10(n - 1)
  }

  function Digit(c: char): nat
    requires IsDigit(c)
  {
    c as int - '0' as int
  }

  function DigitsValue(s: string): nat
    requires AllDigits(s)
  {
    if s == [] then 0 else 10 * DigitsValue(s[..|s| - 1]) + Digit(s[|s| - 1])
  }

  /** A numeral split at its marks, the exponent read as a 64-bit integer. */
  datatype Numeral = Numeral(negative: bool, intPart: string, fracPart: string, exponent: i64)

  function SplitExponent(unsigned: string): Result<(string, Option<string>), DecimalError> {
    var n := Span(unsigned, {'e', 'E'});
    if n == |unsigned| then Ok((unsigned, None))
    else if 'e' in unsigned[n + 1..] || 'E' in unsigned[n + 1..] then Err(MalformedExponent)
    else Ok((unsigned[..n], Some(unsigned[n + 1..])))
  }

  function ParseExponent(exponentPart: Option<string>): Result<i64, DecimalError> {
    match exponentPart
    case None => Ok(0)
    case Some(exponent) =>
      if exponent == [] then Err(MalformedExponent)
      else
        var digits := if exponent[0] == '-' || exponent[0] == '+' then exponent[1..] else exponent;
        if digits == [] || !AllDigits(digits) then Err(MalformedExponent)
        else if DigitsValue(digits) >= 0x8000_0000_0000_0000 then Err(ExponentOutOfRange)
        else
          var parsed: int := DigitsValue(digits);
          Ok(if exponent[0] == '-' then -parsed else parsed)
  }

  function ParseMantissa(mantissa: string): (r: Result<(string, string), DecimalError>)
    ensures r.Ok? ==> AllDigits(r.value.0) && AllDigits(r.value.1) && r.value.0 != []
  {
    var n := Span(mantissa, {'.'});
    var intPart := mantissa[..n];
    var fracPart := if n < |mantissa| then mantissa[n + 1..] else [];
    if intPart == [] && fracPart == [] then Err(MissingDigits)
    else if intPart == [] then Err(MissingIntegerPart)
    else if mantissa != [] && mantissa[|mantissa| - 1] == '.' then Err(EmptyFraction)
    else if !AllDigits(intPart) || !AllDigits(fracPart) then Err(NotDigits)
    else Ok((intPart, fracPart))
  }

  function ParseUnsigned(negative: bool, unsigned: string): (r: Result<Numeral, DecimalError>)
    ensures r.Ok? ==> ValidNumeral(r.value)
  {
    if unsigned == [] then Err(MissingDigits)
    else
      var (mantissa, exponentPart) :- SplitExponent(unsigned);
      var exponent :- ParseExponent(exponentPart);
      var (intPart, fracPart) :- ParseMantissa(mantissa);
      Ok(Numeral(negative, intPart, fracPart, exponent))
  }

  function SplitSign(input: string): Result<(bool, string), DecimalError> {
    if input == [] then Err(Empty)
    else if IsWhitespace(input[0]) || IsWhitespace(input[|input| - 1]) then Err(Whitespace)
    else if input[0] == '+' then Err(PlusSign)
    else if input[0] == '-' then Ok((true, input[1..]))
    else Ok((false, input))
  }

  function Parse(input: string): (r: Result<Numeral, DecimalError>)
    ensures r.Ok? ==> ValidNumeral(r.value)
  {
    var (negative, unsigned) :- SplitSign(input);
    ParseUnsigned(negative, unsigned)
  }

  predicate ValidNumeral(p: Numeral) {
    AllDigits(p.intPart) && AllDigits(p.fracPart) && p.intPart != []
  }

  /** Plain notation of `digits` times ten to the `shifted`. */
  function Expand(digits: string, shifted: int): string {
    if shifted >= 0 then digits + Zeros(shifted)
    else if |digits| > -shifted then
      var splitAt := |digits| + shifted;
      digits[..splitAt] + "." + digits[splitAt..]
    else "0." + Zeros(-shifted - |digits|) + digits
  }

  /** Drop the trailing zeros of the fraction, and the point when nothing is left. */
  function TrimFraction(text: string): string {
    var n := Span(text, {'.'});
    if n == |text| then text
    else
      var trimmed := TrimZeros(text[n + 1..]);
      if trimmed == [] then text[..n] else text[..n] + "." + trimmed
  }

  /** The final checks on a plain numeral, and its sign. */
  function Sign(negative: bool, canonical: string): Result<string, DecimalError> {
    if canonical != [] && canonical[0] == '0' && |canonical| > 1 && canonical[1] != '.' then
      Err(LeadingZeros)
    else if canonical != [] && canonical[|canonical| - 1] == '.' then Err(EmptyFraction)
    else if negative then
      if canonical == "0" then Err(NegativeZero) else Ok("-" + canonical)
    else Ok(canonical)
  }

  function Shift(negative: bool, digits: string, shifted: int): Result<string, DecimalError> {
    if shifted < -0x8000_0000_0000_0000 then Err(ExponentUnderflow)
    else
      var expanded := if shifted >= 0 then |digits| + shifted
                      else if |digits| > -shifted then |digits| else -shifted;
      if expanded > MAX_DECIMAL_DIGITS then Err(TooManyDigits)
      else Sign(negative, TrimFraction(Expand(digits, shifted)))
  }

  function Assemble(p: Numeral): Result<string, DecimalError> {
    var digits := StripZeros(p.intPart + p.fracPart);
    if digits == [] then
      if p.negative then Err(NegativeZero) else Ok("0")
    else if |digits| > MAX_DECIMAL_DIGITS then Err(TooManyDigits)
    else Shift(p.negative, digits, p.exponent as int - |p.fracPart|)
  }

  function Canonicalize(input: string): Result<string, DecimalError> {
    var p :- Parse(input);
    Assemble(p)
  }

  function Validate(input: string): Result<(), DecimalError> {
    var canonical :- Canonicalize(input);
    if canonical == input then Ok(()) else Err(NonCanonical)
  }

  // ---------------------------------------------------------------------------
  // Reference definitions: what a numeral denotes, and which texts are canonical.
  // ---------------------------------------------------------------------------

  ghost function Signed(negative: bool, n: nat): real {
    if negative then -(n as real) else n as real
  }

  /** The rational number n * 10^e, negated on demand. */
  ghost function Rational(negative: bool, n: nat, e: int): real {
    if e >= 0 then Signed(negative, n) * (Pow10(e) as real)
    else Signed(negative, n) / (Pow10(-e) as real)
  }

  /** How a number is written: a sign, whole digits, fraction digits after a point, and an
      exponent after a mark. */
  datatype Exponent = Exponent(mark: char, sign: string, digits: string)

  datatype Notation = Notation(negative: bool, whole: string, frac: string, exponent: Option<Exponent>)

  predicate ValidExponent(x: Exponent) {
    && (x.mark == 'e' || x.mark == 'E') && (x.sign == "" || x.sign == "+" || x.sign == "-")
    && x.digits != [] && AllDigits(x.digits)
  }

  predicate ValidNotation(n: Notation) {
    && n.whole != [] && AllDigits(n.whole) && AllDigits(n.frac)
    && (n.exponent.Some? ==> ValidExponent(n.exponent.value))
  }

  function Join(whole: string, frac: string): string {
    if frac == [] then whole else whole + "." + frac
  }

  function Mantissa(n: Notation): string {
    Join(n.whole, n.frac)
  }

  function ExponentText(x: Option<Exponent>): string {
    match x case None => "" case Some(e) => [e.mark] + (e.sign + e.digits)
  }

  function Unsigned(n: Notation): string {
    Mantissa(n) + ExponentText(n.exponent)
  }

  function Written(n: Notation): string {
    (if n.negative then "-" else "") + Unsigned(n)
  }

  function PowerOf(x: Exponent): int
    requires ValidExponent(x)
  {
    var n: int := DigitsValue(x.digits);
    if x.sign == "-" then -n else n
  }

  function Power(n: Notation): int
    requires ValidNotation(n)
  {
    match n.exponent case None => 0 case Some(x) => PowerOf(x)
  }

  ghost function ValueOf(n: Notation): real
    requires ValidNotation(n)
  {
    Rational(n.negative, DigitsValue(n.whole + n.frac), Power(n) - |n.frac|)
  }

  /** The number a text denotes, read off its characters. */
  ghost function Denotes(input: string): Option<real> {
    if exists n :: ValidNotation(n) && Written(n) == input then
      var n :| ValidNotation(n) && Written(n) == input;
      Some(ValueOf(n))
    else None
  }

  predicate InRange(power: int) {
    -0x8000_0000_0000_0000 < power < 0x8000_0000_0000_0000
  }

  /** The digits that are left once leading zeros are dropped, and how far they reach to
      either side of the point, are all at most 256; zero has no sign. */
  predicate Fits(n: Notation)
    requires ValidNotation(n)
  {
    var digits, shift: int := StripZeros(n.whole + n.frac), Power(n) - |n.frac|;
    && InRange(Power(n))
    && (if digits == [] then !n.negative
        else |digits| <= MAX_DECIMAL_DIGITS && |digits| + shift <= MAX_DECIMAL_DIGITS && -shift <= MAX_DECIMAL_DIGITS)
  }

  ghost function NumeralValue(p: Numeral): real
    requires ValidNumeral(p)
  {
    Rational(p.negative, DigitsValue(p.intPart + p.fracPart), p.exponent as int - |p.fracPart|)
  }

  /** Whole part without leading zeros, fraction not ending in 0, never minus zero,
      both the fraction and the digits after leading zeros at most 256 long. */
  predicate CanonicalParts(negative: bool, whole: string, frac: string) {
    && AllDigits(whole) && AllDigits(frac)
    && whole != [] && (whole[0] == '0' ==> |whole| == 1)
    && (frac != [] ==> frac[|frac| - 1] != '0')
    && !(negative && whole == "0" && frac == [])
    && |frac| <= MAX_DECIMAL_DIGITS
    && |StripZeros(whole + frac)| <= MAX_DECIMAL_DIGITS
  }

  function Render(negative: bool, whole: string, frac: string): string {
    (if negative then "-" else "") + Join(whole, frac)
  }

  ghost predicate IsCanonical(text: string) {
    exists negative, whole, frac ::
      CanonicalParts(negative, whole, frac) && text == Render(negative, whole, frac)
  }

  // ---------------------------------------------------------------------------
  // Arithmetic of digit strings.
  // ---------------------------------------------------------------------------

  lemma FactorBound(a: nat, p: nat)
    requires p > 0
    ensures a <= a * p == p * a
  {
  }

  lemma {:induction false} PowAdd(a: nat, b: nat)
    ensures Pow10(a + b) == Pow10(a) * Pow10(b)
  {
    if a > 0 {
      PowAdd(a - 1, b);
    }
  }

  lemma {:induction false} PowMonotone(a: nat, b: nat)
    requires a <= b
    ensures Pow10(a) <= Pow10(b)
  {
    PowAdd(a, b - a);
    assert Pow10(a) * 1 <= Pow10(a) * Pow10(b - a);
  }

  lemma {:induction false} ValueAppend(s: string, t: string)
    requires AllDigits(s) && AllDigits(t)
    ensures AllDigits(s + t)
    ensures DigitsValue(s + t) == DigitsValue(s) * Pow10(|t|) + DigitsValue(t)
  {
    if t == [] {
      assert s + t == s;
    } else {
      var t' := t[..|t| - 1];
      ValueAppend(s, t');
      assert (s + t)[..|s + t| - 1] == s + t';
      assert DigitsValue(s) * Pow10(|t|) == 10 * (DigitsValue(s) * Pow10(|t'|));
    }
  }

  lemma {:induction false} ValueBound(s: string)
    requires AllDigits(s)
    ensures DigitsValue(s) < Pow10(|s|)
  {
    if s != [] {
      ValueBound(s[..|s| - 1]);
    }
  }

  lemma {:induction false} ValueZeros(n: nat)
    ensures AllDigits(Zeros(n)) && DigitsValue(Zeros(n)) == 0
  {
    if n > 0 {
      ValueZeros(n - 1);
      assert Zeros(n)[..n - 1] == Zeros(n - 1);
    }
  }

  lemma {:induction false} StripShape(s: string)
    ensures s == Zeros(|s| - |StripZeros(s)|) + StripZeros(s)
  {
    if s != [] && s[0] == '0' {
      StripShape(s[1..]);
      assert s == ['0'] + s[1..];
    }
  }

  lemma {:induction false} TrimShape(s: string)
    ensures s == TrimZeros(s) + Zeros(|s| - |TrimZeros(s)|)
  {
    if s != [] && s[|s| - 1] == '0' {
      TrimShape(s[..|s| - 1]);
      assert s == s[..|s| - 1] + ['0'];
    }
  }

  lemma {:induction false} StripKeepsValue(s: string)
    requires AllDigits(s)
    ensures AllDigits(StripZeros(s)) && DigitsValue(StripZeros(s)) == DigitsValue(s)
  {
    if s != [] && s[0] == '0' {
      StripKeepsValue(s[1..]);
      assert s == ['0'] + s[1..];
      ValueAppend(['0'], s[1..]);
      assert DigitsValue(['0']) == 10 * DigitsValue(['0'][..0]) + 0;
    }
  }

  lemma LeadingDigit(s: string)
    requires AllDigits(s) && s != [] && s[0] != '0'
    ensures DigitsValue(s) >= Pow10(|s| - 1)
  {
    assert s == s[..1] + s[1..];
    ValueAppend(s[..1], s[1..]);
    assert DigitsValue(s[..1]) == 10 * DigitsValue(s[..1][..0]) + Digit(s[0]);
    FactorBound(Pow10(|s| - 1), DigitsValue(s[..1]));
  }

  /** Digit strings of one length are numerals in base ten: equal value, equal text. */
  lemma {:induction false} SameLengthSameValue(s: string, t: string)
    requires AllDigits(s) && AllDigits(t) && |s| == |t|
    requires DigitsValue(s) == DigitsValue(t)
    ensures s == t
  {
    if s != [] {
      var n := |s| - 1;
      SameLengthSameValue(s[..n], t[..n]);
      assert s == s[..n] + [s[n]] && t == t[..n] + [t[n]];
    }
  }

  lemma {:induction false} RationalScale(negative: bool, n: nat, k: nat, e: int)
    ensures Rational(negative, n * Pow10(k), e) == Rational(negative, n, e + k)
  {
    if k > 0 {
      var q := Pow10(k - 1);
      RationalScale(negative, n, k - 1, e + 1);
      RationalTimesTen(negative, n * q, e);
      TenOut(n, q);
    }
  }

  lemma TenOut(n: nat, q: nat)
    ensures n * (10 * q) == 10 * (n * q)
  {
  }

  lemma RationalTimesTen(negative: bool, n: nat, e: int)
    ensures Rational(negative, 10 * n, e) == Rational(negative, n, e + 1)
  {
    SignedTen(negative, n);
    if e >= 0 {
      ScaleUp(Signed(negative, n), Signed(negative, 10 * n), Pow10(e), Pow10(e + 1));
    } else {
      ScaleDown(Signed(negative, n), Signed(negative, 10 * n), Pow10(-e - 1), Pow10(-e));
    }
  }

  lemma SignedTen(negative: bool, n: nat)
    ensures Signed(negative, 10 * n) == 10.0 * Signed(negative, n)
  {
  }

  lemma ScaleUp(m: real, m10: real, p: nat, p10: nat)
    requires m10 == 10.0 * m && p10 == 10 * p
    ensures m10 * (p as real) == m * (p10 as real)
  {
    assert p10 as real == 10.0 * (p as real);
    MoveTen(m, p as real);
  }

  lemma ScaleDown(m: real, m10: real, p: nat, p10: nat)
    requires m10 == 10.0 * m && p10 == 10 * p && p > 0
    ensures m10 / (p10 as real) == m / (p as real)
  {
    assert p10 as real == 10.0 * (p as real);
    CancelTen(m, p as real);
  }

  lemma MoveTen(m: real, p: real)
    ensures (10.0 * m) * p == m * (10.0 * p)
  {
  }

  lemma CancelTen(m: real, p: real)
    requires p > 0.0
    ensures (10.0 * m) / (10.0 * p) == m / p
  {
    var q := m / p;
    assert m == q * p;
    assert 10.0 * m == q * (10.0 * p);
  }

  /** Equality of two fractions, cleared of denominators. */
  lemma RationalCross(neg1: bool, n1: nat, k1: nat, neg2: bool, n2: nat, k2: nat)
    requires Rational(neg1, n1, -(k1 as int)) == Rational(neg2, n2, -(k2 as int))
    ensures n1 * Pow10(k2) == n2 * Pow10(k1)
    ensures n1 > 0 ==> neg1 == neg2
  {
    var p1, p2 := Pow10(k1), Pow10(k2);
    RationalQuotient(neg1, n1, k1);
    RationalQuotient(neg2, n2, k2);
    QuotientCross(Signed(neg1, n1), p1 as real, Signed(neg2, n2), p2 as real);
    SignedProduct(neg1, n1, p2);
    SignedProduct(neg2, n2, p1);
    FactorBound(n1, p2);
    FactorBound(n2, p1);
  }

  lemma SignedProduct(negative: bool, n: nat, p: nat)
    ensures Signed(negative, n) * (p as real) == Signed(negative, n * p)
  {
    assert (n as real) * (p as real) == (n * p) as real;
  }

  lemma RationalQuotient(negative: bool, n: nat, k: nat)
    ensures Rational(negative, n, -(k as int)) == Signed(negative, n) / (Pow10(k) as real)
  {
  }

  lemma QuotientCross(a: real, b: real, c: real, d: real)
    requires b > 0.0 && d > 0.0 && a / b == c / d
    ensures a * d == c * b
  {
    var q := a / b;
    assert a == q * b && c == q * d;
  }

  // ---------------------------------------------------------------------------
  // The shape of what Assemble returns.
  // ---------------------------------------------------------------------------

  /** Whole and fractional digits of Expand before trimming. */
  function Whole(digits: string, shifted: int): string {
    if shifted >= 0 then digits + Zeros(shifted)
    else if |digits| > -shifted then digits[..|digits| + shifted]
    else "0"
  }

  function Frac(digits: string, shifted: int): string {
    if shifted >= 0 then []
    else if |digits| > -shifted then digits[|digits| + shifted..]
    else Zeros(-shifted - |digits|) + digits
  }

  lemma {:induction false} SpanOfWhole(whole: string, rest: string)
    requires AllDigits(whole)
    ensures Span(whole + rest, {'.'}) == |whole| + Span(rest, {'.'})
  {
    if whole == [] {
      assert whole + rest == rest;
    } else {
      assert IsDigit(whole[0]);
      assert (whole + rest)[1..] == whole[1..] + rest;
      SpanOfWhole(whole[1..], rest);
    }
  }

  /** A text of digits and at most one point splits where Join put the point. */
  lemma JoinSpan(whole: string, frac: string)
    requires AllDigits(whole)
    ensures Span(whole, {'.'}) == |whole|
    ensures Span(whole + "." + frac, {'.'}) == |whole|
    ensures (whole + "." + frac)[..|whole|] == whole
    ensures (whole + "." + frac)[|whole| + 1..] == frac
  {
    SpanOfWhole(whole, []);
    assert whole + [] == whole;
    SpanOfWhole(whole, "." + frac);
    assert whole + ("." + frac) == whole + "." + frac;
    assert Span("." + frac, {'.'}) == 0;
  }

  lemma ExpandShape(digits: string, shifted: int)
    requires AllDigits(digits) && digits != [] && digits[0] != '0'
    ensures AllDigits(Whole(digits, shifted)) && AllDigits(Frac(digits, shifted))
    ensures |Frac(digits, shifted)| == if shifted >= 0 then 0 else -shifted
    ensures TrimFraction(Expand(digits, shifted))
         == Join(Whole(digits, shifted), TrimZeros(Frac(digits, shifted)))
  {
    ExpandParts(digits, shifted);
    JoinSpan(Whole(digits, shifted), Frac(digits, shifted));
  }

  lemma ExpandParts(digits: string, shifted: int)
    requires AllDigits(digits) && digits != []
    ensures AllDigits(Whole(digits, shifted)) && AllDigits(Frac(digits, shifted))
    ensures |Frac(digits, shifted)| == if shifted >= 0 then 0 else -shifted
    ensures Expand(digits, shifted)
         == if shifted >= 0 then Whole(digits, shifted) else Whole(digits, shifted) + "." + Frac(digits, shifted)
  {
  }

  lemma ExpandValue(digits: string, shifted: int)
    requires AllDigits(digits) && digits != [] && digits[0] != '0'
    ensures AllDigits(Whole(digits, shifted) + Frac(digits, shifted))
    ensures DigitsValue(Whole(digits, shifted) + Frac(digits, shifted))
         == DigitsValue(digits) * Pow10(if shifted >= 0 then shifted else 0)
  {
    var whole, frac := Whole(digits, shifted), Frac(digits, shifted);
    assert DigitsValue(digits) * Pow10(0) == DigitsValue(digits);
    if shifted >= 0 {
      assert whole + frac == digits + Zeros(shifted);
      ValueZeros(shifted);
      ValueAppend(digits, Zeros(shifted));
    } else if |digits| > -shifted {
      assert whole + frac == digits;
    } else {
      var zeros := 1 - shifted - |digits|;
      assert whole + frac == Zeros(zeros) + digits;
      ValueZeros(zeros);
      ValueAppend(Zeros(zeros), digits);
    }
  }

  lemma TrimKeepsDigits(s: string)
    requires AllDigits(s)
    ensures AllDigits(TrimZeros(s))
  {
    TrimShape(s);
    forall i | 0 <= i < |TrimZeros(s)| ensures IsDigit(TrimZeros(s)[i]) {
      assert TrimZeros(s)[i] == s[i];
    }
  }

  /** Trimming the fraction divides the digits by a power of ten. */
  lemma TrimmedValue(whole: string, full: string)
    requires AllDigits(whole) && AllDigits(full)
    ensures AllDigits(whole + full) && AllDigits(whole + TrimZeros(full))
    ensures DigitsValue(whole + full)
         == DigitsValue(whole + TrimZeros(full)) * Pow10(|full| - |TrimZeros(full)|)
  {
    var frac := TrimZeros(full);
    TrimKeepsDigits(full);
    TrimShape(full);
    var zeros := Zeros(|full| - |frac|);
    assert whole + full == (whole + frac) + zeros;
    ValueZeros(|zeros|);
    ValueAppend(whole + frac, zeros);
  }

  /** Digits are stripped of zeros on the left only as far as the value demands. */
  lemma StripLength(s: string, bound: nat)
    requires AllDigits(s) && DigitsValue(s) < Pow10(bound)
    ensures |StripZeros(s)| <= bound
  {
    var r := StripZeros(s);
    StripKeepsValue(s);
    if |r| > bound {
      LeadingDigit(r);
      PowMonotone(bound, |r| - 1);
    }
  }

  /** The value survives expansion and trimming. */
  lemma ExpandedValue(negative: bool, digits: string, shifted: int, whole: string, frac: string)
    requires AllDigits(digits) && digits != [] && digits[0] != '0'
    requires whole == Whole(digits, shifted) && frac == TrimZeros(Frac(digits, shifted))
    ensures AllDigits(whole + frac)
    ensures Rational(negative, DigitsValue(whole + frac), -|frac|)
         == Rational(negative, DigitsValue(digits), shifted)
  {
    var n, dropped, k := ExpandedDigits(digits, shifted, whole, frac);
    RationalScale(negative, n, dropped, -|frac| - dropped);
    RationalScale(negative, DigitsValue(digits), k, shifted - k);
  }

  /** Digits before trimming, as a multiple of the trimmed ones and of the input's. */
  lemma ExpandedDigits(digits: string, shifted: int, whole: string, frac: string)
    returns (n: nat, dropped: nat, k: nat)
    requires AllDigits(digits) && digits != [] && digits[0] != '0'
    requires whole == Whole(digits, shifted) && frac == TrimZeros(Frac(digits, shifted))
    ensures AllDigits(whole + frac) && n == DigitsValue(whole + frac)
    ensures k == (if shifted >= 0 then shifted else 0)
    ensures |frac| + dropped == (if shifted >= 0 then 0 else -shifted)
    ensures n * Pow10(dropped) == DigitsValue(digits) * Pow10(k)
  {
    var full := Frac(digits, shifted);
    ExpandShape(digits, shifted);
    TrimShape(full);
    n, dropped, k := ExpandedProduct(digits, shifted, whole, full);
  }

  lemma ExpandedProduct(digits: string, shifted: int, whole: string, full: string)
    returns (n: nat, dropped: nat, k: nat)
    requires AllDigits(digits) && digits != [] && digits[0] != '0'
    requires whole == Whole(digits, shifted) && full == Frac(digits, shifted)
    requires AllDigits(whole) && AllDigits(full) && |TrimZeros(full)| <= |full|
    ensures AllDigits(whole + TrimZeros(full)) && n == DigitsValue(whole + TrimZeros(full))
    ensures k == (if shifted >= 0 then shifted else 0) && dropped == |full| - |TrimZeros(full)|
    ensures n * Pow10(dropped) == DigitsValue(digits) * Pow10(k)
  {
    ExpandValue(digits, shifted);
    TrimmedValue(whole, full);
    n := DigitsValue(whole + TrimZeros(full));
    dropped, k := |full| - |TrimZeros(full)|, if shifted >= 0 then shifted else 0;
  }

  /** The bound on the expanded digits bounds the canonical text. */
  lemma ExpandedBound(digits: string, shifted: int, whole: string, frac: string)
    requires AllDigits(digits) && digits != [] && digits[0] != '0'
    requires whole == Whole(digits, shifted) && frac == TrimZeros(Frac(digits, shifted))
    ensures AllDigits(whole + frac)
    ensures |StripZeros(whole + frac)| <= |digits| + if shifted >= 0 then shifted else 0
  {
    var n, dropped, k := ExpandedDigits(digits, shifted, whole, frac);
    ValueBound(digits);
    PowAdd(|digits|, k);
    StrictProduct(DigitsValue(digits), Pow10(|digits|), Pow10(k));
    FactorBound(n, Pow10(dropped));
    StripLength(whole + frac, |digits| + k);
  }

  lemma StrictProduct(a: nat, b: nat, p: nat)
    requires a < b && p > 0
    ensures a * p < b * p
  {
    FactorBound(p, b - a);
    assert b * p == a * p + p * (b - a);
  }

  /** A nonzero number cannot lose every digit. */
  lemma ExpandedNonZero(digits: string, shifted: int)
    requires AllDigits(digits) && digits != [] && digits[0] != '0'
    requires Whole(digits, shifted)[0] == '0'
    ensures Whole(digits, shifted) == "0" && TrimZeros(Frac(digits, shifted)) != []
  {
    var full := Frac(digits, shifted);
    TrimShape(full);
    assert full[|full| - |digits|] == digits[0];
  }

  /** The defensive rejections after trimming are unreachable: the parts are canonical. */
  lemma ExpandedParts(negative: bool, digits: string, shifted: int, whole: string, frac: string)
    requires AllDigits(digits) && digits != [] && digits[0] != '0'
    requires whole == Whole(digits, shifted) && frac == TrimZeros(Frac(digits, shifted))
    requires |digits| <= MAX_DECIMAL_DIGITS && -shifted <= MAX_DECIMAL_DIGITS
    requires shifted >= 0 ==> |digits| + shifted <= MAX_DECIMAL_DIGITS
    ensures CanonicalParts(negative, whole, frac)
    ensures TrimFraction(Expand(digits, shifted)) == Join(whole, frac)
    ensures Join(whole, frac) != "0"
  {
    ExpandShape(digits, shifted);
    TrimKeepsDigits(Frac(digits, shifted));
    ExpandedBound(digits, shifted, whole, frac);
    if whole[0] == '0' {
      ExpandedNonZero(digits, shifted);
    }
  }

  lemma JoinSigned(negative: bool, whole: string, frac: string)
    requires CanonicalParts(negative, whole, frac) && Join(whole, frac) != "0"
    ensures Sign(negative, Join(whole, frac)) == Ok(Render(negative, whole, frac))
  {
    assert IsDigit(whole[|whole| - 1]);
    assert frac != [] ==> IsDigit(frac[|frac| - 1]);
    assert "" + Join(whole, frac) == Join(whole, frac);
  }

  /** What a nonzero number is turned into: its digits expanded, then trimmed. */
  lemma ShiftParts(negative: bool, digits: string, shifted: int, whole: string, frac: string)
    requires AllDigits(digits) && digits != [] && digits[0] != '0'
    requires whole == Whole(digits, shifted) && frac == TrimZeros(Frac(digits, shifted))
    requires |digits| <= MAX_DECIMAL_DIGITS && -shifted <= MAX_DECIMAL_DIGITS
    requires shifted >= 0 ==> |digits| + shifted <= MAX_DECIMAL_DIGITS
    ensures CanonicalParts(negative, whole, frac)
    ensures Shift(negative, digits, shifted) == Ok(Render(negative, whole, frac))
  {
    ExpandedParts(negative, digits, shifted, whole, frac);
    JoinSigned(negative, whole, frac);
  }

  lemma ZeroParts()
    ensures CanonicalParts(false, "0", []) && Render(false, "0", []) == "0"
    ensures DigitsValue("0" + []) == 0
    ensures Rational(false, 0, 0) == 0.0
  {
    assert "0" + [] == Zeros(1);
    ValueZeros(1);
    assert StripZeros("0" + []) == StripZeros(("0" + [])[1..]) == [];
  }

  /** The canonical parts that Assemble puts together. */
  lemma AssembleParts(p: Numeral) returns (whole: string, frac: string)
    requires ValidNumeral(p) && Assemble(p).Ok?
    ensures CanonicalParts(p.negative, whole, frac)
    ensures Assemble(p) == Ok(Render(p.negative, whole, frac))
    ensures Rational(p.negative, DigitsValue(whole + frac), -|frac|) == NumeralValue(p)
  {
    if StripZeros(p.intPart + p.fracPart) == [] {
      whole, frac := AssembleZero(p);
    } else {
      whole, frac := AssembleNonZero(p);
    }
  }

  lemma AssembleZero(p: Numeral) returns (whole: string, frac: string)
    requires ValidNumeral(p) && Assemble(p).Ok? && StripZeros(p.intPart + p.fracPart) == []
    ensures CanonicalParts(p.negative, whole, frac)
    ensures Assemble(p) == Ok(Render(p.negative, whole, frac))
    ensures Rational(p.negative, DigitsValue(whole + frac), -|frac|) == NumeralValue(p)
  {
    whole, frac := "0", [];
    ZeroParts();
    StripKeepsValue(p.intPart + p.fracPart);
    RationalZero(p.exponent as int - |p.fracPart|);
    RationalZero(0);
  }

  lemma AssembleNonZero(p: Numeral) returns (whole: string, frac: string)
    requires ValidNumeral(p) && Assemble(p).Ok? && StripZeros(p.intPart + p.fracPart) != []
    ensures CanonicalParts(p.negative, whole, frac)
    ensures Assemble(p) == Ok(Render(p.negative, whole, frac))
    ensures Rational(p.negative, DigitsValue(whole + frac), -|frac|) == NumeralValue(p)
  {
    var digits := StripZeros(p.intPart + p.fracPart);
    var shifted: int := p.exponent as int - |p.fracPart|;
    whole, frac := Whole(digits, shifted), TrimZeros(Frac(digits, shifted));
    StripKeepsValue(p.intPart + p.fracPart);
    AssembleText(p, digits, shifted, whole, frac);
    ExpandedValue(p.negative, digits, shifted, whole, frac);
    NumeralDigits(p, DigitsValue(digits), shifted);
  }

  lemma NumeralDigits(p: Numeral, n: nat, shifted: int)
    requires ValidNumeral(p) && n == DigitsValue(p.intPart + p.fracPart)
    requires shifted == p.exponent as int - |p.fracPart|
    ensures NumeralValue(p) == Rational(p.negative, n, shifted)
  {
  }

  lemma AssembleShifts(p: Numeral, digits: string, shifted: int)
    requires Assemble(p).Ok? && digits == StripZeros(p.intPart + p.fracPart) && digits != []
    requires shifted == p.exponent as int - |p.fracPart|
    ensures Assemble(p) == Shift(p.negative, digits, shifted)
    ensures |digits| <= MAX_DECIMAL_DIGITS && -shifted <= MAX_DECIMAL_DIGITS
    ensures shifted >= 0 ==> |digits| + shifted <= MAX_DECIMAL_DIGITS
  {
  }

  lemma AssembleText(p: Numeral, digits: string, shifted: int, whole: string, frac: string)
    requires Assemble(p).Ok? && digits == StripZeros(p.intPart + p.fracPart)
    requires digits != [] && digits[0] != '0' && AllDigits(digits)
    requires shifted == p.exponent as int - |p.fracPart|
    requires whole == Whole(digits, shifted) && frac == TrimZeros(Frac(digits, shifted))
    ensures CanonicalParts(p.negative, whole, frac)
    ensures Assemble(p) == Ok(Render(p.negative, whole, frac))
  {
    AssembleShifts(p, digits, shifted);
    ShiftParts(p.negative, digits, shifted, whole, frac);
  }

  lemma RationalZero(e: int)
    ensures Rational(false, 0, e) == 0.0
  {
  }

  // ---------------------------------------------------------------------------
  // Canonical texts are read back as they stand.
  // ---------------------------------------------------------------------------

  lemma {:induction false} SpanAll(s: string, stops: set<char>)
    requires forall i :: 0 <= i < |s| ==> s[i] !in stops
    ensures Span(s, stops) == |s|
  {
    if s != [] {
      SpanAll(s[1..], stops);
    }
  }

  lemma JoinChars(whole: string, frac: string)
    requires whole != [] && AllDigits(whole) && AllDigits(frac)
    ensures var text := Join(whole, frac);
            text != [] && IsDigit(text[0]) && IsDigit(text[|text| - 1])
            && forall i :: 0 <= i < |text| ==> IsDigit(text[i]) || text[i] == '.'
  {
    var text := Join(whole, frac);
    forall i | 0 <= i < |text| ensures IsDigit(text[i]) || text[i] == '.' {
      if i < |whole| {
        assert text[i] == whole[i];
      } else if i > |whole| {
        assert text[i] == frac[i - |whole| - 1];
      }
    }
  }

  lemma JoinMantissa(whole: string, frac: string)
    requires whole != [] && AllDigits(whole) && AllDigits(frac)
    ensures ParseMantissa(Join(whole, frac)) == Ok((whole, frac))
  {
    var text := Join(whole, frac);
    JoinSpan(whole, frac);
    JoinChars(whole, frac);
    assert Span(text, {'.'}) == |whole|;
    assert text[..|whole|] == whole;
  }

  lemma UnsignedParses(negative: bool, whole: string, frac: string)
    requires CanonicalParts(negative, whole, frac)
    ensures ParseUnsigned(negative, Join(whole, frac)) == Ok(Numeral(negative, whole, frac, 0))
  {
    JoinChars(whole, frac);
    JoinMantissa(whole, frac);
    SpanAll(Join(whole, frac), {'e', 'E'});
  }

  lemma ParseSigned(negative: bool, unsigned: string)
    requires unsigned != [] && IsDigit(unsigned[0]) && IsDigit(unsigned[|unsigned| - 1])
    ensures SplitSign((if negative then "-" else "") + unsigned) == Ok((negative, unsigned))
  {
    if negative {
      var text := "-" + unsigned;
      assert text[1..] == unsigned && text[|text| - 1] == unsigned[|unsigned| - 1];
    } else {
      assert (if negative then "-" else "") + unsigned == unsigned;
    }
  }

  lemma CanonicalParses(negative: bool, whole: string, frac: string)
    requires CanonicalParts(negative, whole, frac)
    ensures Parse(Render(negative, whole, frac)) == Ok(Numeral(negative, whole, frac, 0))
  {
    UnsignedParses(negative, whole, frac);
    UnsignedEnds(negative, whole, frac);
    ParseSigned(negative, Join(whole, frac));
  }

  lemma UnsignedEnds(negative: bool, whole: string, frac: string)
    requires CanonicalParts(negative, whole, frac)
    ensures var text := Join(whole, frac); text != [] && IsDigit(text[0]) && IsDigit(text[|text| - 1])
  {
    JoinChars(whole, frac);
  }

  /** Digits of a canonical text are expanded back to the text itself. */
  lemma CanonicalDigits(negative: bool, whole: string, frac: string)
    requires CanonicalParts(negative, whole, frac) && StripZeros(whole + frac) != []
    ensures var digits := StripZeros(whole + frac);
            (|frac| == 0 ==> |digits| <= MAX_DECIMAL_DIGITS)
            && Whole(digits, -|frac|) == whole && Frac(digits, -|frac|) == frac
  {
    var all := whole + frac;
    var digits := StripZeros(all);
    StripShape(all);
    if whole[0] == '0' {
      var zeros := |all| - |digits|;
      assert frac == all[1..] == Zeros(zeros - 1) + digits;
    } else {
      assert all[0] == whole[0];
      assert digits == all;
    }
  }

  lemma CanonicalFixed(negative: bool, whole: string, frac: string)
    requires CanonicalParts(negative, whole, frac)
    ensures Assemble(Numeral(negative, whole, frac, 0)) == Ok(Render(negative, whole, frac))
  {
    var all := whole + frac;
    var digits := StripZeros(all);
    if digits == [] {
      StripShape(all);
      assert all[|all| - 1] == '0' && all[0] == '0';
      assert whole == "0" && frac == [];
      ZeroParts();
    } else {
      CanonicalDigits(negative, whole, frac);
      StripKeepsValue(all);
      assert TrimZeros(frac) == frac;
      ShiftParts(negative, digits, -|frac|, whole, frac);
    }
  }

  // ---------------------------------------------------------------------------
  // The parser reads what is written.
  // ---------------------------------------------------------------------------

  lemma {:induction false} SpanTo(s: string, rest: string, stops: set<char>)
    requires forall i :: 0 <= i < |s| ==> s[i] !in stops
    requires rest != [] ==> rest[0] in stops
    ensures Span(s + rest, stops) == |s|
  {
    if s == [] {
      assert s + rest == rest;
    } else {
      assert (s + rest)[1..] == s[1..] + rest;
      SpanTo(s[1..], rest, stops);
    }
  }

  lemma ExponentChars(x: Exponent)
    requires ValidExponent(x)
    ensures var t := x.sign + x.digits;
            t != [] && IsDigit(t[|t| - 1]) && 'e' !in t && 'E' !in t
  {
  }

  lemma WrittenExponent(x: Exponent)
    requires ValidExponent(x)
    ensures ParseExponent(Some(x.sign + x.digits))
         == if DigitsValue(x.digits) >= 0x8000_0000_0000_0000 then Err(ExponentOutOfRange) else Ok(PowerOf(x))
  {
    var t := x.sign + x.digits;
    if x.sign == "" {
      assert t == x.digits && IsDigit(t[0]);
    } else {
      assert t[0] == x.sign[0] && t[1..] == x.digits;
    }
  }

  function ExponentPart(x: Option<Exponent>): Option<string> {
    match x case None => None case Some(e) => Some(e.sign + e.digits)
  }

  lemma SplitAtMark(mantissa: string, mark: char, text: string)
    requires 'e' !in mantissa && 'E' !in mantissa && 'e' !in text && 'E' !in text && (mark == 'e' || mark == 'E')
    ensures SplitExponent(mantissa + ([mark] + text)) == Ok((mantissa, Some(text)))
  {
    var all := mantissa + ([mark] + text);
    SpanTo(mantissa, [mark] + text, {'e', 'E'});
    assert all[..|mantissa|] == mantissa && all[|mantissa| + 1..] == text;
  }

  lemma WrittenSplit(n: Notation)
    requires ValidNotation(n)
    ensures SplitExponent(Unsigned(n)) == Ok((Mantissa(n), ExponentPart(n.exponent)))
  {
    JoinChars(n.whole, n.frac);
    var m := Mantissa(n);
    assert 'e' !in m && 'E' !in m;
    if n.exponent.None? {
      assert Unsigned(n) == m;
      SpanAll(m, {'e', 'E'});
    } else {
      ExponentChars(n.exponent.value);
      SplitAtMark(m, n.exponent.value.mark, n.exponent.value.sign + n.exponent.value.digits);
    }
  }

  lemma EndsOfBoth(a: string, b: string)
    requires a != [] && IsDigit(a[0]) && IsDigit(a[|a| - 1]) && (b != [] ==> IsDigit(b[|b| - 1]))
    ensures a + b != [] && IsDigit((a + b)[0]) && IsDigit((a + b)[|a + b| - 1])
  {
  }

  lemma ExponentEnd(x: Option<Exponent>)
    requires x.Some? ==> ValidExponent(x.value)
    ensures ExponentText(x) != [] ==> IsDigit(ExponentText(x)[|ExponentText(x)| - 1])
  {
    if x.Some? {
      ExponentChars(x.value);
    }
  }

  lemma WrittenSign(n: Notation)
    requires ValidNotation(n)
    ensures SplitSign(Written(n)) == Ok((n.negative, Unsigned(n))) && Unsigned(n) != []
  {
    JoinChars(n.whole, n.frac);
    ExponentEnd(n.exponent);
    EndsOfBoth(Mantissa(n), ExponentText(n.exponent));
    ParseSigned(n.negative, Unsigned(n));
  }

  lemma PartsParse(negative: bool, unsigned: string, mantissa: string, part: Option<string>)
    requires unsigned != [] && SplitExponent(unsigned) == Ok((mantissa, part)) && ParseMantissa(mantissa).Ok?
    ensures ParseUnsigned(negative, unsigned)
         == match ParseExponent(part)
            case Err(e) => Err(e)
            case Ok(power) =>
              var (whole, frac) := ParseMantissa(mantissa).value;
              Ok(Numeral(negative, whole, frac, power))
  {
  }

  /** Every notation is parsed as it is written, unless its exponent is out of range. */
  lemma ParseWritten(n: Notation)
    requires ValidNotation(n)
    ensures InRange(Power(n)) ==> Parse(Written(n)) == Ok(Numeral(n.negative, n.whole, n.frac, Power(n)))
    ensures !InRange(Power(n)) ==> Parse(Written(n)) == Err(ExponentOutOfRange)
  {
    WrittenSign(n);
    WrittenSplit(n);
    JoinMantissa(n.whole, n.frac);
    if n.exponent.Some? {
      WrittenExponent(n.exponent.value);
    }
    PartsParse(n.negative, Unsigned(n), Mantissa(n), ExponentPart(n.exponent));
  }

  lemma SplitSignWrites(input: string)
    requires SplitSign(input).Ok?
    ensures input == (if SplitSign(input).value.0 then "-" else "") + SplitSign(input).value.1
  {
  }

  lemma ParsedMantissa(mantissa: string)
    requires ParseMantissa(mantissa).Ok?
    ensures var (whole, frac) := ParseMantissa(mantissa).value;
            mantissa == Join(whole, frac)
  {
    var n := Span(mantissa, {'.'});
    if n < |mantissa| {
      assert mantissa == mantissa[..n] + "." + mantissa[n + 1..];
    } else {
      assert mantissa[..n] == mantissa;
    }
  }

  lemma ParsedExponent(text: string) returns (x: Exponent)
    requires ParseExponent(Some(text)).Ok?
    ensures x.mark == 'e' && (x.sign == "" || x.sign == "+" || x.sign == "-")
    ensures x.digits != [] && AllDigits(x.digits) && text == x.sign + x.digits
  {
    if text[0] == '-' || text[0] == '+' {
      x := Exponent('e', [text[0]], text[1..]);
    } else {
      x := Exponent('e', "", text);
    }
  }

  lemma SplitExponentWrites(unsigned: string)
    requires SplitExponent(unsigned).Ok?
    ensures var (mantissa, part) := SplitExponent(unsigned).value;
            match part
            case None => unsigned == mantissa
            case Some(text) => unsigned == mantissa + ("e" + text) || unsigned == mantissa + ("E" + text)
  {
    var n := Span(unsigned, {'e', 'E'});
    if n < |unsigned| {
      assert unsigned == unsigned[..n] + ([unsigned[n]] + unsigned[n + 1..]);
    }
  }

  lemma ParsedUnsigned(negative: bool, unsigned: string) returns (n: Notation)
    requires ParseUnsigned(negative, unsigned).Ok?
    ensures ValidNotation(n) && Unsigned(n) == unsigned && n.negative == negative
  {
    var (mantissa, part) := SplitExponent(unsigned).value;
    var (whole, frac) := ParseMantissa(mantissa).value;
    SplitExponentWrites(unsigned);
    ParsedMantissa(mantissa);
    n := Notation(negative, whole, frac, None);
    if part.Some? {
      var x := ParsedExponent(part.value);
      var mark := if unsigned == mantissa + ("e" + part.value) then 'e' else 'E';
      n := n.(exponent := Some(x.(mark := mark)));
      assert ExponentText(n.exponent) == [mark] + part.value;
    }
  }

  /** Whatever is parsed is the writing of some notation. */
  lemma ParsedIsWritten(input: string) returns (n: Notation)
    requires Parse(input).Ok?
    ensures ValidNotation(n) && Written(n) == input
  {
    var (negative, unsigned) := SplitSign(input).value;
    SplitSignWrites(input);
    n := ParsedUnsigned(negative, unsigned);
  }

  lemma SamePower(a: Exponent, b: Exponent)
    requires ValidExponent(a) && ValidExponent(b) && a.sign + a.digits == b.sign + b.digits
    ensures PowerOf(a) == PowerOf(b)
  {
    var t := a.sign + a.digits;
    assert a.sign == "" ==> t[0] == a.digits[0];
    assert b.sign == "" ==> t[0] == b.digits[0];
    assert a.sign != "" ==> t[0] == a.sign[0];
    assert b.sign != "" ==> t[0] == b.sign[0];
    assert |a.sign| == |b.sign|;
    assert a.digits == t[|a.sign|..] && b.digits == t[|b.sign|..];
  }

  /** A text is written in one way, up to the mark before the exponent and a plus after it. */
  lemma WrittenUnique(a: Notation, b: Notation)
    requires ValidNotation(a) && ValidNotation(b) && Written(a) == Written(b)
    ensures a.negative == b.negative && a.whole == b.whole && a.frac == b.frac && Power(a) == Power(b)
    ensures ValueOf(a) == ValueOf(b)
  {
    WrittenSign(a);
    WrittenSign(b);
    SameUnsigned(a, b);
    SamePartsSameValue(a, b);
  }

  lemma SamePartsSameValue(a: Notation, b: Notation)
    requires ValidNotation(a) && ValidNotation(b)
    requires a.negative == b.negative && a.whole == b.whole && a.frac == b.frac && Power(a) == Power(b)
    ensures ValueOf(a) == ValueOf(b)
  {
    var digits, shift: int := a.whole + a.frac, Power(a) - |a.frac|;
    assert digits == b.whole + b.frac;
    assert ValueOf(a) == Rational(a.negative, DigitsValue(digits), shift);
  }

  lemma SameUnsigned(a: Notation, b: Notation)
    requires ValidNotation(a) && ValidNotation(b) && Unsigned(a) == Unsigned(b)
    ensures a.whole == b.whole && a.frac == b.frac && Power(a) == Power(b)
  {
    WrittenSplit(a);
    WrittenSplit(b);
    SameMantissa(a, b);
    if a.exponent.Some? {
      SamePower(a.exponent.value, b.exponent.value);
    }
  }

  lemma SameMantissa(a: Notation, b: Notation)
    requires ValidNotation(a) && ValidNotation(b) && Mantissa(a) == Mantissa(b)
    ensures a.whole == b.whole && a.frac == b.frac
  {
    JoinMantissa(a.whole, a.frac);
    JoinMantissa(b.whole, b.frac);
  }

  /** What a notation denotes. */
  lemma DenotesWritten(n: Notation)
    requires ValidNotation(n)
    ensures Denotes(Written(n)) == Some(ValueOf(n))
  {
    var m :| ValidNotation(m) && Written(m) == Written(n) && Denotes(Written(n)) == Some(ValueOf(m));
    WrittenUnique(m, n);
  }

  lemma ParsedNotation(input: string) returns (n: Notation, p: Numeral)
    requires Parse(input).Ok?
    ensures ValidNotation(n) && Written(n) == input && Parse(input) == Ok(p)
    ensures p == Numeral(n.negative, n.whole, n.frac, p.exponent) && p.exponent as int == Power(n)
  {
    n := ParsedIsWritten(input);
    ParseWritten(n);
    p := Parse(input).value;
  }

  lemma SameValue(n: Notation, p: Numeral)
    requires ValidNotation(n) && ValidNumeral(p) && p.exponent as int == Power(n)
    requires p.negative == n.negative && p.intPart == n.whole && p.fracPart == n.frac
    ensures NumeralValue(p) == ValueOf(n)
  {
  }

  lemma ParseDenotes(input: string)
    requires Parse(input).Ok?
    ensures Denotes(input) == Some(NumeralValue(Parse(input).value))
  {
    var n, p := ParsedNotation(input);
    SameValue(n, p);
    DenotesWritten(n);
  }

  // ---------------------------------------------------------------------------
  // Main results.
  // ---------------------------------------------------------------------------

  /** Canonicalisation preserves the exact number denoted. */
  lemma CanonicalizeKeepsValue(input: string)
    requires Canonicalize(input).Ok?
    ensures Denotes(input).Some? && Denotes(Canonicalize(input).value) == Denotes(input)
  {
    var p := Parse(input).value;
    var whole, frac := AssembleParts(p);
    CanonicalParses(p.negative, whole, frac);
    ParseDenotes(input);
    ParseDenotes(Render(p.negative, whole, frac));
  }

  /** Which texts are accepted: every notation whose digits fit. */
  lemma AcceptedLanguage(input: string)
    ensures Canonicalize(input).Ok? <==> exists n :: ValidNotation(n) && Written(n) == input && Fits(n)
  {
    if Parse(input).Ok? {
      var n := ParsedIsWritten(input);
      AcceptedNotation(n);
      assert Canonicalize(input).Ok? ==> Fits(n);
    }
    forall n | ValidNotation(n) && Written(n) == input && Fits(n) ensures Canonicalize(input).Ok? {
      AcceptedNotation(n);
    }
  }

  lemma AcceptedNotation(n: Notation)
    requires ValidNotation(n)
    ensures Canonicalize(Written(n)).Ok? <==> Fits(n)
  {
    ParseWritten(n);
    if InRange(Power(n)) {
      AssembleAccepts(Numeral(n.negative, n.whole, n.frac, Power(n)));
    }
  }

  lemma AssembleAccepts(p: Numeral)
    requires ValidNumeral(p)
    ensures var digits, shift := StripZeros(p.intPart + p.fracPart), p.exponent as int - |p.fracPart|;
            Assemble(p).Ok? <==>
              if digits == [] then !p.negative
              else |digits| <= MAX_DECIMAL_DIGITS && |digits| + shift <= MAX_DECIMAL_DIGITS
                   && -shift <= MAX_DECIMAL_DIGITS
  {
    var digits := StripZeros(p.intPart + p.fracPart);
    StripKeepsValue(p.intPart + p.fracPart);
    AssembleUnfold(p, digits, p.exponent as int - |p.fracPart|);
    if digits != [] && |digits| <= MAX_DECIMAL_DIGITS {
      ShiftAccepts(p.negative, digits, p.exponent as int - |p.fracPart|);
    }
  }

  lemma AssembleUnfold(p: Numeral, digits: string, shift: int)
    requires digits == StripZeros(p.intPart + p.fracPart) && shift == p.exponent as int - |p.fracPart|
    ensures Assemble(p).Ok? <==>
              if digits == [] then !p.negative
              else |digits| <= MAX_DECIMAL_DIGITS && Shift(p.negative, digits, shift).Ok?
  {
  }

  lemma ShiftAccepts(negative: bool, digits: string, shift: int)
    requires AllDigits(digits) && digits != [] && digits[0] != '0' && |digits| <= MAX_DECIMAL_DIGITS
    ensures Shift(negative, digits, shift).Ok? <==>
              |digits| + shift <= MAX_DECIMAL_DIGITS && -shift <= MAX_DECIMAL_DIGITS
  {
    if |digits| + shift <= MAX_DECIMAL_DIGITS && -shift <= MAX_DECIMAL_DIGITS {
      ShiftParts(negative, digits, shift, Whole(digits, shift), TrimZeros(Frac(digits, shift)));
    }
  }

  /** Two canonical texts of one number are one text. */
  lemma CanonicalUnique(neg1: bool, w1: string, f1: string, neg2: bool, w2: string, f2: string)
    requires CanonicalParts(neg1, w1, f1) && CanonicalParts(neg2, w2, f2)
    requires Rational(neg1, DigitsValue(w1 + f1), -|f1|) == Rational(neg2, DigitsValue(w2 + f2), -|f2|)
    ensures neg1 == neg2 && w1 == w2 && f1 == f2
  {
    var n1, n2 := DigitsValue(w1 + f1), DigitsValue(w2 + f2);
    RationalCross(neg1, n1, |f1|, neg2, n2, |f2|);
    if |f1| < |f2| {
      SpareZero(f1, n1, w2, f2, n2);
    } else if |f2| < |f1| {
      SpareZero(f2, n2, w1, f1, n1);
    }
    CancelFactor(n1, n2, Pow10(|f1|));
    NoSpareLead(w1, f1, w2, f2);
    NoSpareLead(w2, f2, w1, f1);
    SameLengthSameValue(w1 + f1, w2 + f2);
    assert w1 == (w1 + f1)[..|w1|] && f1 == (w1 + f1)[|w1|..];
    assert w2 == (w2 + f2)[..|w2|] && f2 == (w2 + f2)[|w2|..];
    if n1 == 0 {
      ZeroIsUnsigned(neg1, w1, f1);
      ZeroIsUnsigned(neg2, w2, f2);
    }
  }

  lemma ZeroIsUnsigned(negative: bool, whole: string, frac: string)
    requires CanonicalParts(negative, whole, frac) && DigitsValue(whole + frac) == 0
    ensures !negative
  {
    var all := whole + frac;
    ValueZeros(|all|);
    SameLengthSameValue(all, Zeros(|all|));
    assert all[0] == '0' && all[|all| - 1] == '0';
    assert whole[0] == '0' && frac == [];
  }

  /** A longer fraction for the same number has to end in a zero. */
  lemma SpareZero(f1: string, n1: nat, w2: string, f2: string, n2: nat)
    requires AllDigits(w2 + f2) && n2 == DigitsValue(w2 + f2)
    requires n1 * Pow10(|f2|) == n2 * Pow10(|f1|) && |f1| < |f2|
    ensures f2[|f2| - 1] == '0'
  {
    var k := |f2| - |f1|;
    var p, q := Pow10(|f1|), Pow10(k - 1);
    PowAdd(|f1|, k);
    Regroup(n1, p, q, n2);
    assert (w2 + f2)[|w2 + f2| - 1] == f2[|f2| - 1];
    LastDigit(w2 + f2, n1 * q);
  }

  lemma LastDigit(s: string, m: nat)
    requires AllDigits(s) && s != [] && DigitsValue(s) == 10 * m
    ensures s[|s| - 1] == '0'
  {
    MultipleOfTen(DigitsValue(s[..|s| - 1]), Digit(s[|s| - 1]), m);
  }

  lemma MultipleOfTen(n: nat, digit: nat, m: nat)
    requires 10 * n + digit == 10 * m && digit < 10
    ensures digit == 0
  {
  }

  lemma Regroup(n1: nat, p: nat, q: nat, n2: nat)
    requires p > 0 && n1 * (p * (10 * q)) == n2 * p
    ensures n2 == 10 * (n1 * q)
  {
    assert n1 * (p * (10 * q)) == (10 * (n1 * q)) * p;
    CancelFactor(n2, 10 * (n1 * q), p);
  }

  lemma CancelFactor(a: int, b: int, p: nat)
    requires p > 0 && a * p == b * p
    ensures a == b
  {
    assert (a - b) * p == 0;
  }

  /** A longer whole part would start with a nonzero digit and exceed the number. */
  lemma NoSpareLead(w1: string, f1: string, w2: string, f2: string)
    requires w1 != [] && w2 != [] && (w2[0] == '0' ==> |w2| == 1) && |f1| == |f2|
    requires AllDigits(w1 + f1) && AllDigits(w2 + f2)
    requires DigitsValue(w1 + f1) == DigitsValue(w2 + f2)
    ensures |w2| <= |w1|
  {
    if |w1| < |w2| {
      LongerIsLarger(w1 + f1, w2 + f2);
    }
  }

  lemma LongerIsLarger(s: string, t: string)
    requires AllDigits(s) && AllDigits(t) && |s| < |t| && t[0] != '0'
    ensures DigitsValue(s) < DigitsValue(t)
  {
    LeadingDigit(t);
    ValueBound(s);
    PowMonotone(|s|, |t| - 1);
  }

  /** Accepted inputs have one canonical text exactly when they denote one number. */
  lemma SameTextIffSameNumber(a: string, b: string)
    requires Canonicalize(a).Ok? && Canonicalize(b).Ok?
    ensures Canonicalize(a) == Canonicalize(b) <==> Denotes(a) == Denotes(b)
  {
    CanonicalizeKeepsValue(a);
    CanonicalizeKeepsValue(b);
    var w1, f1 := AssembleParts(Parse(a).value);
    var w2, f2 := AssembleParts(Parse(b).value);
    ParseDenotes(a);
    ParseDenotes(b);
    if Denotes(a) == Denotes(b) {
      CanonicalUnique(Parse(a).value.negative, w1, f1, Parse(b).value.negative, w2, f2);
    }
  }

  /** The exact language of `validate_decimal`. */
  lemma ValidateLanguage(text: string)
    ensures Validate(text).Ok? <==> IsCanonical(text)
  {
    if Validate(text).Ok? {
      var whole, frac := AssembleParts(Parse(text).value);
    }
    if IsCanonical(text) {
      var negative, whole, frac :|
        CanonicalParts(negative, whole, frac) && text == Render(negative, whole, frac);
      CanonicalParses(negative, whole, frac);
      CanonicalFixed(negative, whole, frac);
    }
  }

  /** Canonical output is canonical: canonicalisation is idempotent and its output validates. */
  lemma CanonicalizeIdempotent(input: string)
    requires Canonicalize(input).Ok?
    ensures Canonicalize(Canonicalize(input).value) == Canonicalize(input)
    ensures Validate(Canonicalize(input).value).Ok?
  {
    var p := Parse(input).value;
    var whole, frac := AssembleParts(p);
    CanonicalParses(p.negative, whole, frac);
    CanonicalFixed(p.negative, whole, frac);
  }

  lemma CanonicalLength(text: string)
    requires IsCanonical(text)
    ensures |text| <= 3 + MAX_DECIMAL_DIGITS
    ensures forall c :: c in text ==> IsDigit(c) || c == '-' || c == '.'
    ensures text != [] && (IsDigit(text[0]) || text[0] == '-')
  {
    var negative, whole, frac :|
      CanonicalParts(negative, whole, frac) && text == Render(negative, whole, frac);
    if whole[0] != '0' {
      assert (whole + frac)[0] == whole[0];
      assert StripZeros(whole + frac) == whole + frac;
    }
  }

  // ---------------------------------------------------------------------------
  // Integers as decimal text.
  // ---------------------------------------------------------------------------

  function DigitChar(d: nat): (c: char)
    requires d < 10
    ensures IsDigit(c) && Digit(c) == d
  {
    ('0' as int + d) as char
  }

  function NatText(n: nat): (s: string)
    ensures s != []
  {
    if n < 10 then [DigitChar(n)] else NatText(n / 10) + [DigitChar(n % 10)]
  }

  function IntText(i: int): string {
    if i < 0 then "-" + NatText(-i) else NatText(i)
  }

  lemma {:induction false} NatTextValue(n: nat)
    ensures AllDigits(NatText(n)) && DigitsValue(NatText(n)) == n
    ensures NatText(n)[0] == '0' ==> n == 0 && |NatText(n)| == 1
  {
    var s := NatText(n);
    if n >= 10 {
      NatTextValue(n / 10);
      assert s[..|s| - 1] == NatText(n / 10);
    } else {
      assert DigitsValue(s) == 10 * DigitsValue(s[..0]) + Digit(s[0]);
    }
  }

  lemma TwentyDigits()
    ensures Pow10(20) == 100000000000000000000
  {
    PowAdd(5, 5);
    PowAdd(10, 10);
    assert Pow10(5) == 100000;
  }

  lemma NatTextLength(n: nat)
    requires n <= 0x1_0000_0000_0000_0000
    ensures |NatText(n)| <= 20
  {
    var s := NatText(n);
    if n > 0 && |s| > 20 {
      NatTextValue(n);
      LeadingDigit(s);
      PowMonotone(20, |s| - 1);
      TwentyDigits();
    }
  }

  lemma NatTextParts(n: nat, negative: bool)
    requires n <= 0x1_0000_0000_0000_0000 && !(negative && n == 0)
    ensures CanonicalParts(negative, NatText(n), [])
  {
    NatTextValue(n);
    NatTextLength(n);
    assert NatText(n) + [] == NatText(n);
    assert n > 0 ==> NatText(n) != "0";
  }

  /** Machine integers print in canonical form. */
  lemma IntCanonical(i: int)
    requires -0x1_0000_0000_0000_0000 <= i <= 0x1_0000_0000_0000_0000
    ensures Canonicalize(IntText(i)) == Ok(IntText(i))
  {
    var negative, n := i < 0, if i < 0 then -i else i;
    NatTextParts(n, negative);
    CanonicalParses(negative, NatText(n), []);
    CanonicalFixed(negative, NatText(n), []);
    assert Render(negative, NatText(n), []) == IntText(i);
  }

  lemma WholeValue(negative: bool, digits: string)
    requires digits != [] && AllDigits(digits)
    ensures ValueOf(Notation(negative, digits, [], None)) == Signed(negative, DigitsValue(digits))
  {
    assert digits + [] == digits;
    assert Pow10(0) as real == 1.0;
  }

  lemma WholeWritten(negative: bool, digits: string)
    ensures Written(Notation(negative, digits, [], None)) == (if negative then "-" else "") + digits
  {
    assert (digits + "") + "" == digits;
  }

  lemma WholeDenotes(negative: bool, digits: string, n: nat)
    requires digits != [] && AllDigits(digits) && DigitsValue(digits) == n
    ensures Denotes((if negative then "-" else "") + digits) == Some(Signed(negative, n))
  {
    WholeWritten(negative, digits);
    WholeValue(negative, digits);
    DenotesWritten(Notation(negative, digits, [], None));
  }

  /** The text of a machine integer denotes that integer. */
  lemma {:induction false} IntDenotes(i: int)
    ensures Denotes(IntText(i)) == Some(i as real)
  {
    var n: nat := if i < 0 then -i else i;
    NatTextValue(n);
    WholeDenotes(i < 0, NatText(n), n);
    SignedInt(i, n);
    assert IntText(i) == (if i < 0 then "-" else "") + NatText(n);
  }

  lemma SignedInt(i: int, n: nat)
    requires n == if i < 0 then -i else i
    ensures Signed(i < 0, n) == i as real
  {
  }

  lemma IntTextInjective(i: int, j: int)
    requires IntText(i) == IntText(j)
    ensures i == j
  {
    NatTextValue(if i < 0 then -i else i);
    NatTextValue(if j < 0 then -j else j);
    if i < 0 {
      assert IntText(i)[1..] == NatText(-i);
      assert IntText(j)[0] == '-';
      assert j < 0 && IntText(j)[1..] == NatText(-j);
    } else {
      assert IsDigit(IntText(i)[0]);
      assert j >= 0;
    }
  }
}
