/** A reader of JSON text (RFC 8259) that knows nothing of the printer, and what it makes of
    printed values. It expects no insignificant whitespace, since none is ever printed. */
module JsonReader {
  import opened Prelude
  import opened CanonicalJson
  import opened KeyOrder
  import Decimal

  // ---------------------------------------------------------------------------
  // Strings: section 7 of RFC 8259.
  // ---------------------------------------------------------------------------

  /** The character that a backslash and one letter stand for. */
  function Unescape(c: char): Option<char> {
    if c == '"' then Some(0x22 as char)
    else if c == '\\' then Some(0x5C as char)
    else if c == '/' then Some(0x2F as char)
    else if c == 'b' then Some(0x08 as char)
    else if c == 'f' then Some(0x0C as char)
    else if c == 'n' then Some(0x0A as char)
    else if c == 'r' then Some(0x0D as char)
    else if c == 't' then Some(0x09 as char)
    else None
  }

  function HexValue(c: char): (r: Option<nat>)
    ensures r.Some? ==> r.value < 16
  {
    if '0' <= c <= '9' then Some(c as int - 0x30)
    else if 'A' <= c <= 'F' then Some(c as int - 0x41 + 10)
    else if 'a' <= c <= 'f' then Some(c as int - 0x61 + 10)
    else None
  }

  /** Four hexadecimal digits. */
  function CodeUnit(text: string): (r: Option<nat>)
    requires |text| >= 4
    ensures r.Some? ==> r.value < 0x1_0000
  {
    var a, b, c, d := HexValue(text[0]), HexValue(text[1]), HexValue(text[2]), HexValue(text[3]);
    if a.None? || b.None? || c.None? || d.None? then None
    else Some(0x1000 * a.value + 0x100 * b.value + 0x10 * c.value + d.value)
  }

  /** The rest of an escape after backslash and u: the character, and how long the whole
      escape is. Characters beyond the basic plane take two escapes. */
  function ReadUnicode(text: string): (r: Option<(char, nat)>)
    ensures r.Some? ==> 6 <= r.value.1 <= |text|
  {
    if |text| < 6 || CodeUnit(text[2..]).None? then None
    else
      var high := CodeUnit(text[2..]).value;
      if !(0xD800 <= high < 0xE000) then Some((high as char, 6))
      else if high >= 0xDC00 || |text| < 12 || text[6] != '\\' || text[7] != 'u' then None
      else
        match CodeUnit(text[8..])
        case None => None
        case Some(low) =>
          if 0xDC00 <= low < 0xE000 then
            Some(((0x1_0000 + 0x400 * (high - 0xD800) + (low - 0xDC00)) as char, 12))
          else None
  }

  function Prepend(c: char, r: Option<(string, string)>): Option<(string, string)> {
    match r case None => None case Some((s, rest)) => Some(([c] + s, rest))
  }

  /** The characters of a string up to its closing quote, and what follows the quote. */
  function ReadChars(text: string): (r: Option<(string, string)>)
    ensures r.Some? ==> |r.value.1| < |text|
    decreases |text|
  {
    if text == [] then None
    else if text[0] == '"' then Some(("", text[1..]))
    else if text[0] as int < 0x20 then None
    else if text[0] != '\\' then Prepend(text[0], ReadChars(text[1..]))
    else if |text| < 2 then None
    else if text[1] == 'u' then
      match ReadUnicode(text)
      case None => None
      case Some((c, n)) => Prepend(c, ReadChars(text[n..]))
    else
      match Unescape(text[1])
      case None => None
      case Some(c) => Prepend(c, ReadChars(text[2..]))
  }

  function ReadString(text: string): (r: Option<(string, string)>)
    ensures r.Some? ==> |r.value.1| < |text|
  {
    if text == [] || text[0] != '"' then None else ReadChars(text[1..])
  }

  // ---------------------------------------------------------------------------
  // Values: sections 3 to 6 of RFC 8259.
  // ---------------------------------------------------------------------------

  predicate IsNumberChar(c: char) {
    '0' <= c <= '9' || c == '-' || c == '+' || c == '.' || c == 'e' || c == 'E'
  }

  function NumberLength(text: string): (n: nat)
    ensures n <= |text|
  {
    if text == [] || !IsNumberChar(text[0]) then 0 else 1 + NumberLength(text[1..])
  }

  /** A number as section 6 has it: no leading zero before another digit. */
  ghost predicate IsNumber(text: string) {
    exists n :: Decimal.ValidNotation(n) && Decimal.Written(n) == text && (n.whole[0] == '0' ==> |n.whole| == 1)
  }

  ghost function ReadNumber(text: string): (r: Option<(Value, string)>)
    ensures r.Some? ==> |r.value.1| < |text|
  {
    var n := NumberLength(text);
    if n > 0 && IsNumber(text[..n]) then Some((JNumber(Float(text[..n])), text[n..])) else None
  }

  /** One of the three words, literally. */
  function ReadWord(text: string, word: string, v: Value): (r: Option<(Value, string)>)
    requires word != []
    ensures r.Some? ==> |r.value.1| < |text|
  {
    if word <= text then Some((v, text[|word|..])) else None
  }

  ghost function ReadValue(text: string): (r: Option<(Value, string)>)
    ensures r.Some? ==> |r.value.1| < |text|
    decreases |text|, 0
  {
    if text == [] then None
    else if text[0] == 'n' then ReadWord(text, "null", JNull)
    else if text[0] == 't' then ReadWord(text, "true", JBool(true))
    else if text[0] == 'f' then ReadWord(text, "false", JBool(false))
    else if text[0] == '"' then
      match ReadString(text)
      case None => None
      case Some((s, rest)) => Some((JString(s), rest))
    else if text[0] == '[' then
      if |text| > 1 && text[1] == ']' then Some((JArray([]), text[2..]))
      else
        match ReadItems(text[1..])
        case None => None
        case Some((items, rest)) => Some((JArray(items), rest))
    else if text[0] == '{' then
      if |text| > 1 && text[1] == '}' then Some((JObject([]), text[2..]))
      else
        match ReadMembers(text[1..])
        case None => None
        case Some((members, rest)) => Some((JObject(members), rest))
    else ReadNumber(text)
  }

  /** One value or more with commas between, up to a closing bracket. */
  ghost function ReadItems(text: string): (r: Option<(seq<Value>, string)>)
    ensures r.Some? ==> |r.value.1| < |text|
    decreases |text|, 1
  {
    match ReadValue(text)
    case None => None
    case Some((v, rest)) =>
      if rest == [] then None
      else if rest[0] == ']' then Some(([v], rest[1..]))
      else if rest[0] == ',' then
        match ReadItems(rest[1..])
        case None => None
        case Some((items, after)) => Some(([v] + items, after))
      else None
  }

  /** A key, a colon and a value. */
  ghost function ReadMember(text: string): (r: Option<(Member, string)>)
    ensures r.Some? ==> |r.value.1| < |text|
    decreases |text|, 1
  {
    match ReadString(text)
    case None => None
    case Some((key, rest)) =>
      if rest == [] || rest[0] != ':' then None
      else
        match ReadValue(rest[1..])
        case None => None
        case Some((v, after)) => Some((Member(key, v), after))
  }

  ghost function ReadMembers(text: string): (r: Option<(seq<Member>, string)>)
    ensures r.Some? ==> |r.value.1| < |text|
    decreases |text|, 2
  {
    match ReadMember(text)
    case None => None
    case Some((m, rest)) =>
      if rest == [] then None
      else if rest[0] == '}' then Some(([m], rest[1..]))
      else if rest[0] == ',' then
        match ReadMembers(rest[1..])
        case None => None
        case Some((members, after)) => Some(([m] + members, after))
      else None
  }

  // ---------------------------------------------------------------------------
  // Printed strings are read back.
  // ---------------------------------------------------------------------------

  lemma Assoc(a: string, b: string, c: string)
    ensures (a + b) + c == a + (b + c)
  {
  }

  lemma ReadPlain(c: char, rest: string)
    requires c != '"' && c != '\\' && c as int >= 0x20
    ensures ReadChars([c] + rest) == Prepend(c, ReadChars(rest))
  {
    assert ([c] + rest)[1..] == rest;
  }

  lemma ReadShort(letter: char, rest: string)
    requires letter != 'u' && Unescape(letter).Some?
    ensures ReadChars(['\\', letter] + rest) == Prepend(Unescape(letter).value, ReadChars(rest))
  {
    assert (['\\', letter] + rest)[2..] == rest;
  }

  lemma HexDigitValue(nibble: nat)
    requires nibble < 16
    ensures HexValue(HexDigit(nibble)) == Some(nibble)
  {
  }

  lemma ReadControl(c: char, rest: string)
    requires c as int < 0x20
    ensures var n := c as int;
            var digits := [HexDigit(n / 0x1000), HexDigit(n / 0x100 % 16), HexDigit(n / 0x10 % 16), HexDigit(n % 16)];
            ReadChars("\\u" + digits + rest) == Prepend(c, ReadChars(rest))
  {
    var n := c as int;
    var digits := [HexDigit(n / 0x1000), HexDigit(n / 0x100 % 16), HexDigit(n / 0x10 % 16), HexDigit(n % 16)];
    var text := "\\u" + digits + rest;
    HexDigitValue(0);
    HexDigitValue(n / 0x10);
    HexDigitValue(n % 16);
    assert text[2..][..4] == digits;
    assert CodeUnit(text[2..]) == Some(n);
    assert ReadUnicode(text) == Some((c, 6));
    assert text[6..] == rest;
  }

  /** One character, escaped or not, is read back. */
  lemma ReadEscapedChar(c: char, rest: string)
    ensures ReadChars(EscapeChar(c) + rest) == Prepend(c, ReadChars(rest))
  {
    if c == '"' {
      ReadShort('"', rest);
    } else if c == '\\' {
      ReadShort('\\', rest);
    } else if c as int == 0x08 {
      ReadShort('b', rest);
    } else if c as int == 0x0C {
      ReadShort('f', rest);
    } else if c == '\n' {
      ReadShort('n', rest);
    } else if c == '\r' {
      ReadShort('r', rest);
    } else if c == '\t' {
      ReadShort('t', rest);
    } else if c as int <= 0x1F {
      ReadControl(c, rest);
    } else {
      ReadPlain(c, rest);
    }
  }

  /** Of the ways to write a character, the printer takes the shortest, and hexadecimal digits
      in lower case: section 3.2.2.2 of RFC 8785. */
  lemma EscapeIsShortest(c: char)
    ensures |EscapeChar(c)| == 1 <==> c != '"' && c != '\\' && c as int >= 0x20
    ensures |EscapeChar(c)| == 2 <==>
              c == '"' || c == '\\' || exists letter :: 'a' <= letter <= 'z' && Unescape(letter) == Some(c)
    ensures |EscapeChar(c)| <= 2 || |EscapeChar(c)| == 6
    ensures forall i :: 2 <= i < |EscapeChar(c)| ==> !('A' <= EscapeChar(c)[i] <= 'F')
  {
    assert Unescape('b') == Some(0x08 as char) && Unescape('f') == Some(0x0C as char);
    assert Unescape('n') == Some('\n') && Unescape('r') == Some('\r') && Unescape('t') == Some('\t');
  }

  lemma {:induction false} ReadEscaped(s: string, rest: string)
    ensures ReadChars(Escape(s) + ("\"" + rest)) == Some((s, rest))
  {
    if s == [] {
      var text := Escape(s) + ("\"" + rest);
      assert text == "\"" + rest && text[1..] == rest;
    } else {
      Assoc(EscapeChar(s[0]), Escape(s[1..]), "\"" + rest);
      ReadEscapedChar(s[0], Escape(s[1..]) + ("\"" + rest));
      ReadEscaped(s[1..], rest);
      assert s == [s[0]] + s[1..];
    }
  }

  lemma ReadBody(body: string, rest: string)
    ensures ReadString("\"" + body + "\"" + rest) == ReadChars(body + ("\"" + rest))
  {
    assert ("\"" + body + "\"" + rest)[1..] == body + ("\"" + rest);
  }

  /** A quoted string is read back, whatever follows it. */
  lemma ReadQuoted(s: string, rest: string)
    ensures ReadString(Quote(s) + rest) == Some((s, rest))
  {
    ReadBody(Escape(s), rest);
    ReadEscaped(s, rest);
  }

  /** A quoted string determines the string and where it ends. */
  lemma QuoteUnique(s: string, t: string, x: string, y: string)
    requires Quote(s) + x == Quote(t) + y
    ensures s == t && x == y
  {
    ReadQuoted(s, x);
    ReadQuoted(t, y);
  }

  // ---------------------------------------------------------------------------
  // Printed numbers are read back.
  // ---------------------------------------------------------------------------

  /** What may follow a value: nothing, or a character that ends it. */
  predicate Delimited(rest: string) {
    rest == [] || rest[0] == ',' || rest[0] == ']' || rest[0] == '}'
  }

  lemma {:induction false} NumberSpan(text: string, rest: string)
    requires Delimited(rest) && forall i :: 0 <= i < |text| ==> IsNumberChar(text[i])
    ensures NumberLength(text + rest) == |text|
  {
    if text == [] {
      assert text + rest == rest;
    } else {
      assert (text + rest)[1..] == text[1..] + rest;
      NumberSpan(text[1..], rest);
    }
  }

  lemma CanonicalIsNumber(text: string)
    requires Decimal.IsCanonical(text)
    ensures IsNumber(text)
  {
    var negative, whole, frac :|
      Decimal.CanonicalParts(negative, whole, frac) && text == Decimal.Render(negative, whole, frac);
    var n := Decimal.Notation(negative, whole, frac, None);
    assert Decimal.Mantissa(n) + "" == Decimal.Mantissa(n);
    assert Decimal.Written(n) == text;
  }

  lemma {:induction false} ReadSpan(text: string, rest: string)
    requires text != [] && IsNumber(text) && NumberLength(text + rest) == |text|
    ensures ReadNumber(text + rest) == Some((JNumber(Float(text)), rest))
  {
    assert (text + rest)[..|text|] == text && (text + rest)[|text|..] == rest;
  }

  lemma CanonicalChars(text: string)
    requires Decimal.IsCanonical(text)
    ensures text != [] && (text[0] == '-' || '0' <= text[0] <= '9')
    ensures forall i :: 0 <= i < |text| ==> IsNumberChar(text[i])
  {
    Decimal.CanonicalLength(text);
    forall i | 0 <= i < |text| ensures IsNumberChar(text[i]) {
      assert text[i] in text;
    }
  }

  lemma {:induction false} ReadCanonical(text: string, rest: string)
    requires Decimal.IsCanonical(text) && Delimited(rest)
    ensures text != [] && (text[0] == '-' || '0' <= text[0] <= '9')
    ensures ReadNumber(text + rest) == Some((JNumber(Float(text)), rest))
  {
    CanonicalChars(text);
    CanonicalIsNumber(text);
    NumberSpan(text, rest);
    ReadSpan(text, rest);
  }

  lemma PrintedIsCanonical(n: Number) returns (text: string)
    requires Print(JNumber(n)).Ok?
    ensures Print(JNumber(n)) == Ok(text) && Decimal.IsCanonical(text)
    ensures Equivalent(JNumber(n), JNumber(Float(text)))
  {
    text := Print(JNumber(n)).value;
    Decimal.CanonicalizeIdempotent(NumberText(n));
    Decimal.ValidateLanguage(text);
    Decimal.CanonicalizeKeepsValue(NumberText(n));
  }

  lemma ReadNumberValue(text: string)
    requires text != [] && (text[0] == '-' || '0' <= text[0] <= '9')
    ensures ReadValue(text) == ReadNumber(text)
  {
  }

  lemma ReadPrintedNumber(n: Number, rest: string)
    requires Print(JNumber(n)).Ok? && Delimited(rest)
    ensures var text := Print(JNumber(n)).value;
            && text != [] && (text[0] == '-' || '0' <= text[0] <= '9')
            && ReadValue(text + rest) == Some((JNumber(Float(text)), rest))
            && Equivalent(JNumber(n), JNumber(Float(text))) && Decimal.IsCanonical(text)
  {
    var text := PrintedIsCanonical(n);
    ReadCanonical(text, rest);
    assert (text + rest)[0] == text[0];
    ReadNumberValue(text + rest);
  }

  // ---------------------------------------------------------------------------
  // Printed values are read back.
  // ---------------------------------------------------------------------------

  /** Canonical form: keys in ascending byte order, numbers as canonical decimals. */
  ghost predicate InForm(v: Value) {
    match v
    case JNumber(n) => n.Float? && Decimal.IsCanonical(n.text)
    case JArray(items) => forall i :: 0 <= i < |items| ==> InForm(items[i])
    case JObject(members) =>
      Increasing(Keys(members)) && forall i :: 0 <= i < |members| ==> InForm(members[i].value)
    case _ => true
  }

  /** A printed value does not start with what closes an array or an object. */
  lemma {:induction false} PrintStart(v: Value)
    requires Print(v).Ok?
    ensures Print(v).value != [] && Print(v).value[0] != ']' && Print(v).value[0] != '}'
  {
    match v {
      case JNumber(n) => ReadPrintedNumber(n, []);
      case JObject(members) =>
        var s := SortMembers(members);
        SortedWithin(members, s);
        ObjectUnfold(v, s, PrintMembers(v, s, true));
      case _ =>
    }
  }

  lemma {:induction false} ItemParts(v: Value, items: seq<Value>, first: bool)
    requires forall i :: 0 <= i < |items| ==> items[i] < v
    requires items != [] && PrintItems(v, items, first).Ok?
    ensures Print(items[0]).Ok? && PrintItems(v, items[1..], false).Ok?
    ensures PrintItems(v, items, first).value
         == (if first then "" else ",") + Print(items[0]).value + PrintItems(v, items[1..], false).value
  {
  }

  lemma {:induction false} ItemsPrintEitherWay(v: Value, items: seq<Value>)
    requires forall i :: 0 <= i < |items| ==> items[i] < v
    requires PrintItems(v, items, false).Ok?
    ensures PrintItems(v, items, true).Ok?
  {
  }

  lemma WithoutSeparator(head: string, tail: string)
    ensures "" + head + tail == head + tail
    ensures "," + head + tail == "," + ("" + head + tail)
  {
  }

  /** The first item, and either nothing or a comma and the other items. */
  lemma {:induction false} ItemsBody(v: Value, items: seq<Value>)
    requires forall i :: 0 <= i < |items| ==> items[i] < v
    requires items != [] && PrintItems(v, items, true).Ok?
    ensures Print(items[0]).Ok? && (|items| > 1 ==> PrintItems(v, items[1..], true).Ok?)
    ensures PrintItems(v, items, true).value
         == Print(items[0]).value + if |items| == 1 then "" else "," + PrintItems(v, items[1..], true).value
  {
    ItemParts(v, items, true);
    WithoutSeparator(Print(items[0]).value, PrintItems(v, items[1..], false).value);
    if |items| > 1 {
      LaterItems(v, items[1..]);
    }
  }

  lemma {:induction false} LaterItems(v: Value, items: seq<Value>)
    requires forall i :: 0 <= i < |items| ==> items[i] < v
    requires items != [] && PrintItems(v, items, false).Ok?
    ensures PrintItems(v, items, true).Ok?
    ensures PrintItems(v, items, false).value == "," + PrintItems(v, items, true).value
  {
    ItemsPrintEitherWay(v, items);
    ItemParts(v, items, true);
    ItemParts(v, items, false);
    WithoutSeparator(Print(items[0]).value, PrintItems(v, items[1..], false).value);
  }

  function Entry(m: Member): string
    requires Print(m.value).Ok?
  {
    Quote(m.key) + (":" + Print(m.value).value)
  }

  lemma {:induction false} MembersBody(v: Value, members: seq<Member>)
    requires forall i :: 0 <= i < |members| ==> members[i].value < v
    requires members != [] && PrintMembers(v, members, true).Ok?
    ensures Print(members[0].value).Ok? && (|members| > 1 ==> PrintMembers(v, members[1..], true).Ok?)
    ensures PrintMembers(v, members, true).value
         == Entry(members[0]) + if |members| == 1 then "" else "," + PrintMembers(v, members[1..], true).value
  {
    MemberParts(v, members, true);
    NoComma(Quote(members[0].key), Print(members[0].value).value, PrintMembers(v, members[1..], false).value);
    if |members| > 1 {
      LaterMembers(v, members[1..]);
    }
  }

  lemma NoComma(key: string, head: string, tail: string)
    ensures "" + key + ":" + head + tail == (key + (":" + head)) + tail
  {
  }

  lemma {:induction false} MemberParts(v: Value, members: seq<Member>, first: bool)
    requires forall i :: 0 <= i < |members| ==> members[i].value < v
    requires members != [] && PrintMembers(v, members, first).Ok?
    ensures Print(members[0].value).Ok? && PrintMembers(v, members[1..], false).Ok?
    ensures PrintMembers(v, members, first).value
         == (if first then "" else ",") + Quote(members[0].key) + ":" + Print(members[0].value).value
            + PrintMembers(v, members[1..], false).value
  {
  }

  lemma {:induction false} PrintsEitherWay(v: Value, members: seq<Member>)
    requires forall i :: 0 <= i < |members| ==> members[i].value < v
    requires PrintMembers(v, members, false).Ok?
    ensures PrintMembers(v, members, true).Ok?
  {
  }

  lemma {:induction false} LaterMembers(v: Value, members: seq<Member>)
    requires forall i :: 0 <= i < |members| ==> members[i].value < v
    requires members != [] && PrintMembers(v, members, false).Ok?
    ensures PrintMembers(v, members, true).Ok?
    ensures PrintMembers(v, members, false).value == "," + PrintMembers(v, members, true).value
  {
    PrintsEitherWay(v, members);
    MemberParts(v, members, true);
    MemberParts(v, members, false);
    CommaFirst(Quote(members[0].key), Print(members[0].value).value, PrintMembers(v, members[1..], false).value);
  }

  lemma CommaFirst(key: string, head: string, tail: string)
    ensures "," + key + ":" + head + tail == "," + ("" + key + ":" + head + tail)
  {
  }

  /** Reading a printed value stops where the value ends and gives back the value, in
      canonical form. */
  lemma {:induction false} ReadPrint(v: Value, rest: string) returns (w: Value)
    requires WellFormed(v) && Print(v).Ok? && Delimited(rest)
    ensures ReadValue(Print(v).value + rest) == Some((w, rest))
    ensures Equivalent(v, w) && InForm(w)
    decreases v, 2, 0
  {
    match v {
      case JNull =>
        ReadLiteral("null", rest, v);
        w := v;
      case JBool(b) =>
        ReadBool(b, rest);
        w := v;
      case JNumber(n) =>
        ReadPrintedNumber(n, rest);
        w := JNumber(Float(Print(v).value));
      case JString(s) =>
        ReadQuoted(s, rest);
        w := v;
      case JArray(items) =>
        w := ReadArray(v, rest);
      case JObject(members) =>
        w := ReadObject(v, rest);
    }
  }

  lemma ReadLiteral(word: string, rest: string, v: Value)
    requires word != []
    ensures ReadWord(word + rest, word, v) == Some((v, rest))
  {
    assert (word + rest)[|word|..] == rest;
  }

  lemma ReadBool(b: bool, rest: string)
    ensures ReadValue(Print(JBool(b)).value + rest) == Some((JBool(b), rest))
  {
    ReadLiteral(if b then "true" else "false", rest, JBool(b));
  }

  lemma ReadBracketed(body: string, ws: seq<Value>, rest: string)
    requires body != [] && body[0] != ']' && ReadItems(body + ("]" + rest)) == Some((ws, rest))
    ensures ReadValue(("[" + body + "]") + rest) == Some((JArray(ws), rest))
  {
    Enclosed("[", body, "]", rest);
  }

  lemma ReadBraced(body: string, t: seq<Member>, rest: string)
    requires body != [] && body[0] != '}' && ReadMembers(body + ("}" + rest)) == Some((t, rest))
    ensures ReadValue(("{" + body + "}") + rest) == Some((JObject(t), rest))
  {
    Enclosed("{", body, "}", rest);
  }

  lemma ReadEmpty(rest: string)
    ensures ReadValue(("[" + "" + "]") + rest) == Some((JArray([]), rest))
    ensures ReadValue(("{" + "" + "}") + rest) == Some((JObject([]), rest))
  {
    assert (("[" + "" + "]") + rest)[2..] == rest && (("{" + "" + "}") + rest)[2..] == rest;
  }

  lemma {:induction false} ReadArray(v: Value, rest: string) returns (w: Value)
    requires v.JArray? && WellFormed(v) && Print(v).Ok?
    ensures ReadValue(Print(v).value + rest) == Some((w, rest))
    ensures Equivalent(v, w) && InForm(w)
    decreases v, 1, 0
  {
    if v.items == [] {
      ReadEmpty(rest);
      w := v;
    } else {
      var ws := ReadPrintedItems(v, v.items, rest);
      ItemsBody(v, v.items);
      PrintStart(v.items[0]);
      ReadBracketed(PrintItems(v, v.items, true).value, ws, rest);
      w := JArray(ws);
    }
  }

  lemma Enclosed(open: string, body: string, close: string, rest: string)
    requires |open| == 1
    ensures (open + body + close) + rest == open + (body + (close + rest))
    ensures (open + (body + (close + rest)))[1..] == body + (close + rest)
  {
  }

  lemma {:induction false} ReadPrintedItems(v: Value, items: seq<Value>, rest: string) returns (ws: seq<Value>)
    requires forall i :: 0 <= i < |items| ==> items[i] < v && WellFormed(items[i])
    requires items != [] && PrintItems(v, items, true).Ok?
    ensures ReadItems(PrintItems(v, items, true).value + ("]" + rest)) == Some((ws, rest))
    ensures |ws| == |items|
    ensures forall i :: 0 <= i < |items| ==> Equivalent(items[i], ws[i]) && InForm(ws[i])
    decreases v, 0, |items|
  {
    ItemsBody(v, items);
    var head := Print(items[0]).value;
    if |items| == 1 {
      assert head + "" == head;
      var w := ReadPrint(items[0], "]" + rest);
      assert ("]" + rest)[1..] == rest;
      ws := [w];
    } else {
      var more := PrintItems(v, items[1..], true).value;
      var after := "," + (more + ("]" + rest));
      var w := ReadPrint(items[0], after);
      var others := ReadPrintedItems(v, items[1..], rest);
      Separate(head, more, "]" + rest);
      assert after[1..] == more + ("]" + rest);
      ws := [w] + others;
      forall i | 0 <= i < |items| ensures Equivalent(items[i], ws[i]) && InForm(ws[i]) {
        if i > 0 {
          assert items[i] == items[1..][i - 1] && ws[i] == others[i - 1];
        }
      }
    }
  }

  lemma Separate(head: string, more: string, rest: string)
    ensures (head + ("," + more)) + rest == head + ("," + (more + rest))
  {
  }

  lemma {:induction false} ReadObject(v: Value, rest: string) returns (w: Value)
    requires v.JObject? && WellFormed(v) && Print(v).Ok?
    ensures ReadValue(Print(v).value + rest) == Some((w, rest))
    ensures Equivalent(v, w) && InForm(w)
    decreases v, 1, 0
  {
    var s := SortMembers(v.members);
    SortedWellFormed(v, s);
    ObjectUnfold(v, s, PrintMembers(v, s, true));
    if s == [] {
      ReadEmpty(rest);
      ReadAgree(v.members, s, []);
      w := JObject([]);
    } else {
      var t := ReadPrintedMembers(v, s, rest);
      MembersBody(v, s);
      ReadBraced(PrintMembers(v, s, true).value, t, rest);
      ReadAgree(v.members, s, t);
      w := JObject(t);
    }
  }

  lemma {:induction false} ReadPrintedMembers(v: Value, members: seq<Member>, rest: string) returns (t: seq<Member>)
    requires forall i :: 0 <= i < |members| ==> members[i].value < v && WellFormed(members[i].value)
    requires members != [] && PrintMembers(v, members, true).Ok?
    ensures ReadMembers(PrintMembers(v, members, true).value + ("}" + rest)) == Some((t, rest))
    ensures Agrees(members, t)
    decreases v, 0, |members|
  {
    MembersBody(v, members);
    var head := Entry(members[0]);
    if |members| == 1 {
      assert head + "" == head;
      var w := ReadPrint(members[0].value, "}" + rest);
      ReadEntry(members[0], w, "}" + rest);
      assert ("}" + rest)[1..] == rest;
      t := [Member(members[0].key, w)];
    } else {
      var more := PrintMembers(v, members[1..], true).value;
      var after := "," + (more + ("}" + rest));
      var w := ReadPrint(members[0].value, after);
      ReadEntry(members[0], w, after);
      var others := ReadPrintedMembers(v, members[1..], rest);
      Separate(head, more, "}" + rest);
      assert after[1..] == more + ("}" + rest);
      t := [Member(members[0].key, w)] + others;
      assert t[1..] == others && t[..1] == [Member(members[0].key, w)];
      AgreeWithTail(members, t);
    }
  }

  /** `read` has the keys of `members`, and values in canonical form equivalent to theirs. */
  ghost predicate Agrees(members: seq<Member>, read: seq<Member>) {
    |read| == |members|
    && forall i :: 0 <= i < |members| ==>
         read[i].key == members[i].key && Equivalent(members[i].value, read[i].value) && InForm(read[i].value)
  }

  lemma AgreeWithTail(members: seq<Member>, t: seq<Member>)
    requires members != [] && t != [] && Agrees(members[..1], t[..1]) && Agrees(members[1..], t[1..])
    ensures Agrees(members, t)
  {
    forall i | 0 <= i < |members|
      ensures t[i].key == members[i].key && Equivalent(members[i].value, t[i].value) && InForm(t[i].value)
    {
      if i == 0 {
        assert members[0] == members[..1][0] && t[0] == t[..1][0];
      } else {
        assert members[i] == members[1..][i - 1] && t[i] == t[1..][i - 1];
      }
    }
  }

  lemma {:induction false} ReadEntry(m: Member, w: Value, rest: string)
    requires Print(m.value).Ok? && ReadValue(Print(m.value).value + rest) == Some((w, rest))
    ensures ReadMember(Entry(m) + rest) == Some((Member(m.key, w), rest))
  {
    var value := Print(m.value).value;
    ReadQuoted(m.key, ":" + (value + rest));
    assert Entry(m) + rest == Quote(m.key) + (":" + (value + rest));
    assert (":" + (value + rest))[1..] == value + rest;
  }

  /** Members that agree one by one with the sorted members of an object make up the same
      object. */
  lemma {:induction false} ReadAgree(a: seq<Member>, s: seq<Member>, t: seq<Member>)
    requires DistinctKeys(a) && s == SortMembers(a) && Agrees(s, t)
    ensures Equivalent(JObject(a), JObject(t)) && InForm(JObject(t))
  {
    SortIncreasing(a);
    assert Keys(t) == Keys(s);
    forall k ensures HasKey(a, k) <==> HasKey(t, k) {
      SortedKeys(a, k);
      assert k in Keys(s) <==> HasKey(t, k);
    }
    forall i, j | 0 <= i < |a| && 0 <= j < |t| && a[i].key == t[j].key ensures Equivalent(a[i].value, t[j].value) {
      var m := SortedIndex(a, i, s);
      assert Keys(s)[m] == Keys(s)[j];
      IncreasingInjective(Keys(s), m, j);
    }
  }

  // ---------------------------------------------------------------------------
  // Hence printing is unambiguous.
  // ---------------------------------------------------------------------------

  lemma {:induction false} EquivalentMeet(v: Value, w: Value, r: Value)
    requires Equivalent(v, r) && Equivalent(w, r)
    ensures Equivalent(v, w)
    decreases v
  {
    match v {
      case JArray(a) =>
        forall i | 0 <= i < |a| ensures Equivalent(a[i], w.items[i]) {
          EquivalentMeet(a[i], w.items[i], r.items[i]);
        }
      case JObject(a) =>
        forall k ensures HasKey(a, k) <==> HasKey(w.members, k) {
          assert HasKey(a, k) <==> HasKey(r.members, k);
          assert HasKey(w.members, k) <==> HasKey(r.members, k);
        }
        forall i, j | 0 <= i < |a| && 0 <= j < |w.members| && a[i].key == w.members[j].key
          ensures Equivalent(a[i].value, w.members[j].value)
        {
          assert HasKey(a, a[i].key);
          var k :| 0 <= k < |r.members| && r.members[k].key == a[i].key;
          EquivalentMeet(a[i].value, w.members[j].value, r.members[k].value);
        }
      case _ =>
    }
  }

  /** A printed value up to a delimiter determines the value and where it ends. */
  lemma {:induction false} PrintUnique(v: Value, w: Value, x: string, y: string)
    requires WellFormed(v) && WellFormed(w) && Print(v).Ok? && Print(w).Ok?
    requires Delimited(x) && Delimited(y)
    requires Print(v).value + x == Print(w).value + y
    ensures x == y && Equivalent(v, w)
  {
    var a := ReadPrint(v, x);
    var b := ReadPrint(w, y);
    EquivalentMeet(v, w, a);
  }

  /** Canonical JSON is unambiguous: two printable values print alike exactly when they
      are the same value, whatever the insertion order of their members. */
  lemma {:induction false} PrintIffEquivalent(v: Value, w: Value)
    requires WellFormed(v) && WellFormed(w) && Print(v).Ok? && Print(w).Ok?
    ensures Print(v) == Print(w) <==> Equivalent(v, w)
  {
    if Print(v) == Print(w) {
      PrintUnique(v, w, [], []);
    }
    if Equivalent(v, w) {
      EquivalentPrints(v, w);
    }
  }
}
