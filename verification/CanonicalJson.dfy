/** Canonical JSON text: src/canonical_json.rs.

    A printed value determines the value, up to the order in which object members were
    inserted and up to how a number was written. */
module CanonicalJson {
  import opened Prelude
  import opened KeyOrder
  import Decimal

  /** A JSON number: a machine integer, or a float held by the text it prints to. */
  datatype Number = Integer(i: int) | Float(text: string)

  datatype Member = Member(key: string, value: Value)

  datatype Value =
    | JNull
    | JBool(b: bool)
    | JNumber(n: Number)
    | JString(s: string)
    | JArray(items: seq<Value>)
    | JObject(members: seq<Member>)

  function NumberText(n: Number): string {
    match n
    case Integer(i) => Decimal.IntText(i)
    case Float(text) => text
  }

  // ---------------------------------------------------------------------------
  // Strings.
  // ---------------------------------------------------------------------------

  function HexDigit(nibble: nat): (c: char)
    requires nibble < 16
  {
    if nibble <= 9 then ('0' as int + nibble) as char else ('a' as int + nibble - 10) as char
  }

  function EscapeChar(c: char): (r: string)
    ensures r != []
  {
    if c == '"' then "\\\""
    else if c == '\\' then "\\\\"
    else if c as int == 0x08 then "\\b"
    else if c as int == 0x0C then "\\f"
    else if c == '\n' then "\\n"
    else if c == '\r' then "\\r"
    else if c == '\t' then "\\t"
    else if c as int <= 0x1F then
      "\\u" + [HexDigit(c as int / 0x1000), HexDigit(c as int / 0x100 % 16),
               HexDigit(c as int / 0x10 % 16), HexDigit(c as int % 16)]
    else [c]
  }

  function Escape(s: string): string {
    if s == [] then "" else EscapeChar(s[0]) + Escape(s[1..])
  }

  function Quote(s: string): string {
    "\"" + Escape(s) + "\""
  }

  // ---------------------------------------------------------------------------
  // Objects are printed in the byte order of their keys.
  // ---------------------------------------------------------------------------

  function InsertMember(m: Member, sorted: seq<Member>): (r: seq<Member>)
    ensures multiset(r) == multiset{m} + multiset(sorted)
  {
    if sorted == [] then [m]
    else if KeyLess(sorted[0].key, m.key) then
      assert sorted == [sorted[0]] + sorted[1..];
      [sorted[0]] + InsertMember(m, sorted[1..])
    else [m] + sorted
  }

  function SortMembers(members: seq<Member>): (r: seq<Member>)
    ensures multiset(r) == multiset(members)
  {
    if members == [] then []
    else
      assert members == [members[0]] + members[1..];
      InsertMember(members[0], SortMembers(members[1..]))
  }

  lemma SortedMembersBelong(members: seq<Member>, m: Member)
    ensures m in SortMembers(members) <==> m in members
  {
    assert m in multiset(SortMembers(members)) <==> m in multiset(members);
  }

  // ---------------------------------------------------------------------------
  // Printing.
  // ---------------------------------------------------------------------------

  type Printed = Result<string, Decimal.DecimalError>

  function Print(v: Value): Printed
    decreases v
  {
    match v
    case JNull => Ok("null")
    case JBool(b) => Ok(if b then "true" else "false")
    case JNumber(n) => Decimal.Canonicalize(NumberText(n))
    case JString(s) => Ok(Quote(s))
    case JArray(items) =>
      var body :- PrintItems(v, items, true);
      Ok("[" + body + "]")
    case JObject(members) =>
      var sorted := SortMembers(members);
      forall i | 0 <= i < |sorted| ensures sorted[i].value < v {
        SortedMembersBelong(members, sorted[i]);
      }
      var body :- PrintMembers(v, sorted, true);
      Ok("{" + body + "}")
  }

  function PrintItems(ghost within: Value, items: seq<Value>, first: bool): Printed
    requires forall i :: 0 <= i < |items| ==> items[i] < within
    decreases within, |items|
  {
    if items == [] then Ok("")
    else
      var head :- Print(items[0]);
      var tail :- PrintItems(within, items[1..], false);
      Ok((if first then "" else ",") + head + tail)
  }

  function PrintMembers(ghost within: Value, members: seq<Member>, first: bool): Printed
    requires forall i :: 0 <= i < |members| ==> members[i].value < within
    decreases within, |members|
  {
    if members == [] then Ok("")
    else
      var head :- Print(members[0].value);
      var tail :- PrintMembers(within, members[1..], false);
      Ok((if first then "" else ",") + Quote(members[0].key) + ":" + head + tail)
  }

  // ---------------------------------------------------------------------------
  // Reference definition: when two JSON values are the same value.
  // ---------------------------------------------------------------------------

  predicate DistinctKeys(members: seq<Member>) {
    forall i, j :: 0 <= i < j < |members| ==> members[i].key != members[j].key
  }

  /** A JSON object is a map: no key occurs twice, at any depth. */
  predicate WellFormed(v: Value) {
    match v
    case JArray(items) => forall i :: 0 <= i < |items| ==> WellFormed(items[i])
    case JObject(members) =>
      DistinctKeys(members) && forall i :: 0 <= i < |members| ==> WellFormed(members[i].value)
    case _ => true
  }

  ghost predicate HasKey(members: seq<Member>, key: string) {
    exists i :: 0 <= i < |members| && members[i].key == key
  }

  /** Numbers are compared by the rational they denote, objects as maps. */
  ghost predicate Equivalent(v: Value, w: Value)
    decreases v
  {
    match (v, w)
    case (JNull, JNull) => true
    case (JBool(a), JBool(b)) => a == b
    case (JNumber(a), JNumber(b)) => Decimal.Denotes(NumberText(a)) == Decimal.Denotes(NumberText(b))
    case (JString(a), JString(b)) => a == b
    case (JArray(a), JArray(b)) => |a| == |b| && forall i :: 0 <= i < |a| ==> Equivalent(a[i], b[i])
    case (JObject(a), JObject(b)) =>
      && (forall k :: HasKey(a, k) <==> HasKey(b, k))
      && (forall i, j :: 0 <= i < |a| && 0 <= j < |b| && a[i].key == b[j].key ==>
            Equivalent(a[i].value, b[j].value))
    case _ => false
  }

  /** One value is the other with object members listed in another order, at any depth;
      numbers and strings are the same as written. */
  ghost predicate Reordered(v: Value, w: Value)
    decreases v
  {
    || v == w
    || match (v, w)
       case (JArray(a), JArray(b)) => |a| == |b| && forall i :: 0 <= i < |a| ==> Reordered(a[i], b[i])
       case (JObject(a), JObject(b)) =>
         && DistinctKeys(a) && DistinctKeys(b)
         && (forall k :: HasKey(a, k) <==> HasKey(b, k))
         && (forall i, j :: 0 <= i < |a| && 0 <= j < |b| && a[i].key == b[j].key ==>
               Reordered(a[i].value, b[j].value))
       case _ => false
  }

  // ---------------------------------------------------------------------------
  // Sorting object members.
  // ---------------------------------------------------------------------------

  function Keys(members: seq<Member>): (r: seq<string>)
    ensures |r| == |members| && forall i :: 0 <= i < |r| ==> r[i] == members[i].key
  {
    seq(|members|, i requires 0 <= i < |members| => members[i].key)
  }

  lemma {:induction false} InsertIncreasing(m: Member, sorted: seq<Member>)
    requires Increasing(Keys(sorted))
    requires forall i :: 0 <= i < |sorted| ==> sorted[i].key != m.key
    ensures Increasing(Keys(InsertMember(m, sorted)))
    ensures sorted != [] ==> var h := InsertMember(m, sorted)[0].key; h == m.key || h == sorted[0].key
  {
    if sorted != [] {
      var rest, r := sorted[1..], InsertMember(m, sorted);
      assert Keys(rest) == Keys(sorted)[1..];
      IncreasingTail(Keys(sorted));
      KeyLessTotal(m.key, sorted[0].key);
      if KeyLess(sorted[0].key, m.key) {
        InsertIncreasing(m, rest);
        var t := InsertMember(m, rest);
        assert r == [sorted[0]] + t;
        forall j | 0 <= j < |t| ensures KeyLess(sorted[0].key, t[j].key) {
          InsertedBelong(m, rest, t[j]);
          if t[j] in rest {
            var k :| 0 <= k < |rest| && rest[k] == t[j];
            assert KeyLess(Keys(sorted)[0], Keys(sorted)[k + 1]);
          }
        }
        PrependIncreasing(sorted[0], t);
      } else {
        assert KeyLess(m.key, sorted[0].key);
        forall j | 0 <= j < |sorted| ensures KeyLess(m.key, sorted[j].key) {
          if j > 0 {
            assert KeyLess(Keys(sorted)[0], Keys(sorted)[j]);
            KeyLessTransitive(m.key, sorted[0].key, sorted[j].key);
          }
        }
        PrependIncreasing(m, sorted);
      }
    }
  }

  lemma InsertedBelong(m: Member, sorted: seq<Member>, x: Member)
    requires x in InsertMember(m, sorted)
    ensures x == m || x in sorted
  {
    assert x in multiset(InsertMember(m, sorted));
    assert x in multiset{m} + multiset(sorted);
  }

  lemma PrependIncreasing(m: Member, t: seq<Member>)
    requires Increasing(Keys(t)) && forall j :: 0 <= j < |t| ==> KeyLess(m.key, t[j].key)
    ensures Increasing(Keys([m] + t))
  {
    var ks := Keys([m] + t);
    forall i, j | 0 <= i < j < |ks| ensures KeyLess(ks[i], ks[j]) {
      assert ks[j] == t[j - 1].key;
      assert i > 0 ==> ks[i] == Keys(t)[i - 1] && ks[j] == Keys(t)[j - 1];
    }
  }

  /** Sorting the members of an object lists their keys in increasing order. */
  lemma {:induction false} SortIncreasing(members: seq<Member>)
    requires DistinctKeys(members)
    ensures Increasing(Keys(SortMembers(members)))
  {
    if members != [] {
      var rest := members[1..];
      var sorted := SortMembers(rest);
      SortIncreasing(rest);
      forall i | 0 <= i < |sorted| ensures sorted[i].key != members[0].key {
        SortedMembersBelong(rest, sorted[i]);
        var j :| 0 <= j < |rest| && rest[j] == sorted[i];
        assert rest[j] == members[j + 1];
      }
      InsertIncreasing(members[0], sorted);
    }
  }

  lemma {:induction false} SortedKeys(members: seq<Member>, k: string)
    ensures k in Keys(SortMembers(members)) <==> HasKey(members, k)
  {
    var sorted := SortMembers(members);
    if k in Keys(sorted) {
      var i :| 0 <= i < |sorted| && Keys(sorted)[i] == k;
      SortedMembersBelong(members, sorted[i]);
      var j :| 0 <= j < |members| && members[j] == sorted[i];
      assert members[j].key == k;
    }
    if HasKey(members, k) {
      var j :| 0 <= j < |members| && members[j].key == k;
      SortedMembersBelong(members, members[j]);
      var i :| 0 <= i < |sorted| && sorted[i] == members[j];
      assert Keys(sorted)[i] == k;
    }
  }

  // ---------------------------------------------------------------------------
  // Sorted members are members.
  // ---------------------------------------------------------------------------

  lemma SortedWithin(a: seq<Member>, s: seq<Member>)
    requires s == SortMembers(a)
    ensures forall i :: 0 <= i < |s| ==> s[i].value < JObject(a)
  {
    forall i | 0 <= i < |s| ensures s[i].value < JObject(a) {
      SortedMembersBelong(a, s[i]);
    }
  }

  function Braced(body: Printed): Printed {
    match body
    case Ok(text) => Ok("{" + text + "}")
    case Err(e) => Err(e)
  }

  lemma {:induction false} ObjectUnfold(v: Value, s: seq<Member>, body: Printed)
    requires v.JObject? && s == SortMembers(v.members)
    requires forall i :: 0 <= i < |s| ==> s[i].value < v
    requires body == PrintMembers(v, s, true)
    ensures Print(v) == Braced(body)
  {
    if body.Ok? {
      assert Print(v).Ok? && Print(v).value == "{" + body.value + "}";
    }
  }

  lemma SortedWellFormed(v: Value, a: seq<Member>)
    requires v.JObject? && WellFormed(v) && a == SortMembers(v.members)
    ensures forall i :: 0 <= i < |a| ==> a[i].value < v && WellFormed(a[i].value)
  {
    forall i | 0 <= i < |a| ensures a[i].value < v && WellFormed(a[i].value) {
      SortedMembersBelong(v.members, a[i]);
      var j :| 0 <= j < |v.members| && v.members[j] == a[i];
      assert WellFormed(v.members[j].value);
    }
  }

  lemma SortedIndex(a: seq<Member>, i: nat, s: seq<Member>) returns (m: nat)
    requires i < |a| && s == SortMembers(a)
    ensures m < |s| && s[m] == a[i]
  {
    SortedMembersBelong(a, a[i]);
    m :| m < |s| && s[m] == a[i];
  }

  lemma IncreasingInjective(keys: seq<string>, m: nat, n: nat)
    requires Increasing(keys) && m < |keys| && n < |keys| && keys[m] == keys[n]
    ensures m == n
  {
    KeyLessIrreflexive(keys[m]);
  }

  // ---------------------------------------------------------------------------
  // Equivalent values print alike.
  // ---------------------------------------------------------------------------

  lemma {:induction false} EquivalentPrints(v: Value, w: Value)
    requires WellFormed(v) && WellFormed(w) && Print(v).Ok? && Print(w).Ok?
    requires Equivalent(v, w)
    ensures Print(v) == Print(w)
    decreases v
  {
    match v {
      case JNumber(n) =>
        Decimal.SameTextIffSameNumber(NumberText(n), NumberText(w.n));
      case JArray(a) =>
        EquivalentItems(v, a, w, w.items, true);
      case JObject(a) =>
        var s, t := SortMembers(a), SortMembers(w.members);
        SortedWellFormed(v, s);
        SortedWellFormed(w, t);
        SortedEquivalent(a, w.members);
        EquivalentMembers(v, s, w, t, true);
      case _ =>
    }
  }

  /** Objects with the same keys list them in the same order once sorted. */
  lemma {:induction false} SameSortedKeys(a: seq<Member>, b: seq<Member>)
    requires DistinctKeys(a) && DistinctKeys(b) && forall k :: HasKey(a, k) <==> HasKey(b, k)
    ensures Keys(SortMembers(a)) == Keys(SortMembers(b))
  {
    var s, t := SortMembers(a), SortMembers(b);
    SortIncreasing(a);
    SortIncreasing(b);
    forall k ensures k in Keys(s) <==> k in Keys(t) {
      SortedKeys(a, k);
      SortedKeys(b, k);
      assert HasKey(a, k) <==> HasKey(b, k);
    }
    IncreasingUnique(Keys(s), Keys(t));
  }

  lemma {:induction false} SortedEquivalent(a: seq<Member>, b: seq<Member>)
    requires DistinctKeys(a) && DistinctKeys(b) && Equivalent(JObject(a), JObject(b))
    ensures var s, t := SortMembers(a), SortMembers(b);
            |s| == |t|
            && forall i :: 0 <= i < |s| ==> s[i].key == t[i].key && Equivalent(s[i].value, t[i].value)
  {
    var s, t := SortMembers(a), SortMembers(b);
    SameSortedKeys(a, b);
    forall i | 0 <= i < |s| ensures s[i].key == t[i].key && Equivalent(s[i].value, t[i].value) {
      assert Keys(s)[i] == Keys(t)[i];
      var m := UnsortedIndex(a, i, s);
      var n := UnsortedIndex(b, i, t);
      assert a[m].key == b[n].key;
    }
  }

  lemma UnsortedIndex(a: seq<Member>, i: nat, s: seq<Member>) returns (m: nat)
    requires s == SortMembers(a) && i < |s|
    ensures m < |a| && a[m] == s[i]
  {
    SortedMembersBelong(a, s[i]);
    m :| m < |a| && a[m] == s[i];
  }

  lemma {:induction false} EquivalentItems(v: Value, a: seq<Value>, w: Value, b: seq<Value>, first: bool)
    requires forall i :: 0 <= i < |a| ==> a[i] < v && WellFormed(a[i])
    requires forall i :: 0 <= i < |b| ==> b[i] < w && WellFormed(b[i])
    requires PrintItems(v, a, first).Ok? && PrintItems(w, b, first).Ok?
    requires |a| == |b| && forall i :: 0 <= i < |a| ==> Equivalent(a[i], b[i])
    ensures PrintItems(v, a, first) == PrintItems(w, b, first)
    decreases v, |a|
  {
    if a != [] {
      EquivalentPrints(a[0], b[0]);
      EquivalentItems(v, a[1..], w, b[1..], false);
    }
  }

  lemma {:induction false} EquivalentMembers(v: Value, a: seq<Member>, w: Value, b: seq<Member>, first: bool)
    requires forall i :: 0 <= i < |a| ==> a[i].value < v && WellFormed(a[i].value)
    requires forall i :: 0 <= i < |b| ==> b[i].value < w && WellFormed(b[i].value)
    requires PrintMembers(v, a, first).Ok? && PrintMembers(w, b, first).Ok?
    requires |a| == |b|
    requires forall i :: 0 <= i < |a| ==> a[i].key == b[i].key && Equivalent(a[i].value, b[i].value)
    ensures PrintMembers(v, a, first) == PrintMembers(w, b, first)
    decreases v, |a|
  {
    if a != [] {
      EquivalentPrints(a[0].value, b[0].value);
      EquivalentMembers(v, a[1..], w, b[1..], false);
    }
  }

  // ---------------------------------------------------------------------------
  // Insertion order never shows.
  // ---------------------------------------------------------------------------

  /** Values that differ only in the order of object members, at any depth, print alike, and
      where one of them cannot be printed, fail alike. */
  lemma {:induction false} InsertionOrderIrrelevant(v: Value, w: Value)
    requires Reordered(v, w)
    ensures Print(v) == Print(w)
    decreases v
  {
    if v != w {
      match v {
        case JArray(a) =>
          ReorderedItems(v, a, w, w.items, true);
        case JObject(a) =>
          var s, t := SortMembers(a), SortMembers(w.members);
          SortedWithin(a, s);
          SortedWithin(w.members, t);
          SortedReordered(a, w.members);
          ReorderedMembers(v, s, w, t, true);
          ObjectUnfold(v, s, PrintMembers(v, s, true));
          ObjectUnfold(w, t, PrintMembers(w, t, true));
        case _ =>
      }
    }
  }

  lemma {:induction false} SortedReordered(a: seq<Member>, b: seq<Member>)
    requires a != b && Reordered(JObject(a), JObject(b))
    ensures var s, t := SortMembers(a), SortMembers(b);
            |s| == |t|
            && forall i :: 0 <= i < |s| ==> s[i].key == t[i].key && Reordered(s[i].value, t[i].value)
  {
    var s, t := SortMembers(a), SortMembers(b);
    SameSortedKeys(a, b);
    forall i | 0 <= i < |s| ensures s[i].key == t[i].key && Reordered(s[i].value, t[i].value) {
      assert Keys(s)[i] == Keys(t)[i];
      var m := UnsortedIndex(a, i, s);
      var n := UnsortedIndex(b, i, t);
      assert a[m].key == b[n].key;
    }
  }

  lemma {:induction false} ReorderedItems(v: Value, a: seq<Value>, w: Value, b: seq<Value>, first: bool)
    requires forall i :: 0 <= i < |a| ==> a[i] < v
    requires forall i :: 0 <= i < |b| ==> b[i] < w
    requires |a| == |b| && forall i :: 0 <= i < |a| ==> Reordered(a[i], b[i])
    ensures PrintItems(v, a, first) == PrintItems(w, b, first)
    decreases v, |a|
  {
    if a != [] {
      InsertionOrderIrrelevant(a[0], b[0]);
      ReorderedItems(v, a[1..], w, b[1..], false);
    }
  }

  lemma {:induction false} ReorderedMembers(v: Value, a: seq<Member>, w: Value, b: seq<Member>, first: bool)
    requires forall i :: 0 <= i < |a| ==> a[i].value < v
    requires forall i :: 0 <= i < |b| ==> b[i].value < w
    requires |a| == |b|
    requires forall i :: 0 <= i < |a| ==> a[i].key == b[i].key && Reordered(a[i].value, b[i].value)
    ensures PrintMembers(v, a, first) == PrintMembers(w, b, first)
    decreases v, |a|
  {
    if a != [] {
      InsertionOrderIrrelevant(a[0].value, b[0].value);
      ReorderedMembers(v, a[1..], w, b[1..], false);
    }
  }

  lemma SameMembersSameKeys(a: seq<Member>, b: seq<Member>, k: string)
    requires multiset(a) == multiset(b) && HasKey(a, k)
    ensures HasKey(b, k)
  {
    var i :| 0 <= i < |a| && a[i].key == k;
    assert a[i] in multiset(b);
    var j :| 0 <= j < |b| && b[j] == a[i];
  }

  /** In particular, the members of one object may come in any order. */
  lemma MembersInAnyOrder(a: seq<Member>, b: seq<Member>)
    requires DistinctKeys(a) && DistinctKeys(b) && multiset(a) == multiset(b)
    ensures Reordered(JObject(a), JObject(b)) && Print(JObject(a)) == Print(JObject(b))
  {
    forall k ensures HasKey(a, k) <==> HasKey(b, k) {
      if HasKey(a, k) {
        SameMembersSameKeys(a, b, k);
      }
      if HasKey(b, k) {
        SameMembersSameKeys(b, a, k);
      }
    }
    forall i, j | 0 <= i < |a| && 0 <= j < |b| && a[i].key == b[j].key ensures a[i] == b[j] {
      assert a[i] in multiset(b);
      var m :| 0 <= m < |b| && b[m] == a[i];
      assert m == j;
    }
    InsertionOrderIrrelevant(JObject(a), JObject(b));
  }

  // ---------------------------------------------------------------------------
  // A printed object is at least as long as any of its members.
  // ---------------------------------------------------------------------------

  lemma {:induction false} EscapeLength(s: string)
    ensures |s| <= |Escape(s)|
  {
    if s != [] {
      EscapeLength(s[1..]);
    }
  }

  lemma {:induction false} MembersLength(v: Value, members: seq<Member>, first: bool, i: nat)
    requires forall j :: 0 <= j < |members| ==> members[j].value < v
    requires PrintMembers(v, members, first).Ok? && i < |members|
    ensures Print(members[i].value).Ok?
    ensures |Print(members[i].value).value| <= |PrintMembers(v, members, first).value|
    decreases |members|
  {
    if i > 0 {
      MembersLength(v, members[1..], false, i - 1);
    }
  }

  /** A string held by an object is no longer than the printed object. */
  lemma HeldStringIsPrinted(a: seq<Member>, i: nat, text: string)
    requires Print(JObject(a)).Ok? && i < |a| && a[i].value == JString(text)
    ensures |text| <= |Print(JObject(a)).value|
  {
    var s := SortMembers(a);
    SortedWithin(a, s);
    ObjectUnfold(JObject(a), s, PrintMembers(JObject(a), s, true));
    SortedMembersBelong(a, a[i]);
    var m :| 0 <= m < |s| && s[m] == a[i];
    MembersLength(JObject(a), s, true, m);
    EscapeLength(text);
  }

  // ---------------------------------------------------------------------------
  // The printer as it runs: every function appends to one shared buffer.
  // ---------------------------------------------------------------------------

  class TextBuffer {
    var text: string

    constructor ()
      ensures text == ""
    {
      text := "";
    }

    method Push(s: string)
      modifies this
      ensures text == old(text) + s
    {
      text := text + s;
    }
  }

  lemma EscapeNext(done: string, input: string, i: nat)
    requires i < |input|
    ensures done + Escape(input[i..]) == done + EscapeChar(input[i]) + Escape(input[i + 1..])
  {
    assert input[i..][1..] == input[i + 1..] && input[i..][0] == input[i];
  }

  method WriteJsonString(input: string, out: TextBuffer)
    modifies out
    ensures out.text == old(out.text) + Quote(input)
  {
    out.Push("\"");
    for i := 0 to |input|
      invariant out.text + Escape(input[i..]) == old(out.text) + "\"" + Escape(input)
    {
      EscapeNext(out.text, input, i);
      out.Push(EscapeChar(input[i]));
    }
    assert out.text + Escape(input[|input|..]) == out.text;
    out.Push("\"");
    assert old(out.text) + "\"" + Escape(input) + "\"" == old(out.text) + Quote(input);
  }

  /** What is printed once `done` is in the buffer and `rest` remains. */
  function Resume(done: string, rest: Printed): Printed {
    var text :- rest;
    Ok(done + text)
  }

  method WriteValue(value: Value, out: TextBuffer) returns (r: Result<(), Decimal.DecimalError>)
    modifies out
    ensures match Print(value)
            case Ok(text) => r == Ok(()) && out.text == old(out.text) + text
            case Err(e) => r == Err(e)
    decreases value, 1
  {
    match value {
      case JNull => out.Push("null");
      case JBool(b) => out.Push(if b then "true" else "false");
      case JNumber(n) =>
        var text :- Decimal.Canonicalize(NumberText(n));
        out.Push(text);
      case JString(s) => WriteJsonString(s, out);
      case JArray(items) =>
        var _ :- WriteArray(value, items, out);
      case JObject(members) =>
        var _ :- WriteObject(value, members, out);
    }
    return Ok(());
  }

  method WriteArray(value: Value, items: seq<Value>, out: TextBuffer)
    returns (r: Result<(), Decimal.DecimalError>)
    requires value == JArray(items)
    modifies out
    ensures match Print(value)
            case Ok(text) => r == Ok(()) && out.text == old(out.text) + text
            case Err(e) => r == Err(e)
    decreases value, 0, 1
  {
    out.Push("[");
    var _ :- WriteItems(value, items, out);
    out.Push("]");
    Bracket(old(out.text), "[", PrintItems(value, items, true).value, "]");
    return Ok(());
  }

  method WriteItems(ghost value: Value, items: seq<Value>, out: TextBuffer)
    returns (r: Result<(), Decimal.DecimalError>)
    requires forall i :: 0 <= i < |items| ==> items[i] < value
    modifies out
    ensures match PrintItems(value, items, true)
            case Ok(text) => r == Ok(()) && out.text == old(out.text) + text
            case Err(e) => r == Err(e)
    decreases value, 0, 0
  {
    assert items[0..] == items;
    for idx := 0 to |items|
      invariant Resume(old(out.text), PrintItems(value, items, true))
             == Resume(out.text, PrintItems(value, items[idx..], idx == 0))
    {
      ItemsStep(value, items, idx, out.text);
      if idx > 0 {
        out.Push(",");
      }
      var _ :- WriteValue(items[idx], out);
    }
    ResumeDone(old(out.text), PrintItems(value, items, true), out.text);
    return Ok(());
  }

  lemma Bracket(before: string, open: string, body: string, close: string)
    ensures before + open + body + close == before + (open + body + close)
  {
  }

  lemma ResumeDone(before: string, whole: Printed, after: string)
    requires Resume(before, whole) == Resume(after, Ok(""))
    ensures whole.Ok? && after == before + whole.value
  {
    assert after + "" == after;
  }

  /** One turn of the loop over array items: separator, item, then the rest. */
  lemma {:induction false} ItemsStep(value: Value, items: seq<Value>, idx: nat, done: string)
    requires forall i :: 0 <= i < |items| ==> items[i] < value
    requires idx < |items|
    ensures var rest := PrintItems(value, items[idx..], idx == 0);
            match Print(items[idx])
            case Err(e) => rest == Err(e)
            case Ok(head) =>
              Resume(done, rest) == Resume((if idx == 0 then done else done + ",") + head,
                                           PrintItems(value, items[idx + 1..], false))
  {
    ItemsParts(value, items[idx..], idx == 0);
    assert items[idx..][0] == items[idx] && items[idx..][1..] == items[idx + 1..];
    if Print(items[idx]).Ok? {
      var sep, head := if idx == 0 then "" else ",", Print(items[idx]).value;
      ResumeStep(done, sep + head, PrintItems(value, items[idx + 1..], false));
      Separated(done, idx == 0, head);
    }
  }

  lemma Separated(done: string, first: bool, piece: string)
    ensures done + ((if first then "" else ",") + piece) == (if first then done else done + ",") + piece
  {
  }

  lemma {:induction false} ItemsParts(value: Value, items: seq<Value>, first: bool)
    requires forall i :: 0 <= i < |items| ==> items[i] < value
    requires items != []
    ensures PrintItems(value, items, first)
         == match Print(items[0])
            case Err(e) => Err(e)
            case Ok(head) => Resume((if first then "" else ",") + head, PrintItems(value, items[1..], false))
  {
  }

  lemma {:induction false} MembersStep(value: Value, entries: seq<Member>, idx: nat, done: string)
    requires forall i :: 0 <= i < |entries| ==> entries[i].value < value
    requires idx < |entries|
    ensures var rest := PrintMembers(value, entries[idx..], idx == 0);
            match Print(entries[idx].value)
            case Err(e) => rest == Err(e)
            case Ok(head) =>
              Resume(done, rest)
              == Resume((if idx == 0 then done else done + ",") + Quote(entries[idx].key) + ":" + head,
                        PrintMembers(value, entries[idx + 1..], false))
  {
    assert entries[idx..][0] == entries[idx] && entries[idx..][1..] == entries[idx + 1..];
    if Print(entries[idx].value).Ok? {
      var sep, key, head := if idx == 0 then "" else ",", Quote(entries[idx].key), Print(entries[idx].value).value;
      ResumeStep(done, sep + key + ":" + head, PrintMembers(value, entries[idx + 1..], false));
      SeparatedMember(done, idx == 0, key, head);
    }
  }

  lemma SeparatedMember(done: string, first: bool, key: string, head: string)
    ensures done + ((if first then "" else ",") + key + ":" + head)
         == (if first then done else done + ",") + key + ":" + head
  {
  }

  lemma ResumeStep(done: string, piece: string, tail: Printed)
    ensures Resume(done, Resume(piece, tail)) == Resume(done + piece, tail)
  {
    assert tail.Ok? ==> done + (piece + tail.value) == done + piece + tail.value;
  }

  method WriteObject(value: Value, members: seq<Member>, out: TextBuffer)
    returns (r: Result<(), Decimal.DecimalError>)
    requires value == JObject(members)
    modifies out
    ensures match Print(value)
            case Ok(text) => r == Ok(()) && out.text == old(out.text) + text
            case Err(e) => r == Err(e)
    decreases value, 0, 1
  {
    var entries := SortMembers(members);
    forall i | 0 <= i < |entries| ensures entries[i].value < value {
      SortedMembersBelong(members, entries[i]);
    }
    out.Push("{");
    var _ :- WriteMembers(value, entries, out);
    out.Push("}");
    Bracket(old(out.text), "{", PrintMembers(value, entries, true).value, "}");
    return Ok(());
  }

  method WriteMembers(ghost value: Value, entries: seq<Member>, out: TextBuffer)
    returns (r: Result<(), Decimal.DecimalError>)
    requires forall i :: 0 <= i < |entries| ==> entries[i].value < value
    modifies out
    ensures match PrintMembers(value, entries, true)
            case Ok(text) => r == Ok(()) && out.text == old(out.text) + text
            case Err(e) => r == Err(e)
    decreases value, 0, 0
  {
    ghost var start, whole := out.text, PrintMembers(value, entries, true);
    assert entries[0..] == entries;
    for idx := 0 to |entries|
      invariant Resume(start, whole) == Resume(out.text, PrintMembers(value, entries[idx..], idx == 0))
    {
      MembersStep(value, entries, idx, out.text);
      if idx > 0 {
        out.Push(",");
      }
      WriteJsonString(entries[idx].key, out);
      out.Push(":");
      var _ :- WriteValue(entries[idx].value, out);
    }
    ResumeDone(start, whole, out.text);
    return Ok(());
  }

  method ToCanonicalString(value: Value) returns (r: Printed)
    ensures r == Print(value)
  {
    var out := new TextBuffer();
    var _ :- WriteValue(value, out);
    assert "" + Print(value).value == Print(value).value;
    return Ok(out.text);
  }
}
