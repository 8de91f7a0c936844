/** How a struct with optional fields becomes a JSON object: a field is left out when it
    holds nothing, and the fields of equal objects agree one by one. */
module Records {
  import opened Prelude
  import opened CanonicalJson
  import Decimal

  datatype Field = Field(name: string, value: Option<Value>)

  /** The members actually serialised. */
  function Present(fields: seq<Field>): seq<Member> {
    if fields == [] then []
    else
      (match fields[0].value
       case None => []
       case Some(v) => [Member(fields[0].name, v)])
      + Present(fields[1..])
  }

  predicate DistinctNames(fields: seq<Field>) {
    forall i, j :: 0 <= i < j < |fields| ==> fields[i].name != fields[j].name
  }

  predicate WellFormedFields(fields: seq<Field>) {
    forall i :: 0 <= i < |fields| && fields[i].value.Some? ==> WellFormed(fields[i].value.value)
  }

  /** Field by field agreement, values compared as JSON values. */
  ghost predicate Agree(a: Option<Value>, b: Option<Value>) {
    a.Some? == b.Some? && (a.Some? ==> Equivalent(a.value, b.value))
  }

  lemma {:induction false} MemberIsField(fields: seq<Field>, i: nat) returns (j: nat)
    requires i < |Present(fields)|
    ensures j < |fields| && fields[j].value.Some?
    ensures Present(fields)[i] == Member(fields[j].name, fields[j].value.value)
  {
    if fields[0].value.None? {
      j := MemberIsField(fields[1..], i);
      j := j + 1;
    } else if i == 0 {
      j := 0;
    } else {
      j := MemberIsField(fields[1..], i - 1);
      j := j + 1;
    }
  }

  lemma {:induction false} FieldIsMember(fields: seq<Field>, j: nat) returns (i: nat)
    requires j < |fields| && fields[j].value.Some?
    ensures i < |Present(fields)|
    ensures Present(fields)[i] == Member(fields[j].name, fields[j].value.value)
  {
    if j == 0 {
      i := 0;
    } else {
      i := FieldIsMember(fields[1..], j - 1);
      if fields[0].value.Some? {
        i := i + 1;
      }
    }
  }

  lemma {:induction false} PresentDistinct(fields: seq<Field>)
    requires DistinctNames(fields)
    ensures DistinctKeys(Present(fields))
  {
    if fields != [] {
      var rest := fields[1..];
      PresentDistinct(rest);
      if fields[0].value.Some? {
        forall i | 0 <= i < |Present(rest)| ensures Present(rest)[i].key != fields[0].name {
          var j := MemberIsField(rest, i);
          assert rest[j] == fields[j + 1];
        }
      }
    }
  }

  lemma PresentWellFormed(fields: seq<Field>)
    requires DistinctNames(fields) && WellFormedFields(fields)
    ensures WellFormed(JObject(Present(fields)))
  {
    PresentDistinct(fields);
    forall i | 0 <= i < |Present(fields)| ensures WellFormed(Present(fields)[i].value) {
      var j := MemberIsField(fields, i);
    }
  }

  predicate SameNames(f: seq<Field>, g: seq<Field>) {
    |f| == |g| && forall i :: 0 <= i < |f| ==> f[i].name == g[i].name
  }

  lemma PresentHasKey(f: seq<Field>, g: seq<Field>, i: nat)
    requires SameNames(f, g) && DistinctNames(f) && i < |f|
    requires Equivalent(JObject(Present(f)), JObject(Present(g))) && f[i].value.Some?
    ensures g[i].value.Some?
  {
    var m := FieldIsMember(f, i);
    assert HasKey(Present(f), f[i].name);
    assert HasKey(Present(g), f[i].name);
    var n :| 0 <= n < |Present(g)| && Present(g)[n].key == f[i].name;
    var j := MemberIsField(g, n);
    assert f[j].name == f[i].name;
    assert j == i;
  }

  lemma EquivalentSymmetricKeys(f: seq<Field>, g: seq<Field>, i: nat)
    requires SameNames(f, g) && DistinctNames(f) && i < |f|
    requires Equivalent(JObject(Present(f)), JObject(Present(g))) && g[i].value.Some?
    ensures f[i].value.Some?
  {
    var m := FieldIsMember(g, i);
    assert HasKey(Present(g), g[i].name);
    assert HasKey(Present(f), g[i].name);
    var n :| 0 <= n < |Present(f)| && Present(f)[n].key == g[i].name;
    var j := MemberIsField(f, n);
    assert j == i;
  }

  /** Equal objects come from records that agree in every field. */
  lemma EquivalentRecords(f: seq<Field>, g: seq<Field>, i: nat)
    requires SameNames(f, g) && DistinctNames(f) && i < |f|
    requires Equivalent(JObject(Present(f)), JObject(Present(g)))
    ensures Agree(f[i].value, g[i].value)
  {
    if f[i].value.Some? {
      PresentHasKey(f, g, i);
      var m := FieldIsMember(f, i);
      var n := FieldIsMember(g, i);
      assert Present(f)[m].key == Present(g)[n].key;
    } else if g[i].value.Some? {
      EquivalentSymmetricKeys(f, g, i);
    }
  }

  lemma AgreeIntegers(i: int, j: int)
    requires -0x1_0000_0000_0000_0000 <= i <= 0x1_0000_0000_0000_0000
    requires -0x1_0000_0000_0000_0000 <= j <= 0x1_0000_0000_0000_0000
    requires Equivalent(JNumber(Integer(i)), JNumber(Integer(j)))
    ensures i == j
  {
    Decimal.IntCanonical(i);
    Decimal.IntCanonical(j);
    Decimal.SameTextIffSameNumber(Decimal.IntText(i), Decimal.IntText(j));
    Decimal.IntTextInjective(i, j);
  }

  // ---------------------------------------------------------------------------
  // Records that always print.
  // ---------------------------------------------------------------------------

  /** A value that cannot fail to print. */
  predicate Plain(v: Value) {
    v.JNull? || v.JBool? || v.JString? || (v.JNumber? && v.n.Integer? && 0 <= v.n.i <= 0x1_0000_0000_0000_0000)
  }

  lemma {:induction false} PlainMembersPrint(within: Value, members: seq<Member>, first: bool)
    requires forall i :: 0 <= i < |members| ==> members[i].value < within
    requires forall i :: 0 <= i < |members| ==> Plain(members[i].value)
    ensures PrintMembers(within, members, first).Ok?
    decreases |members|
  {
    if members != [] {
      PlainMembersPrint(within, members[1..], false);
      if members[0].value.JNumber? {
        Decimal.IntCanonical(members[0].value.n.i);
      }
    }
  }

  lemma PlainObjectPrints(members: seq<Member>)
    requires forall i :: 0 <= i < |members| ==> Plain(members[i].value)
    ensures Print(JObject(members)).Ok?
  {
    var v := JObject(members);
    var sorted := SortMembers(members);
    forall i | 0 <= i < |sorted| ensures sorted[i] in members {
      SortedMembersBelong(members, sorted[i]);
    }
    PlainMembersPrint(v, sorted, true);
  }

  lemma {:induction false} PresentPlain(fields: seq<Field>)
    requires forall i :: 0 <= i < |fields| && fields[i].value.Some? ==> Plain(fields[i].value.value)
    ensures forall i :: 0 <= i < |Present(fields)| ==> Plain(Present(fields)[i].value)
  {
    if fields != [] {
      PresentPlain(fields[1..]);
    }
  }

  lemma PlainRecordPrints(fields: seq<Field>)
    requires forall i :: 0 <= i < |fields| && fields[i].value.Some? ==> Plain(fields[i].value.value)
    ensures Print(JObject(Present(fields))).Ok?
  {
    PresentPlain(fields);
    PlainObjectPrints(Present(fields));
  }
}
