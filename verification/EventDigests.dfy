/** What an event digest commits to. */
module EventDigests {
  import opened Prelude
  import opened CanonicalJson
  import opened Digests
  import opened Events
  import JsonReader
  import opened Records
  import Hex
  import StateMap
  import Utf8

  predicate WellFormedOption(v: Option<Value>) {
    v.Some? ==> WellFormed(v.value)
  }

  /** JSON values held by an event are maps without repeated keys. */
  predicate WellFormedEvent(e: Event) {
    && WellFormedOption(e.value)
    && (e.ops.Some? ==> forall i :: 0 <= i < |e.ops.value| ==> WellFormedOption(e.ops.value[i].value))
    && (e.metadata.Some? ==> WellFormed(JObject(e.metadata.value)))
  }

  ghost predicate SameOp(a: BatchOp, b: BatchOp) {
    && a.opType == b.opType && a.key == b.key && a.valueType == b.valueType
    && a.prevValueDigest == b.prevValueDigest && a.idempotent == b.idempotent
    && Agree(a.value, b.value)
  }

  ghost predicate SameOps(a: Option<seq<BatchOp>>, b: Option<seq<BatchOp>>) {
    && a.Some? == b.Some?
    && (a.Some? ==>
          |a.value| == |b.value|
          && forall i :: 0 <= i < |a.value| ==> SameOp(a.value[i], b.value[i]))
  }

  /** Agreement on every digested field; JSON payloads are compared as JSON values. */
  ghost predicate SameDigested(a: Event, b: Event) {
    && a.eventType == b.eventType && a.seqNo == b.seqNo && a.tick == b.tick
    && a.namespace == b.namespace && a.key == b.key && a.valueType == b.valueType
    && Agree(a.value, b.value) && a.prevValueDigest == b.prevValueDigest
    && a.idempotent == b.idempotent && SameOps(a.ops, b.ops)
    && a.eventCount == b.eventCount && a.rootDigest == b.rootDigest
    && a.timestampMs == b.timestampMs && a.snapshotDigest == b.snapshotDigest
    && a.archivedSeqStart == b.archivedSeqStart && a.archivedSeqEnd == b.archivedSeqEnd
    && a.archiveUri == b.archiveUri && a.errorCode == b.errorCode
    && a.offendingSeq == b.offendingSeq && a.detail == b.detail && a.prevDigest == b.prevDigest
  }

  /** The hash does not send the digest inputs of these two events to one value. */
  predicate NoCollision(sha: Hash, a: Event, b: Event) {
    DigestBytes(a).Ok? && DigestBytes(b).Ok? && sha(DigestBytes(a).value) == sha(DigestBytes(b).value) ==>
      DigestBytes(a) == DigestBytes(b)
  }

  // ---------------------------------------------------------------------------
  // Field names are distinct.
  // ---------------------------------------------------------------------------

  /** The place of a field, read off the length and first two characters of its name. */
  function Position(name: string): nat {
    if |name| < 2 then 23
    else
      if |name| == 4 && name[0] == 't' && name[1] == 'y' then 0
      else if |name| == 3 && name[0] == 's' && name[1] == 'e' then 1
      else if |name| == 4 && name[0] == 't' && name[1] == 'i' then 2
      else if |name| == 9 && name[0] == 'n' && name[1] == 'a' then 3
      else if |name| == 3 && name[0] == 'k' && name[1] == 'e' then 4
      else if |name| == 10 && name[0] == 'v' && name[1] == 'a' then 5
      else if |name| == 5 && name[0] == 'v' && name[1] == 'a' then 6
      else if |name| == 17 && name[0] == 'p' && name[1] == 'r' then 7
      else if |name| == 10 && name[0] == 'i' && name[1] == 'd' then 8
      else if |name| == 3 && name[0] == 'o' && name[1] == 'p' then 9
      else if |name| == 11 && name[0] == 'e' && name[1] == 'v' then 10
      else if |name| == 11 && name[0] == 'r' && name[1] == 'o' then 11
      else if |name| == 12 && name[0] == 't' && name[1] == 'i' then 12
      else if |name| == 15 && name[0] == 's' && name[1] == 'n' then 13
      else if |name| == 18 && name[0] == 'a' && name[1] == 'r' then 14
      else if |name| == 16 && name[0] == 'a' && name[1] == 'r' then 15
      else if |name| == 11 && name[0] == 'a' && name[1] == 'r' then 16
      else if |name| == 10 && name[0] == 'e' && name[1] == 'r' then 17
      else if |name| == 13 && name[0] == 'o' && name[1] == 'f' then 18
      else if |name| == 6 && name[0] == 'd' && name[1] == 'e' then 19
      else if |name| == 11 && name[0] == 'p' && name[1] == 'r' then 20
      else if |name| == 6 && name[0] == 'd' && name[1] == 'i' then 21
      else if |name| == 8 && name[0] == 'm' && name[1] == 'e' then 22
      else 23
  }

  lemma LowPositions(e: Event, i: nat)
    requires i < 6
    ensures Position(EventFields(e)[i].name) == i
  {
  }

  lemma MidPositions(e: Event, i: nat)
    requires 6 <= i < 12
    ensures Position(EventFields(e)[i].name) == i
  {
  }

  lemma HighPositions(e: Event, i: nat)
    requires 12 <= i < 18
    ensures Position(EventFields(e)[i].name) == i
  {
  }

  lemma TopPositions(e: Event, i: nat)
    requires 18 <= i < 23
    ensures Position(EventFields(e)[i].name) == i
  {
  }

  lemma EventNames(e: Event)
    ensures DistinctNames(EventFields(e)) && |EventFields(e)| == 23
  {
    var fields := EventFields(e);
    forall i | 0 <= i < |fields| ensures Position(fields[i].name) == i {
      if i < 6 {
        LowPositions(e, i);
      } else if i < 12 {
        MidPositions(e, i);
      } else if i < 18 {
        HighPositions(e, i);
      } else {
        TopPositions(e, i);
      }
    }
    forall i, j | 0 <= i < j < |fields| ensures fields[i].name != fields[j].name {
      assert Position(fields[i].name) == i && Position(fields[j].name) == j;
    }
  }

  lemma OpNames(op: BatchOp)
    ensures DistinctNames(OpFields(op)) && |OpFields(op)| == 6
  {
  }

  // ---------------------------------------------------------------------------
  // Fields of equal objects.
  // ---------------------------------------------------------------------------

  lemma SameStr(a: Option<string>, b: Option<string>)
    requires Agree(Str(a), Str(b))
    ensures a == b
  {
  }

  predicate Machine(a: Option<int>) {
    a.Some? ==> 0 <= a.value < 0x1_0000_0000_0000_0000
  }

  lemma SameNum(x: Option<Value>, y: Option<Value>, a: Option<int>, b: Option<int>)
    requires Agree(x, y) && x == Num(a) && y == Num(b) && Machine(a) && Machine(b)
    ensures a == b
  {
    if a.Some? {
      AgreeIntegers(a.value, b.value);
    }
  }

  lemma OpJsonWellFormed(op: BatchOp)
    requires WellFormedOption(op.value)
    ensures WellFormed(OpJson(op))
  {
    OpNames(op);
    PresentWellFormed(OpFields(op));
  }

  lemma EventJsonWellFormed(e: Event)
    requires WellFormedEvent(e)
    ensures WellFormed(EventJson(e))
  {
    EventNames(e);
    if e.ops.Some? {
      forall i | 0 <= i < |e.ops.value| ensures WellFormed(OpsJson(e.ops.value)[i]) {
        OpJsonWellFormed(e.ops.value[i]);
      }
    }
    EventFieldsWellFormed(e);
    PresentWellFormed(EventFields(e));
  }

  lemma EventFieldsWellFormed(e: Event)
    requires WellFormedEvent(e)
    requires e.ops.Some? ==> WellFormed(JArray(OpsJson(e.ops.value)))
    ensures WellFormedFields(EventFields(e))
  {
    var fields := EventFields(e);
    forall i | 0 <= i < |fields| && fields[i].value.Some? ensures WellFormed(fields[i].value.value) {
      if i == 6 || i == 9 || i == 22 {
        assert fields[6].value == e.value;
        assert fields[9].value.Some? ==> fields[9].value.value == JArray(OpsJson(e.ops.value));
        assert fields[22].value.Some? ==> fields[22].value.value == JObject(e.metadata.value);
      } else {
        PlainFields(e, i);
      }
    }
  }

  /** All fields but three hold a string, a number or a boolean. */
  lemma PlainFields(e: Event, i: nat)
    requires i < 23 && i != 6 && i != 9 && i != 22 && EventFields(e)[i].value.Some?
    ensures Plain(EventFields(e)[i].value.value)
  {
  }

  /** An event without values of its own always prints. */
  lemma PlainEventPrints(e: Event)
    requires e.value.None? && e.ops.None? && e.metadata.None?
    ensures Print(EventJson(e)).Ok?
  {
    var fields := EventFields(e);
    forall i | 0 <= i < |fields| && fields[i].value.Some? ensures Plain(fields[i].value.value) {
      ComplexFields(e);
      PlainFields(e, i);
    }
    PlainRecordPrints(fields);
  }

  lemma ComplexFields(e: Event)
    ensures |EventFields(e)| == 23
    ensures EventFields(e)[6].value == e.value
    ensures EventFields(e)[9].value == match e.ops case None => None case Some(ops) => Some(JArray(OpsJson(ops)))
    ensures EventFields(e)[22].value == match e.metadata case None => None case Some(m) => Some(JObject(m))
  {
  }

  lemma OpFieldAgrees(a: BatchOp, b: BatchOp, i: nat)
    requires Equivalent(OpJson(a), OpJson(b)) && i < 6
    ensures Agree(OpFields(a)[i].value, OpFields(b)[i].value)
  {
    OpNames(a);
    EquivalentRecords(OpFields(a), OpFields(b), i);
  }

  lemma OpSameType(a: BatchOp, b: BatchOp)
    requires Equivalent(OpJson(a), OpJson(b))
    ensures a.opType == b.opType && a.key == b.key
  {
    OpFieldAgrees(a, b, 0);
    OpTypeNamesDistinct(a.opType, b.opType);
    OpFieldAgrees(a, b, 1);
  }

  lemma OpTypeNamesDistinct(a: BatchOpType, b: BatchOpType)
    requires OpTypeName(a) == OpTypeName(b)
    ensures a == b
  {
    assert OpTypeName(a)[6] == OpTypeName(b)[6];
  }

  lemma OpSameNumber(a: BatchOp, b: BatchOp)
    requires Equivalent(OpJson(a), OpJson(b))
    ensures a.valueType == b.valueType
  {
    OpFieldAgrees(a, b, 2);
    SameNum(OpFields(a)[2].value, OpFields(b)[2].value, a.valueType, b.valueType);
  }

  lemma OpSameDigest(a: BatchOp, b: BatchOp)
    requires Equivalent(OpJson(a), OpJson(b))
    ensures a.prevValueDigest == b.prevValueDigest && a.idempotent == b.idempotent
  {
    OpFieldAgrees(a, b, 4);
    SameStr(a.prevValueDigest, b.prevValueDigest);
    OpFieldAgrees(a, b, 5);
  }

  lemma OpSameValue(a: BatchOp, b: BatchOp)
    requires Equivalent(OpJson(a), OpJson(b))
    ensures Agree(a.value, b.value)
  {
    OpFieldAgrees(a, b, 3);
  }

  lemma SameOpJson(a: BatchOp, b: BatchOp)
    requires Equivalent(OpJson(a), OpJson(b))
    ensures SameOp(a, b)
  {
    OpSameType(a, b);
    OpSameNumber(a, b);
    OpSameDigest(a, b);
    OpSameValue(a, b);
  }

  lemma SameOpsJson(a: seq<BatchOp>, b: seq<BatchOp>)
    requires Equivalent(JArray(OpsJson(a)), JArray(OpsJson(b)))
    ensures SameOps(Some(a), Some(b))
  {
    forall i | 0 <= i < |a| ensures SameOp(a[i], b[i]) {
      assert Equivalent(OpsJson(a)[i], OpsJson(b)[i]);
      SameOpJson(a[i], b[i]);
    }
  }

  lemma TypeNamesDistinct(a: EventType, b: EventType)
    requires TypeName(a) == TypeName(b)
    ensures a == b
  {
    assert TypeName(a)[6] == TypeName(b)[6];
  }

  lemma FieldAgrees(a: Event, b: Event, i: nat)
    requires Equivalent(EventJson(a), EventJson(b)) && i < 23
    ensures Agree(EventFields(a)[i].value, EventFields(b)[i].value)
  {
    EventNames(a);
    SameEventNames(a, b);
    EquivalentRecords(EventFields(a), EventFields(b), i);
  }

  lemma SameEventNames(a: Event, b: Event)
    ensures SameNames(EventFields(a), EventFields(b))
  {
  }

  lemma SameStrField(a: Event, b: Event, i: nat, x: Option<string>, y: Option<string>)
    requires Equivalent(EventJson(a), EventJson(b)) && i < 23
    requires EventFields(a)[i].value == Str(x) && EventFields(b)[i].value == Str(y)
    ensures x == y
  {
    FieldAgrees(a, b, i);
    SameStr(x, y);
  }

  lemma SameNumField(a: Event, b: Event, i: nat, x: Option<int>, y: Option<int>)
    requires Equivalent(EventJson(a), EventJson(b)) && i < 23 && Machine(x) && Machine(y)
    requires EventFields(a)[i].value == Num(x) && EventFields(b)[i].value == Num(y)
    ensures x == y
  {
    FieldAgrees(a, b, i);
    SameNum(EventFields(a)[i].value, EventFields(b)[i].value, x, y);
  }

  lemma StringFields(e: Event)
    ensures var f := EventFields(e);
            f[0].value == Str(Some(TypeName(e.eventType))) && f[3].value == Str(Some(e.namespace))
            && f[4].value == Str(e.key)
  {
  }

  lemma DigestFields(e: Event)
    ensures EventFields(e)[7].value == Str(e.prevValueDigest) && EventFields(e)[11].value == Str(e.rootDigest)
  {
  }

  lemma MoreStringFields(e: Event)
    ensures var f := EventFields(e);
            f[13].value == Str(e.snapshotDigest) && f[16].value == Str(e.archiveUri) && f[17].value == Str(e.errorCode)
            && f[19].value == Str(e.detail) && f[20].value == Str(Some(e.prevDigest))
  {
  }

  lemma NumberFields(e: Event)
    ensures var f := EventFields(e);
            f[1].value == Num(Some(e.seqNo)) && f[2].value == Num(Some(e.tick))
            && f[5].value == Num(e.valueType) && f[10].value == Num(e.eventCount)
  {
  }

  lemma MoreNumberFields(e: Event)
    ensures var f := EventFields(e);
            f[12].value == Num(e.timestampMs) && f[14].value == Num(e.archivedSeqStart)
            && f[15].value == Num(e.archivedSeqEnd) && f[18].value == Num(e.offendingSeq)
  {
  }

  lemma SameStrings(a: Event, b: Event)
    requires Equivalent(EventJson(a), EventJson(b))
    ensures a.eventType == b.eventType && a.namespace == b.namespace && a.key == b.key
    ensures a.prevValueDigest == b.prevValueDigest && a.rootDigest == b.rootDigest
  {
    StringFields(a);
    StringFields(b);
    DigestFields(a);
    DigestFields(b);
    SameStrField(a, b, 0, Some(TypeName(a.eventType)), Some(TypeName(b.eventType)));
    TypeNamesDistinct(a.eventType, b.eventType);
    SameStrField(a, b, 3, Some(a.namespace), Some(b.namespace));
    SameStrField(a, b, 4, a.key, b.key);
    SameStrField(a, b, 7, a.prevValueDigest, b.prevValueDigest);
    SameStrField(a, b, 11, a.rootDigest, b.rootDigest);
  }

  lemma SameMoreStrings(a: Event, b: Event)
    requires Equivalent(EventJson(a), EventJson(b))
    ensures a.snapshotDigest == b.snapshotDigest && a.archiveUri == b.archiveUri
    ensures a.errorCode == b.errorCode && a.detail == b.detail && a.prevDigest == b.prevDigest
  {
    MoreStringFields(a);
    MoreStringFields(b);
    SameStrField(a, b, 13, a.snapshotDigest, b.snapshotDigest);
    SameStrField(a, b, 16, a.archiveUri, b.archiveUri);
    SameStrField(a, b, 17, a.errorCode, b.errorCode);
    SameStrField(a, b, 19, a.detail, b.detail);
    SameStrField(a, b, 20, Some(a.prevDigest), Some(b.prevDigest));
  }

  lemma SameClock(a: Event, b: Event)
    requires Equivalent(EventJson(a), EventJson(b))
    ensures a.seqNo == b.seqNo && a.tick == b.tick && a.timestampMs == b.timestampMs
  {
    NumberFields(a);
    NumberFields(b);
    MoreNumberFields(a);
    MoreNumberFields(b);
    SameNumField(a, b, 1, Some(a.seqNo), Some(b.seqNo));
    SameNumField(a, b, 2, Some(a.tick), Some(b.tick));
    SameNumField(a, b, 12, a.timestampMs, b.timestampMs);
  }

  lemma SameCounts(a: Event, b: Event)
    requires Equivalent(EventJson(a), EventJson(b))
    ensures a.valueType == b.valueType && a.eventCount == b.eventCount
  {
    NumberFields(a);
    NumberFields(b);
    SameNumField(a, b, 5, a.valueType, b.valueType);
    SameNumField(a, b, 10, a.eventCount, b.eventCount);
  }

  lemma SameArchive(a: Event, b: Event)
    requires Equivalent(EventJson(a), EventJson(b))
    ensures a.archivedSeqStart == b.archivedSeqStart && a.archivedSeqEnd == b.archivedSeqEnd
    ensures a.offendingSeq == b.offendingSeq
  {
    MoreNumberFields(a);
    MoreNumberFields(b);
    SameNumField(a, b, 14, a.archivedSeqStart, b.archivedSeqStart);
    SameNumField(a, b, 15, a.archivedSeqEnd, b.archivedSeqEnd);
    SameNumField(a, b, 18, a.offendingSeq, b.offendingSeq);
  }

  lemma SameValueField(a: Event, b: Event)
    requires Equivalent(EventJson(a), EventJson(b))
    ensures Agree(a.value, b.value)
  {
    FieldAgrees(a, b, 6);
  }

  lemma SameIdempotent(a: Event, b: Event)
    requires Equivalent(EventJson(a), EventJson(b))
    ensures a.idempotent == b.idempotent
  {
    FieldAgrees(a, b, 8);
  }

  lemma SameBatch(a: Event, b: Event)
    requires Equivalent(EventJson(a), EventJson(b))
    ensures SameOps(a.ops, b.ops)
  {
    FieldAgrees(a, b, 9);
    assert EventFields(a)[9].value.Some? == a.ops.Some? && EventFields(b)[9].value.Some? == b.ops.Some?;
    if a.ops.Some? {
      assert EventFields(a)[9].value.value == JArray(OpsJson(a.ops.value));
      assert EventFields(b)[9].value.value == JArray(OpsJson(b.ops.value));
      SameOpsJson(a.ops.value, b.ops.value);
    }
  }

  /** Equal digest inputs come from events that agree on every digested field. */
  lemma SameEventJson(a: Event, b: Event)
    requires Equivalent(EventJson(a), EventJson(b))
    ensures SameDigested(a, b)
  {
    SameStrings(a, b);
    SameMoreStrings(a, b);
    SameClock(a, b);
    SameCounts(a, b);
    SameArchive(a, b);
    SameValueField(a, b);
    SameIdempotent(a, b);
    SameBatch(a, b);
  }

  /** A digest commits to every digested field: two events that validate under one digest
      agree on all of them, unless the hash collides on their digest inputs. */
  lemma DigestCommits(sha: Hash, a: Event, b: Event)
    requires WellFormedEvent(a) && WellFormedEvent(b)
    requires ValidateDigest(sha, a).Ok? && ValidateDigest(sha, b).Ok?
    requires a.digest == b.digest && NoCollision(sha, a, b)
    ensures SameDigested(a, b)
  {
    var x, y := DigestBytes(a).value, DigestBytes(b).value;
    Hex.EncodeInjective(sha(x), sha(y));
    Utf8.Injective(DigestText(a).value, DigestText(b).value);
    SameText(Digested(a), Digested(b));
    SameEventJson(Digested(a), Digested(b));
  }

  lemma SameText(a: Event, b: Event)
    requires WellFormedEvent(a) && WellFormedEvent(b)
    requires Print(EventJson(a)).Ok? && Print(EventJson(a)) == Print(EventJson(b))
    ensures Equivalent(EventJson(a), EventJson(b))
  {
    EventJsonWellFormed(a);
    EventJsonWellFormed(b);
    JsonReader.PrintIffEquivalent(EventJson(a), EventJson(b));
  }

  /** A digest that validates is the lowercase hex of 32 bytes. */
  lemma ValidDigestDecodes(sha: Hash, e: Event)
    requires ValidateDigest(sha, e).Ok?
    ensures e.digest == Hex.Encode(sha(DigestBytes(e).value))
    ensures DecodeDigest(e.digest) == Some(sha(DigestBytes(e).value))
  {
    DecodeHexDigest(sha(DigestBytes(e).value));
  }

  // ---------------------------------------------------------------------------
  // Values carried by events.
  // ---------------------------------------------------------------------------

  /** A state value can be put into an event exactly when it is valid, and an event that
      carries it writes it back unchanged. */
  lemma ValueRoundTrip(v: StateMap.BsmValue)
    ensures BsmToEventValue(v).Ok? <==> StateMap.ValidValue(v)
    ensures BsmToEventValue(v).Ok? ==>
              var (tag, value) := BsmToEventValue(v).value;
              tag == StateMap.TypeTag(v) && EventValueToBsm(tag, value) == Ok(v)
  {
    if v.Blob? {
      Hex.DecodeEncode(v.bytes);
    }
  }

  /** The other way: an accepted payload is valid, keeps its tag, and comes back as it was,
      except that hexadecimal digits come back in lower case. */
  lemma EventValueRoundTrip(tag: byte, value: Value)
    requires EventValueToBsm(tag, value).Ok?
    ensures var v := EventValueToBsm(tag, value).value;
            && StateMap.ValidValue(v) && StateMap.TypeTag(v) == tag
            && BsmToEventValue(v).Ok? && BsmToEventValue(v).value.0 == tag
            && (tag != 0x05 ==> BsmToEventValue(v).value.1 == value)
            && (tag == 0x05 ==> value.JString? && BsmToEventValue(v).value.1.JString?
                                && Hex.Normalize(value.s) == Ok(BsmToEventValue(v).value.1.s))
  {
    if tag == 0x05 {
      Hex.NormalizeIsDecodeEncode(value.s);
    }
  }
}
