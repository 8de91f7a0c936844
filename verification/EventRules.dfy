/** When an event is well formed and what its digest is computed from, field by field under the
    names of the protocol. src/event.rs. */
module EventRules {
  import opened Prelude
  import opened CanonicalJson
  import opened Digests
  import opened EventDigests
  import opened Events
  import opened LastWrites
  import opened Records
  import opened ReplayExactly
  import Hex
  import JsonReader
  import Key
  import Utf8

  // ---------------------------------------------------------------------------
  // Payload rules.
  // ---------------------------------------------------------------------------

  /** What an event must carry, by its type. */
  ghost predicate PayloadSound(e: Event) {
    && Key.ValidNamespace(e.namespace)
    && match e.eventType
       case StateWrite =>
         && e.key.Some? && Key.ValidKey(e.namespace, e.key.value)
         && exists v :: Carries(OpsOf(e)[0], v)
       case StateDelete => e.key.Some? && Key.ValidKey(e.namespace, e.key.value)
       case StateBatch => e.ops.Some? && forall i :: 0 <= i < |e.ops.value| ==> Sound(e.namespace, e.ops.value[i])
       case _ => true
  }

  lemma CheckWrittenIff(op: BatchOp)
    ensures CheckWritten(op.valueType, op.value).Ok? <==> exists v :: Carries(op, v)
  {
    if CheckWritten(op.valueType, op.value).Ok? {
      var v := WrittenValue(op.valueType, op.value).value;
      WrittenIff(op.valueType, op.value, v);
      assert Carries(op, v);
    }
    forall v | Carries(op, v) ensures CheckWritten(op.valueType, op.value).Ok? {
      WrittenIff(op.valueType, op.value, v);
    }
  }

  lemma CheckOpIff(namespace: string, op: BatchOp)
    ensures CheckOp(namespace, op).Ok? <==> Sound(namespace, op)
  {
    CheckWrittenIff(op);
  }

  lemma {:induction false} CheckOpsIff(namespace: string, ops: seq<BatchOp>)
    ensures CheckOps(namespace, ops).Ok? <==> forall i :: 0 <= i < |ops| ==> Sound(namespace, ops[i])
  {
    if ops != [] {
      CheckOpIff(namespace, ops[0]);
      CheckOpsIff(namespace, ops[1..]);
      forall i | 1 <= i < |ops| ensures ops[i] == ops[1..][i - 1] {
      }
    }
  }

  /** The payload rules accept exactly the events that carry what their type needs. */
  lemma PayloadRulesIff(e: Event)
    ensures ValidatePayload(e).Ok? <==> PayloadSound(e)
  {
    match e.eventType {
      case StateWrite =>
        if e.key.Some? {
          CheckWrittenIff(OpsOf(e)[0]);
        }
      case StateBatch =>
        if e.ops.Some? {
          CheckOpsIff(e.namespace, e.ops.value);
        }
      case _ =>
    }
  }

  // ---------------------------------------------------------------------------
  // What is hashed.
  // ---------------------------------------------------------------------------

  /** The object has the member, or no member of that name. */
  ghost predicate Shows(members: seq<Member>, name: string, value: Option<Value>) {
    match value
    case None => !HasKey(members, name)
    case Some(v) => Member(name, v) in members
  }

  lemma ShowsField(fields: seq<Field>, i: nat)
    requires DistinctNames(fields) && i < |fields|
    ensures Shows(Present(fields), fields[i].name, fields[i].value)
  {
    if fields[i].value.Some? {
      var j := FieldIsMember(fields, i);
    } else {
      forall m | 0 <= m < |Present(fields)| ensures Present(fields)[m].key != fields[i].name {
        var j := MemberIsField(fields, m);
      }
    }
  }

  lemma ShowsIn(e: Event, ms: seq<Member>, i: nat, name: string, value: Option<Value>)
    requires i < |EventFields(e)| && EventFields(e)[i] == Field(name, value) && EventJson(e) == JObject(ms)
    ensures Shows(ms, name, value)
  {
    EventNames(e);
    ShowsField(EventFields(e), i);
  }

  // The members of a serialised event, under the names of the protocol.

  lemma EventShowsType(e: Event, ms: seq<Member>)
    requires EventJson(e) == JObject(ms)
    ensures match e.eventType
            case StateWrite => Shows(ms, "type", Some(JString("STATE_WRITE")))
            case StateDelete => Shows(ms, "type", Some(JString("STATE_DELETE")))
            case StateBatch => Shows(ms, "type", Some(JString("STATE_BATCH")))
            case TickSeal => Shows(ms, "type", Some(JString("TICK_SEAL")))
            case Compact => Shows(ms, "type", Some(JString("COMPACT")))
            case ProtocolError => Shows(ms, "type", Some(JString("PROTOCOL_ERROR")))
  {
    ShowsIn(e, ms, 0, "type", Some(JString(TypeName(e.eventType))));
  }

  lemma EventShowsPlace(e: Event, ms: seq<Member>)
    requires EventJson(e) == JObject(ms)
    ensures Shows(ms, "seq", Some(JNumber(Integer(e.seqNo)))) && Shows(ms, "tick", Some(JNumber(Integer(e.tick))))
  {
    ShowsIn(e, ms, 1, "seq", Some(JNumber(Integer(e.seqNo))));
    ShowsIn(e, ms, 2, "tick", Some(JNumber(Integer(e.tick))));
  }

  lemma EventShowsKey(e: Event, ms: seq<Member>)
    requires EventJson(e) == JObject(ms)
    ensures Shows(ms, "namespace", Some(JString(e.namespace))) && Shows(ms, "key", Str(e.key))
  {
    ShowsIn(e, ms, 3, "namespace", Some(JString(e.namespace)));
    ShowsIn(e, ms, 4, "key", Str(e.key));
  }

  lemma EventShowsValue(e: Event, ms: seq<Member>)
    requires EventJson(e) == JObject(ms)
    ensures && Shows(ms, "value_type", Num(e.valueType)) && Shows(ms, "value", e.value)
            && Shows(ms, "prev_value_digest", Str(e.prevValueDigest))
  {
    ShowsIn(e, ms, 5, "value_type", Num(e.valueType));
    ShowsIn(e, ms, 6, "value", e.value);
    ShowsIn(e, ms, 7, "prev_value_digest", Str(e.prevValueDigest));
  }

  lemma EventShowsBatch(e: Event, ms: seq<Member>)
    requires EventJson(e) == JObject(ms)
    ensures && Shows(ms, "idempotent", if e.idempotent.None? then None else Some(JBool(e.idempotent.value)))
            && Shows(ms, "ops", if e.ops.None? then None else Some(JArray(OpsJson(e.ops.value))))
  {
    ShowsIn(e, ms, 8, "idempotent", if e.idempotent.None? then None else Some(JBool(e.idempotent.value)));
    ShowsIn(e, ms, 9, "ops", if e.ops.None? then None else Some(JArray(OpsJson(e.ops.value))));
  }

  lemma EventShowsSeal(e: Event, ms: seq<Member>)
    requires EventJson(e) == JObject(ms)
    ensures && Shows(ms, "event_count", Num(e.eventCount)) && Shows(ms, "root_digest", Str(e.rootDigest))
            && Shows(ms, "timestamp_ms", Num(e.timestampMs)) && Shows(ms, "snapshot_digest", Str(e.snapshotDigest))
  {
    ShowsIn(e, ms, 10, "event_count", Num(e.eventCount));
    ShowsIn(e, ms, 11, "root_digest", Str(e.rootDigest));
    ShowsIn(e, ms, 12, "timestamp_ms", Num(e.timestampMs));
    ShowsIn(e, ms, 13, "snapshot_digest", Str(e.snapshotDigest));
  }

  lemma EventShowsArchive(e: Event, ms: seq<Member>)
    requires EventJson(e) == JObject(ms)
    ensures && Shows(ms, "archived_seq_start", Num(e.archivedSeqStart))
            && Shows(ms, "archived_seq_end", Num(e.archivedSeqEnd)) && Shows(ms, "archive_uri", Str(e.archiveUri))
  {
    ShowsIn(e, ms, 14, "archived_seq_start", Num(e.archivedSeqStart));
    ShowsIn(e, ms, 15, "archived_seq_end", Num(e.archivedSeqEnd));
    ShowsIn(e, ms, 16, "archive_uri", Str(e.archiveUri));
  }

  lemma EventShowsError(e: Event, ms: seq<Member>)
    requires EventJson(e) == JObject(ms)
    ensures && Shows(ms, "error_code", Str(e.errorCode)) && Shows(ms, "offending_seq", Num(e.offendingSeq))
            && Shows(ms, "detail", Str(e.detail))
  {
    ShowsIn(e, ms, 17, "error_code", Str(e.errorCode));
    ShowsIn(e, ms, 18, "offending_seq", Num(e.offendingSeq));
    ShowsIn(e, ms, 19, "detail", Str(e.detail));
  }

  lemma EventShowsChain(e: Event, ms: seq<Member>)
    requires EventJson(e) == JObject(ms)
    ensures && Shows(ms, "prev_digest", Some(JString(e.prevDigest))) && Shows(ms, "digest", Some(JString(e.digest)))
            && Shows(ms, "metadata", if e.metadata.None? then None else Some(JObject(e.metadata.value)))
  {
    ShowsIn(e, ms, 20, "prev_digest", Some(JString(e.prevDigest)));
    ShowsIn(e, ms, 21, "digest", Some(JString(e.digest)));
    ShowsIn(e, ms, 22, "metadata", if e.metadata.None? then None else Some(JObject(e.metadata.value)));
  }

  lemma ShowsInOp(op: BatchOp, i: nat)
    requires i < 6
    ensures |OpFields(op)| == 6 && Shows(OpJson(op).members, OpFields(op)[i].name, OpFields(op)[i].value)
  {
    OpNames(op);
    ShowsField(OpFields(op), i);
  }

  /** The members of a serialised operation of a batch. */
  lemma OpShows(op: BatchOp)
    ensures var ms := OpJson(op).members;
            && Shows(ms, "type", Some(JString(if op.opType == WriteOp then "STATE_WRITE" else "STATE_DELETE")))
            && Shows(ms, "key", Some(JString(op.key))) && Shows(ms, "value_type", Num(op.valueType))
            && Shows(ms, "value", op.value) && Shows(ms, "prev_value_digest", Str(op.prevValueDigest))
            && Shows(ms, "idempotent", Some(JBool(op.idempotent)))
  {
    ShowsInOp(op, 0);
    ShowsInOp(op, 1);
    ShowsInOp(op, 2);
    ShowsInOp(op, 3);
    ShowsInOp(op, 4);
    ShowsInOp(op, 5);
  }

  /** Exactly when an event's digest is valid, and what was hashed: the UTF-8 bytes of a JSON
      text in canonical form that reads as the event with its digest zeroed and its metadata
      left out. */
  lemma ValidDigestIff(sha: Hash, e: Event)
    ensures ValidateDigest(sha, e).Ok? <==>
              && PayloadSound(e) && Print(EventJson(Digested(e))).Ok?
              && e.digest == Hex.Encode(sha(Utf8.Encode(Print(EventJson(Digested(e))).value)))
  {
    PayloadRulesIff(e);
  }

  lemma PreimageReads(e: Event) returns (w: Value)
    requires WellFormedEvent(e) && DigestBytes(e).Ok?
    ensures DigestBytes(e) == Ok(Utf8.Encode(DigestText(e).value))
    ensures JsonReader.ReadValue(DigestText(e).value) == Some((w, ""))
    ensures JsonReader.InForm(w)
    ensures Equivalent(EventJson(e.(digest := ZERO_DIGEST_HEX, metadata := None)), w)
  {
    var text := DigestText(e).value;
    EventJsonWellFormed(Digested(e));
    w := JsonReader.ReadPrint(EventJson(Digested(e)), "");
    assert text + "" == text;
  }
}
