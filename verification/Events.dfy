/** Events, their payload rules and their digests: src/event.rs. */
module Events {
  import opened Prelude
  import opened CanonicalJson
  import opened Digests
  import opened Records
  import Decimal
  import Hex
  import Key
  import StateMap
  import Utf8

  datatype EventType = StateWrite | StateDelete | StateBatch | TickSeal | Compact | ProtocolError

  datatype BatchOpType = WriteOp | DeleteOp

  datatype BatchOp = BatchOp(
    opType: BatchOpType,
    key: string,
    valueType: Option<byte>,
    value: Option<Value>,
    prevValueDigest: Option<string>,
    idempotent: bool)

  datatype Event = Event(
    eventType: EventType,
    seqNo: u64,
    tick: u64,
    namespace: string,
    key: Option<string>,
    valueType: Option<byte>,
    value: Option<Value>,
    prevValueDigest: Option<string>,
    idempotent: Option<bool>,
    ops: Option<seq<BatchOp>>,
    eventCount: Option<u32>,
    rootDigest: Option<string>,
    timestampMs: Option<u64>,
    snapshotDigest: Option<string>,
    archivedSeqStart: Option<u64>,
    archivedSeqEnd: Option<u64>,
    archiveUri: Option<string>,
    errorCode: Option<string>,
    offendingSeq: Option<u64>,
    detail: Option<string>,
    prevDigest: string,
    digest: string,
    metadata: Option<seq<Member>>)

  datatype EventError =
    | InvalidNamespace
    | InvalidKey
    | MissingField
    | TypeMismatch
    | InvalidNumeric
    | InvalidHex
    | PrevDigestMismatch
    | DigestMismatch

  // ---------------------------------------------------------------------------
  // Serialisation.
  // ---------------------------------------------------------------------------

  function Str(o: Option<string>): Option<Value> {
    match o
    case None => None
    case Some(s) => Some(JString(s))
  }

  function Num(o: Option<int>): Option<Value> {
    match o
    case None => None
    case Some(n) => Some(JNumber(Integer(n)))
  }

  function TypeName(t: EventType): string {
    match t
    case StateWrite => "STATE_WRITE"
    case StateDelete => "STATE_DELETE"
    case StateBatch => "STATE_BATCH"
    case TickSeal => "TICK_SEAL"
    case Compact => "COMPACT"
    case ProtocolError => "PROTOCOL_ERROR"
  }

  function OpTypeName(t: BatchOpType): string {
    match t
    case WriteOp => "STATE_WRITE"
    case DeleteOp => "STATE_DELETE"
  }

  function OpFields(op: BatchOp): seq<Field> {
    [ Field("type", Some(JString(OpTypeName(op.opType)))),
      Field("key", Some(JString(op.key))),
      Field("value_type", Num(op.valueType)),
      Field("value", op.value),
      Field("prev_value_digest", Str(op.prevValueDigest)),
      Field("idempotent", Some(JBool(op.idempotent))) ]
  }

  function OpJson(op: BatchOp): Value {
    JObject(Present(OpFields(op)))
  }

  function OpsJson(ops: seq<BatchOp>): (r: seq<Value>)
    ensures |r| == |ops| && forall i :: 0 <= i < |r| ==> r[i] == OpJson(ops[i])
  {
    seq(|ops|, i requires 0 <= i < |ops| => OpJson(ops[i]))
  }

  function EventFields(e: Event): seq<Field> {
    [ Field("type", Some(JString(TypeName(e.eventType)))),
      Field("seq", Some(JNumber(Integer(e.seqNo)))),
      Field("tick", Some(JNumber(Integer(e.tick)))),
      Field("namespace", Some(JString(e.namespace))),
      Field("key", Str(e.key)),
      Field("value_type", Num(e.valueType)),
      Field("value", e.value),
      Field("prev_value_digest", Str(e.prevValueDigest)),
      Field("idempotent", match e.idempotent case None => None case Some(b) => Some(JBool(b))),
      Field("ops", match e.ops case None => None case Some(ops) => Some(JArray(OpsJson(ops)))),
      Field("event_count", Num(e.eventCount)),
      Field("root_digest", Str(e.rootDigest)),
      Field("timestamp_ms", Num(e.timestampMs)),
      Field("snapshot_digest", Str(e.snapshotDigest)),
      Field("archived_seq_start", Num(e.archivedSeqStart)),
      Field("archived_seq_end", Num(e.archivedSeqEnd)),
      Field("archive_uri", Str(e.archiveUri)),
      Field("error_code", Str(e.errorCode)),
      Field("offending_seq", Num(e.offendingSeq)),
      Field("detail", Str(e.detail)),
      Field("prev_digest", Some(JString(e.prevDigest))),
      Field("digest", Some(JString(e.digest))),
      Field("metadata", match e.metadata case None => None case Some(m) => Some(JObject(m))) ]
  }

  function EventJson(e: Event): Value {
    JObject(Present(EventFields(e)))
  }

  // ---------------------------------------------------------------------------
  // Payload rules.
  // ---------------------------------------------------------------------------

  function EventValueToBsm(tag: byte, value: Value): Result<StateMap.BsmValue, EventError> {
    if tag == 0x01 then
      if value.JBool? then Ok(StateMap.Boolean(value.b)) else Err(TypeMismatch)
    else if tag == 0x02 then
      if value.JNumber? && value.n.Integer? && -0x8000_0000_0000_0000 <= value.n.i < 0x8000_0000_0000_0000 then
        Ok(StateMap.Integer(value.n.i))
      else Err(TypeMismatch)
    else if tag == 0x03 then
      if !value.JString? then Err(TypeMismatch)
      else if Decimal.Validate(value.s).Ok? then Ok(StateMap.BsmValue.Decimal(value.s))
      else Err(InvalidNumeric)
    else if tag == 0x04 then
      if value.JString? then Ok(StateMap.Text(value.s)) else Err(TypeMismatch)
    else if tag == 0x05 then
      if !value.JString? then Err(TypeMismatch)
      else if Hex.Decode(value.s).Ok? then Ok(StateMap.Blob(Hex.Decode(value.s).value))
      else Err(InvalidHex)
    else if tag == 0x06 then
      if value.JNull? then Ok(StateMap.Null) else Err(TypeMismatch)
    else Err(TypeMismatch)
  }

  function BsmToEventValue(v: StateMap.BsmValue): Result<(byte, Value), EventError> {
    match v
    case Boolean(flag) => Ok((0x01, JBool(flag)))
    case Integer(i) => Ok((0x02, JNumber(Integer(i))))
    case Decimal(numeral) =>
      if Decimal.Validate(numeral).Ok? then Ok((0x03, JString(numeral))) else Err(InvalidNumeric)
    case Text(text) => Ok((0x04, JString(text)))
    case Blob(bytes) => Ok((0x05, JString(Hex.Encode(bytes))))
    case Null => Ok((0x06, JNull))
  }

  /** The value a write carries. */
  function WrittenValue(valueType: Option<byte>, value: Option<Value>): Result<StateMap.BsmValue, EventError> {
    if valueType.None? || value.None? then Err(MissingField)
    else EventValueToBsm(valueType.value, value.value)
  }

  function CheckWritten(valueType: Option<byte>, value: Option<Value>): Result<(), EventError> {
    match WrittenValue(valueType, value)
    case Ok(_) => Ok(())
    case Err(e) => Err(e)
  }

  function CheckKey(namespace: string, key: Option<string>): Result<(), EventError> {
    if key.None? then Err(MissingField)
    else if Key.ValidKey(namespace, key.value) then Ok(())
    else Err(InvalidKey)
  }

  function CheckOp(namespace: string, op: BatchOp): Result<(), EventError> {
    if !Key.ValidKey(namespace, op.key) then Err(InvalidKey)
    else if op.opType == DeleteOp then Ok(())
    else CheckWritten(op.valueType, op.value)
  }

  function CheckOps(namespace: string, ops: seq<BatchOp>): Result<(), EventError> {
    if ops == [] then Ok(())
    else
      match CheckOp(namespace, ops[0])
      case Err(e) => Err(e)
      case Ok(_) => CheckOps(namespace, ops[1..])
  }

  function ValidatePayload(e: Event): Result<(), EventError> {
    if !Key.ValidNamespace(e.namespace) then Err(InvalidNamespace)
    else
      match e.eventType
      case StateWrite =>
        (match CheckKey(e.namespace, e.key)
         case Err(err) => Err(err)
         case Ok(_) => CheckWritten(e.valueType, e.value))
      case StateDelete => CheckKey(e.namespace, e.key)
      case StateBatch =>
        if e.ops.None? then Err(MissingField) else CheckOps(e.namespace, e.ops.value)
      case _ => Ok(())
  }

  // ---------------------------------------------------------------------------
  // Digests.
  // ---------------------------------------------------------------------------

  /** The digested form of an event: its own digest zeroed, metadata left out. */
  function Digested(e: Event): Event {
    e.(digest := ZERO_DIGEST_HEX, metadata := None)
  }

  function DigestText(e: Event): Result<string, EventError> {
    match ValidatePayload(e)
    case Err(err) => Err(err)
    case Ok(_) =>
      match Print(EventJson(Digested(e)))
      case Ok(text) => Ok(text)
      case Err(_) => Err(InvalidNumeric)
  }

  /** The bytes that are hashed. */
  function DigestBytes(e: Event): Result<Bytes, EventError> {
    var text :- DigestText(e);
    Ok(Utf8.Encode(text))
  }

  function ExpectedDigest(sha: Hash, e: Event): Result<string, EventError> {
    var bytes :- DigestBytes(e);
    Ok(HexDigest(sha, bytes))
  }

  function ValidateDigest(sha: Hash, e: Event): Result<(), EventError> {
    var expected :- ExpectedDigest(sha, e);
    if expected == e.digest then Ok(()) else Err(DigestMismatch)
  }

  function ValidatePrevDigest(e: Event, expected: string): Result<(), EventError> {
    if e.prevDigest == expected then Ok(()) else Err(PrevDigestMismatch)
  }

  predicate IsIdempotent(e: Event) {
    (e.eventType == StateWrite || e.eventType == StateDelete) && e.idempotent == Some(true)
  }

  /** `refresh_digest`: stores the digest of the event in the event. */
  function Refreshed(sha: Hash, e: Event): Result<Event, EventError> {
    var digest :- ExpectedDigest(sha, e);
    Ok(e.(digest := digest))
  }
}
