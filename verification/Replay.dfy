/** Deterministic replay and checkpointed verification: src/replay.rs.

    The engine is a fold over events that carries the state and the guards' memory. The
    two digest computations are handed to it as an `Integrity` value, so what is proved
    of the fold alone does not depend on how digests are computed. */
module Replay {
  import opened Prelude
  import opened Digests
  import opened Events
  import opened Snapshots
  import opened StateMap
  import opened Wire
  import CanonicalJson
  import Hex
  import Key

  datatype Violation =
    | SequenceGap
    | SequenceCollision
    | DuplicateEvent
    | DigestMismatch
    | NamespaceBreach
    | StateMismatch
    | MissingTickSeal
    | TimestampRegression
    | TickRegression
    | CompactMismatch
    | ProtocolErrorEvent
    | InvalidEventFormat

  datatype Integrity = Integrity(digestValid: Event -> bool, rootOf: State -> Result<string, WireError>)

  function ShaIntegrity(sha: Hash): Integrity {
    Integrity(e => ValidateDigest(sha, e).Ok?, m => RootDigestHex(sha, m))
  }

  // ---------------------------------------------------------------------------
  // Applying one event to the state.
  // ---------------------------------------------------------------------------

  function ApplyWrite(m: State, namespace: string, key: string, valueType: Option<byte>,
                      value: Option<CanonicalJson.Value>)
    : Result<State, Violation>
  {
    if !Key.ValidKey(namespace, key) then Err(InvalidEventFormat)
    else
      match WrittenValue(valueType, value)
      case Err(_) => Err(InvalidEventFormat)
      case Ok(v) =>
        match Insert(m, key, v)
        case Err(_) => Err(StateMismatch)
        case Ok(next) => Ok(next)
  }

  function ApplyDelete(m: State, namespace: string, key: string, idempotent: bool): Result<State, Violation> {
    if !Key.ValidKey(namespace, key) then Err(InvalidEventFormat)
    else if key !in m && !idempotent then Err(StateMismatch)
    else Ok(Remove(m, key))
  }

  function ApplyOp(m: State, namespace: string, op: BatchOp): Result<State, Violation> {
    if op.opType == WriteOp then ApplyWrite(m, namespace, op.key, op.valueType, op.value)
    else ApplyDelete(m, namespace, op.key, op.idempotent)
  }

  function ApplyOps(m: State, namespace: string, ops: seq<BatchOp>): Result<State, Violation>
    decreases |ops|
  {
    if ops == [] then Ok(m)
    else
      match ApplyOp(m, namespace, ops[0])
      case Err(e) => Err(e)
      case Ok(next) => ApplyOps(next, namespace, ops[1..])
  }

  /** The recorded digest must be the digest of the live state. */
  function CheckRecorded(env: Integrity, m: State, recorded: Option<string>, mismatch: Violation)
    : Result<State, Violation>
  {
    if recorded.None? then Err(InvalidEventFormat)
    else if env.rootOf(m) == Ok(recorded.value) then Ok(m)
    else Err(mismatch)
  }

  function Apply(env: Integrity, m: State, e: Event): Result<State, Violation> {
    match e.eventType
    case StateWrite =>
      if e.key.None? then Err(InvalidEventFormat)
      else ApplyWrite(m, e.namespace, e.key.value, e.valueType, e.value)
    case StateDelete =>
      if e.key.None? then Err(InvalidEventFormat)
      else ApplyDelete(m, e.namespace, e.key.value, e.idempotent == Some(true))
    case StateBatch =>
      if e.ops.None? then Err(InvalidEventFormat) else ApplyOps(m, e.namespace, e.ops.value)
    case TickSeal => CheckRecorded(env, m, e.rootDigest, StateMismatch)
    case Compact => CheckRecorded(env, m, e.snapshotDigest, CompactMismatch)
    case ProtocolError => Err(ProtocolErrorEvent)
  }

  // ---------------------------------------------------------------------------
  // The guarded fold.
  // ---------------------------------------------------------------------------

  /** Everything the loop remembers between events. */
  datatype Progress = Progress(
    state: State,
    expectedSeq: nat,
    expectedPrev: string,
    seen: set<string>,
    namespace: Option<string>,
    lastSealMs: Option<u64>,
    maxTick: u64,
    warnings: seq<u64>)

  /** Guards that do not depend on the state: namespace, sequence, chain and digest. */
  function CheckLink(env: Integrity, p: Progress, e: Event): Result<(), Violation> {
    if p.namespace.Some? && p.namespace.value != e.namespace then Err(NamespaceBreach)
    else if e.seqNo < p.expectedSeq then Err(SequenceCollision)
    else if e.seqNo > p.expectedSeq then Err(SequenceGap)
    else if e.prevDigest != p.expectedPrev then Err(Violation.DigestMismatch)
    else if !env.digestValid(e) then Err(Violation.DigestMismatch)
    else Ok(())
  }

  /** TICK_SEAL timestamps must be present and must not go back. */
  function CheckSeal(lastSealMs: Option<u64>, e: Event): Result<Option<u64>, Violation> {
    if e.eventType != TickSeal then Ok(lastSealMs)
    else if e.timestampMs.None? then Err(InvalidEventFormat)
    else if lastSealMs.Some? && e.timestampMs.value < lastSealMs.value then Err(TimestampRegression)
    else Ok(e.timestampMs)
  }

  /** Ticks must not go back, except that tick 0 is always let through and forgotten. */
  function CheckTick(maxTick: u64, e: Event): Result<u64, Violation> {
    if e.tick == 0 then Ok(maxTick)
    else if e.tick < maxTick then Err(TickRegression)
    else Ok(e.tick)
  }

  function Advance(p: Progress, e: Event): Progress {
    Progress(p.state, p.expectedSeq + 1, e.digest, p.seen + {e.digest}, Some(e.namespace),
             p.lastSealMs, p.maxTick, p.warnings)
  }

  function Step(env: Integrity, p: Progress, e: Event): Result<Progress, Violation> {
    match CheckLink(env, p, e)
    case Err(v) => Err(v)
    case Ok(_) =>
      if e.digest in p.seen then
        if IsIdempotent(e) then Ok(Advance(p, e).(warnings := p.warnings + [e.seqNo])) else Err(DuplicateEvent)
      else
        match CheckSeal(p.lastSealMs, e)
        case Err(v) => Err(v)
        case Ok(lastSealMs) =>
          match CheckTick(p.maxTick, e)
          case Err(v) => Err(v)
          case Ok(maxTick) =>
            match Apply(env, p.state, e)
            case Err(v) => Err(v)
            case Ok(state) => Ok(Advance(p, e).(state := state, lastSealMs := lastSealMs, maxTick := maxTick))
  }

  function Run(env: Integrity, p: Progress, events: seq<Event>): Result<Progress, Violation>
    decreases |events|
  {
    if events == [] then Ok(p)
    else
      match Step(env, p, events[0])
      case Err(v) => Err(v)
      case Ok(next) => Run(env, next, events[1..])
  }

  function Start(events: seq<Event>, snapshot: Option<Snapshot>): Progress {
    match snapshot
    case Some(s) =>
      Progress(s.state, s.sealSeq + 1, Hex.Encode(s.sealDigest), {}, Some(s.namespace),
               Some(s.sealTimestampMs), s.tick, [])
    case None =>
      Progress(map[], 0, ZERO_DIGEST_HEX, {}, if events == [] then None else Some(events[0].namespace),
               None, 0, [])
  }

  datatype ReplayOutcome = ReplayOutcome(state: State, warnings: seq<u64>)

  function ReplayWithSnapshot(env: Integrity, events: seq<Event>, snapshot: Option<Snapshot>)
    : Result<ReplayOutcome, Violation>
  {
    if snapshot.None? && events != [] && events[0].seqNo != 0 then Err(SequenceGap)
    else
      match Run(env, Start(events, snapshot), events)
      case Err(v) => Err(v)
      case Ok(p) => Ok(ReplayOutcome(p.state, p.warnings))
  }

  // ---------------------------------------------------------------------------
  // Verification, from genesis or from a checkpoint.
  // ---------------------------------------------------------------------------

  datatype VerifyOutcome = VerifyOutcome(
    state: State,
    totalEvents: nat,
    checkpointRoot: Option<string>,
    verifiedEvents: Option<nat>)

  predicate Seals(e: Event, root: string) {
    e.eventType == TickSeal && e.rootDigest == Some(root)
  }

  /** Positions of the seals that carry `root`, counted from `base`. */
  function SealsOf(events: seq<Event>, root: string, base: nat): seq<nat> {
    if events == [] then []
    else (if Seals(events[0], root) then [base] else []) + SealsOf(events[1..], root, base + 1)
  }

  function BuildSnapshot(seal: Event, root: string, state: State): Result<Snapshot, Violation> {
    if seal.timestampMs.None? || DecodeDigest(root).None? || DecodeDigest(seal.digest).None? then
      Err(InvalidEventFormat)
    else
      Ok(Snapshot(seal.namespace, seal.tick, seal.seqNo, seal.timestampMs.value,
                  DecodeDigest(root).value, DecodeDigest(seal.digest).value, state))
  }

  function RebuildSnapshot(env: Integrity, events: seq<Event>, index: nat, root: string): Result<Snapshot, Violation>
    requires index < |events|
  {
    match ReplayWithSnapshot(env, events[..index + 1], None)
    case Err(v) => Err(v)
    case Ok(outcome) => BuildSnapshot(events[index], root, outcome.state)
  }

  predicate SnapshotMatches(s: Snapshot, seal: Event, root: string) {
    && seal.timestampMs.Some?
    && s.namespace == seal.namespace && s.tick == seal.tick && s.sealSeq == seal.seqNo
    && s.sealTimestampMs == seal.timestampMs.value
    && Hex.Encode(s.rootDigest) == root && Hex.Encode(s.sealDigest) == seal.digest
  }

  function ChooseSnapshot(env: Integrity, events: seq<Event>, index: nat, root: string, cached: Option<Snapshot>)
    : Result<Snapshot, Violation>
    requires index < |events|
  {
    if cached.Some? && env.digestValid(events[index]) && SnapshotMatches(cached.value, events[index], root) then
      Ok(cached.value)
    else RebuildSnapshot(env, events, index, root)
  }

  function VerifyFrom(env: Integrity, events: seq<Event>, index: nat, root: string, s: Snapshot)
    : Result<VerifyOutcome, Violation>
    requires index < |events|
  {
    var tail := events[index + 1..];
    match ReplayWithSnapshot(env, tail, Some(s))
    case Err(v) => Err(v)
    case Ok(outcome) => Ok(VerifyOutcome(outcome.state, |events|, Some(root), Some(|tail|)))
  }

  function VerifyAt(env: Integrity, events: seq<Event>, index: nat, root: string, cached: Option<Snapshot>)
    : Result<VerifyOutcome, Violation>
    requires index < |events|
  {
    match ChooseSnapshot(env, events, index, root, cached)
    case Err(v) => Err(v)
    case Ok(s) => VerifyFrom(env, events, index, root, s)
  }

  lemma {:induction false} SealsOfInRange(events: seq<Event>, root: string, base: nat)
    ensures forall i :: 0 <= i < |SealsOf(events, root, base)| ==>
              base <= SealsOf(events, root, base)[i] < base + |events|
              && Seals(events[SealsOf(events, root, base)[i] - base], root)
  {
    if events != [] {
      SealsOfInRange(events[1..], root, base + 1);
      var rest := SealsOf(events[1..], root, base + 1);
      forall i | 0 <= i < |rest| ensures Seals(events[rest[i] - base], root) {
        assert events[1..][rest[i] - base - 1] == events[rest[i] - base];
      }
    }
  }

  function VerifyEvents(env: Integrity, events: seq<Event>, root: Option<string>, cached: Option<Snapshot>)
    : Result<VerifyOutcome, Violation>
  {
    match root
    case None =>
      (match ReplayWithSnapshot(env, events, None)
       case Err(v) => Err(v)
       case Ok(outcome) => Ok(VerifyOutcome(outcome.state, |events|, None, None)))
    case Some(r) =>
      var matches := SealsOf(events, r, 0);
      SealsOfInRange(events, r, 0);
      if |matches| == 0 then Err(MissingTickSeal)
      else if |matches| > 1 then Err(StateMismatch)
      else VerifyAt(env, events, matches[0], r, cached)
  }
}
