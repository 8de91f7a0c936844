/** The replay loop as it runs: local variables and a state map mutated in place, proved
    against the fold of Replay. src/replay.rs. */
module ReplayEngine {
  import opened Prelude
  import opened Digests
  import opened Events
  import opened Replay
  import opened Snapshots
  import opened StateMap
  import opened StateStore
  import CanonicalJson
  import Hex
  import Key

  /** The new state is what the specification says, and a failure leaves it as it was. */
  predicate Applied(before: State, after: State, spec: Result<State, Violation>, r: Result<(), Violation>) {
    match spec
    case Ok(m) => r == Ok(()) && after == m
    case Err(v) => r == Err(v) && after == before
  }

  method Write(state: BinaryStateMap, namespace: string, key: string, valueType: Option<byte>,
               value: Option<CanonicalJson.Value>) returns (r: Result<(), Violation>)
    modifies state
    ensures Applied(old(state.inner), state.inner, ApplyWrite(old(state.inner), namespace, key, valueType, value), r)
  {
    if !Key.ValidKey(namespace, key) {
      return Err(InvalidEventFormat);
    }
    var written := WrittenValue(valueType, value);
    if written.Err? {
      return Err(InvalidEventFormat);
    }
    var stored := state.SetValidated(key, written.value);
    return if stored.Ok? then Ok(()) else Err(StateMismatch);
  }

  method Delete(state: BinaryStateMap, namespace: string, key: string, idempotent: bool)
    returns (r: Result<(), Violation>)
    modifies state
    ensures Applied(old(state.inner), state.inner, ApplyDelete(old(state.inner), namespace, key, idempotent), r)
  {
    if !Key.ValidKey(namespace, key) {
      return Err(InvalidEventFormat);
    }
    if key !in state.inner && !idempotent {
      return Err(StateMismatch);
    }
    var deleted := state.Delete(namespace, key);
    return Ok(());
  }

  method ApplyOne(state: BinaryStateMap, namespace: string, op: BatchOp) returns (r: Result<(), Violation>)
    modifies state
    ensures Applied(old(state.inner), state.inner, ApplyOp(old(state.inner), namespace, op), r)
  {
    if op.opType == WriteOp {
      r := Write(state, namespace, op.key, op.valueType, op.value);
    } else {
      r := Delete(state, namespace, op.key, op.idempotent);
    }
  }

  /** A batch works on a staged copy, so a failing batch leaves the live state untouched. */
  method ApplyBatch(state: BinaryStateMap, namespace: string, ops: seq<BatchOp>) returns (r: Result<(), Violation>)
    modifies state
    ensures Applied(old(state.inner), state.inner, ApplyOps(old(state.inner), namespace, ops), r)
  {
    var staged := new BinaryStateMap.From(state.inner);
    assert ops[0..] == ops;
    for i := 0 to |ops|
      invariant state.inner == old(state.inner)
      invariant ApplyOps(state.inner, namespace, ops) == ApplyOps(staged.inner, namespace, ops[i..])
    {
      assert ops[i..][0] == ops[i] && ops[i..][1..] == ops[i + 1..];
      var _ :- ApplyOne(staged, namespace, ops[i]);
    }
    state.inner := staged.inner;
    return Ok(());
  }

  method ApplyEvent(env: Integrity, state: BinaryStateMap, e: Event) returns (r: Result<(), Violation>)
    modifies state
    ensures Applied(old(state.inner), state.inner, Apply(env, old(state.inner), e), r)
  {
    match e.eventType {
      case StateWrite =>
        if e.key.None? {
          return Err(InvalidEventFormat);
        }
        r := Write(state, e.namespace, e.key.value, e.valueType, e.value);
      case StateDelete =>
        if e.key.None? {
          return Err(InvalidEventFormat);
        }
        r := Delete(state, e.namespace, e.key.value, e.idempotent == Some(true));
      case StateBatch =>
        if e.ops.None? {
          return Err(InvalidEventFormat);
        }
        r := ApplyBatch(state, e.namespace, e.ops.value);
      case TickSeal =>
        var checked := CheckRecorded(env, state.inner, e.rootDigest, StateMismatch);
        return if checked.Ok? then Ok(()) else Err(checked.error);
      case Compact =>
        var checked := CheckRecorded(env, state.inner, e.snapshotDigest, CompactMismatch);
        return if checked.Ok? then Ok(()) else Err(checked.error);
      case ProtocolError =>
        return Err(ProtocolErrorEvent);
    }
  }

  /** The guards that come before the state is touched, in the order they are tested. */
  method GuardLink(env: Integrity, ghost p: Progress, namespace: Option<string>, expectedSeq: nat,
                   expectedPrev: string, e: Event) returns (r: Result<(), Violation>)
    requires p.namespace == namespace && p.expectedSeq == expectedSeq && p.expectedPrev == expectedPrev
    ensures r == CheckLink(env, p, e)
  {
    if namespace.Some? && namespace.value != e.namespace {
      return Err(NamespaceBreach);
    }
    if e.seqNo != expectedSeq {
      return Err(if e.seqNo < expectedSeq then SequenceCollision else SequenceGap);
    }
    if e.prevDigest != expectedPrev || !env.digestValid(e) {
      return Err(Violation.DigestMismatch);
    }
    return Ok(());
  }

  /** The guards on time, then the state: what happens to an event not seen before. */
  function Enter(env: Integrity, p: Progress, e: Event): Result<Progress, Violation> {
    match CheckSeal(p.lastSealMs, e)
    case Err(v) => Err(v)
    case Ok(lastSealMs) =>
      match CheckTick(p.maxTick, e)
      case Err(v) => Err(v)
      case Ok(maxTick) =>
        match Apply(env, p.state, e)
        case Err(v) => Err(v)
        case Ok(state) => Ok(p.(state := state, lastSealMs := lastSealMs, maxTick := maxTick))
  }

  method EnterEvent(env: Integrity, state: BinaryStateMap, ghost p: Progress, lastSealMs: Option<u64>, maxTick: u64,
                    e: Event)
    returns (r: Result<(Option<u64>, u64), Violation>)
    requires p.state == state.inner && p.lastSealMs == lastSealMs && p.maxTick == maxTick
    modifies state
    ensures match Enter(env, p, e)
            case Err(v) => r == Err(v)
            case Ok(q) => r == Ok((q.lastSealMs, q.maxTick)) && state.inner == q.state
  {
    var ms :- CheckSeal(lastSealMs, e);
    var tick :- CheckTick(maxTick, e);
    var _ :- ApplyEvent(env, state, e);
    return Ok((ms, tick));
  }

  lemma StepPastLink(env: Integrity, p: Progress, e: Event)
    requires CheckLink(env, p, e).Ok?
    ensures e.digest in p.seen ==>
              Step(env, p, e) == if IsIdempotent(e) then Ok(Advance(p, e).(warnings := p.warnings + [e.seqNo]))
                                 else Err(DuplicateEvent)
    ensures e.digest !in p.seen ==>
              Step(env, p, e) == match Enter(env, p, e) case Err(v) => Err(v) case Ok(q) => Ok(Advance(q, e))
  {
  }

  predicate UnfoldAhead(p: Progress, i: nat, key: int) {
    true
  }

  /** The events from `i` on, replayed from `p`, give `whole`. Behind a trigger: opened by
      naming `UnfoldAhead`. */
  ghost predicate Ahead(env: Integrity, events: seq<Event>, whole: Result<Progress, Violation>, p: Progress, i: nat) {
    forall key: int {:trigger UnfoldAhead(p, i, key)} :: UnfoldAhead(p, i, key) ==>
      i <= |events| && whole == Run(env, p, events[i..])
  }

  lemma AheadStart(env: Integrity, events: seq<Event>, p: Progress)
    ensures Ahead(env, events, Run(env, p, events), p, 0)
  {
    assert events[0..] == events;
  }

  lemma AheadNext(env: Integrity, events: seq<Event>, whole: Result<Progress, Violation>, p: Progress, i: nat)
    requires Ahead(env, events, whole, p, i) && i < |events|
    ensures match Step(env, p, events[i])
            case Err(v) => whole == Err(v)
            case Ok(q) => Ahead(env, events, whole, q, i + 1)
  {
    assert UnfoldAhead(p, i, 0);
    assert events[i..][0] == events[i] && events[i..][1..] == events[i + 1..];
  }

  lemma AheadEnd(env: Integrity, events: seq<Event>, whole: Result<Progress, Violation>, p: Progress)
    requires Ahead(env, events, whole, p, |events|)
    ensures whole == Ok(p)
  {
    assert UnfoldAhead(p, |events|, 0);
    assert events[|events|..] == [];
  }

  method ReplayEvents(env: Integrity, events: seq<Event>, snapshot: Option<Snapshot>)
    returns (r: Result<ReplayOutcome, Violation>)
    ensures r == ReplayWithSnapshot(env, events, snapshot)
  {
    if snapshot.None? && events != [] && events[0].seqNo != 0 {
      return Err(SequenceGap);
    }
    var state := new BinaryStateMap.From(if snapshot.Some? then snapshot.value.state else map[]);
    var expectedSeq: nat := if snapshot.Some? then snapshot.value.sealSeq + 1 else 0;
    var expectedPrev := if snapshot.Some? then Hex.Encode(snapshot.value.sealDigest) else ZERO_DIGEST_HEX;
    var seen: set<string> := {};
    var namespace := if snapshot.Some? then Some(snapshot.value.namespace)
                     else if events != [] then Some(events[0].namespace)
                     else None;
    var lastSealMs := if snapshot.Some? then Some(snapshot.value.sealTimestampMs) else None;
    var maxTick: u64 := if snapshot.Some? then snapshot.value.tick else 0;
    var warnings: seq<u64> := [];

    ghost var whole := Run(env, Start(events, snapshot), events);
    AheadStart(env, events, Start(events, snapshot));
    for i := 0 to |events|
      invariant Ahead(env, events, whole, Progress(state.inner, expectedSeq, expectedPrev, seen, namespace,
                                                   lastSealMs, maxTick, warnings), i)
    {
      var e := events[i];
      ghost var p := Progress(state.inner, expectedSeq, expectedPrev, seen, namespace, lastSealMs, maxTick, warnings);
      AheadNext(env, events, whole, p, i);
      var _ :- GuardLink(env, p, namespace, expectedSeq, expectedPrev, e);
      StepPastLink(env, p, e);
      if e.digest in seen {
        if !IsIdempotent(e) {
          return Err(DuplicateEvent);
        }
        warnings := warnings + [e.seqNo];
      } else {
        var entered :- EnterEvent(env, state, p, lastSealMs, maxTick, e);
        lastSealMs, maxTick := entered.0, entered.1;
      }
      seen := seen + {e.digest};
      namespace := Some(e.namespace);
      expectedPrev := e.digest;
      expectedSeq := expectedSeq + 1;
    }
    AheadEnd(env, events, whole, Progress(state.inner, expectedSeq, expectedPrev, seen, namespace,
                                          lastSealMs, maxTick, warnings));
    return Ok(ReplayOutcome(state.inner, warnings));
  }
}
