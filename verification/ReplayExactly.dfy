/** Exactly when a log replays, read off its events. src/replay.rs. */
module ReplayExactly {
  import opened Prelude
  import opened Digests
  import opened EventDigests
  import opened Events
  import opened LastWrites
  import opened Replay
  import opened ReplayFacts
  import opened StateMap
  import Key

  // ---------------------------------------------------------------------------
  // When operations succeed.
  // ---------------------------------------------------------------------------

  /** The operation names a valid key and, if it is a write, carries a value. */
  ghost predicate Sound(namespace: string, op: BatchOp) {
    Key.ValidKey(namespace, op.key) && (op.opType == WriteOp ==> exists v :: Carries(op, v))
  }

  /** A write does not change the type of a value in place; a delete finds its key, or is
      idempotent. */
  predicate Suits(m: State, op: BatchOp) {
    if op.opType == WriteOp then op.key in m ==> op.valueType == Some(TypeTag(m[op.key]))
    else op.key in m || op.idempotent
  }

  lemma CarriesTag(op: BatchOp, v: BsmValue)
    requires Carries(op, v)
    ensures op.valueType == Some(TypeTag(v)) && WrittenValue(op.valueType, op.value) == Ok(v) && ValidValue(v)
  {
    WrittenIff(op.valueType, op.value, v);
    EventValueRoundTrip(op.valueType.value, op.value.value);
  }

  /** An operation succeeds exactly when it is sound and suits the state. */
  lemma OpSucceedsIff(m: State, namespace: string, op: BatchOp)
    ensures ApplyOp(m, namespace, op).Ok? <==> Sound(namespace, op) && Suits(m, op)
    ensures ApplyOp(m, namespace, op).Err? ==>
              ApplyOp(m, namespace, op).error == if Sound(namespace, op) then StateMismatch else InvalidEventFormat
  {
    if op.opType == WriteOp {
      if WrittenValue(op.valueType, op.value).Ok? {
        var v := WrittenValue(op.valueType, op.value).value;
        WrittenIff(op.valueType, op.value, v);
        assert Carries(op, v);
        CarriesTag(op, v);
      } else {
        forall v ensures !Carries(op, v) {
          WrittenIff(op.valueType, op.value, v);
        }
      }
    }
  }

  // ---------------------------------------------------------------------------
  // Operations determine the state they leave.
  // ---------------------------------------------------------------------------

  lemma AfterUnique(before: State, a: State, b: State, ops: seq<BatchOp>)
    requires After(before, a, ops) && After(before, b, ops)
    ensures a == b
  {
    forall key ensures (key in a <==> key in b) && (key in a && key in b ==> a[key] == b[key]) {
      SameUnder(before, a, b, ops, key);
    }
  }

  lemma StandsForOne(op: BatchOp, v: BsmValue, w: BsmValue)
    requires Carries(op, v) && Carries(op, w)
    ensures v == w
  {
    WrittenIff(op.valueType, op.value, v);
    WrittenIff(op.valueType, op.value, w);
  }

  lemma {:induction false} LastExists(ops: seq<BatchOp>, key: string) returns (i: nat)
    requires exists j :: 0 <= j < |ops| && ops[j].key == key
    ensures LastAt(ops, i) && ops[i].key == key
  {
    var n := |ops| - 1;
    if ops[n].key == key {
      i := n;
    } else {
      assert exists j :: 0 <= j < n && ops[..n][j].key == key;
      i := LastExists(ops[..n], key);
      assert ops[..n][i] == ops[i];
      forall j | i < j < |ops| ensures ops[j].key != ops[i].key {
        if j < n {
          assert ops[..n][j] == ops[j];
        }
      }
    }
  }

  lemma SameUnder(before: State, a: State, b: State, ops: seq<BatchOp>, key: string)
    requires After(before, a, ops) && After(before, b, ops)
    ensures (key in a <==> key in b) && (key in a && key in b ==> a[key] == b[key])
  {
    assert AfterAt(before, a, ops, key) && AfterAt(before, b, ops, key);
    if exists j :: 0 <= j < |ops| && ops[j].key == key {
      var i := LastExists(ops, key);
      if ops[i].opType == WriteOp {
        StandsForOne(ops[i], a[key], b[key]);
      }
    }
  }

  // ---------------------------------------------------------------------------
  // Reference definition: when an event may come next.
  // ---------------------------------------------------------------------------

  /** The operations of a whole list of events. */
  function AllOps(events: seq<Event>): seq<BatchOp> {
    if events == [] then [] else AllOps(events[..|events| - 1]) + OpsOf(events[|events| - 1])
  }

  /** Position, digest chain and namespace, after the events `done` of a log. */
  predicate LinksOn(env: Integrity, namespace: string, done: seq<Event>, e: Event) {
    && e.seqNo == |done| && e.namespace == namespace && env.digestValid(e)
    && e.prevDigest == (if done == [] then ZERO_DIGEST_HEX else done[|done| - 1].digest)
    && forall j :: 0 <= j < |done| ==> done[j].digest != e.digest
  }

  /** A seal has a timestamp, not before that of any earlier seal. */
  predicate OnTime(done: seq<Event>, e: Event) {
    e.eventType == TickSeal ==>
      && e.timestampMs.Some?
      && forall j :: 0 <= j < |done| && done[j].eventType == TickSeal ==>
           done[j].timestampMs.Some? && done[j].timestampMs.value <= e.timestampMs.value
  }

  /** A tick other than 0 is not below any earlier one. */
  predicate InOrder(done: seq<Event>, e: Event) {
    e.tick != 0 ==> forall j :: 0 <= j < |done| ==> done[j].tick <= e.tick
  }

  /** The recorded digest is that of the state. */
  predicate Records(env: Integrity, m: State, recorded: Option<string>) {
    recorded.Some? && env.rootOf(m) == Ok(recorded.value)
  }

  /** The event can be applied to the state. */
  ghost predicate Applies(env: Integrity, m: State, e: Event) {
    match e.eventType
    case StateWrite => e.key.Some? && Sound(e.namespace, OpsOf(e)[0]) && Suits(m, OpsOf(e)[0])
    case StateDelete => e.key.Some? && Sound(e.namespace, OpsOf(e)[0]) && Suits(m, OpsOf(e)[0])
    case StateBatch => e.ops.Some? && OpsSuit(m, e.namespace, e.ops.value)
    case TickSeal => Records(env, m, e.rootDigest)
    case Compact => Records(env, m, e.snapshotDigest)
    case ProtocolError => false
  }

  /** The operation at `i` is sound and suits what the ones before it leave. */
  ghost predicate OpSuitsAt(m: State, namespace: string, ops: seq<BatchOp>, i: nat)
    requires i < |ops|
  {
    Sound(namespace, ops[i]) && forall n :: After(m, n, ops[..i]) ==> Suits(n, ops[i])
  }

  ghost predicate OpsSuit(m: State, namespace: string, ops: seq<BatchOp>) {
    forall i :: 0 <= i < |ops| ==> OpSuitsAt(m, namespace, ops, i)
  }

  /** The event may come next after `done`. */
  ghost predicate Fits(env: Integrity, namespace: string, done: seq<Event>, e: Event) {
    && LinksOn(env, namespace, done, e) && OnTime(done, e) && InOrder(done, e)
    && exists m :: After(map[], m, AllOps(done)) && Applies(env, m, e)
  }

  // ---------------------------------------------------------------------------
  // Batches.
  // ---------------------------------------------------------------------------

  lemma {:induction false} OpsSplit(m: State, namespace: string, a: seq<BatchOp>, b: seq<BatchOp>)
    ensures ApplyOps(m, namespace, a + b)
         == match ApplyOps(m, namespace, a)
            case Err(v) => Err(v)
            case Ok(n) => ApplyOps(n, namespace, b)
    decreases |a|
  {
    if a == [] {
      assert a + b == b;
    } else {
      assert (a + b)[0] == a[0] && (a + b)[1..] == a[1..] + b;
      if ApplyOp(m, namespace, a[0]).Ok? {
        OpsSplit(ApplyOp(m, namespace, a[0]).value, namespace, a[1..], b);
      }
    }
  }

  lemma AfterBatch(m: State, namespace: string, ops: seq<BatchOp>) returns (n: State)
    requires ApplyOps(m, namespace, ops).Ok?
    ensures ApplyOps(m, namespace, ops) == Ok(n) && After(m, n, ops)
  {
    n := ApplyOps(m, namespace, ops).value;
    forall key ensures AfterAt(m, n, ops, key) {
      BatchIsLastWriter(m, namespace, ops, key);
    }
  }

  lemma SuitsAtPrefix(m: State, namespace: string, ops: seq<BatchOp>, k: nat, i: nat)
    requires i < k <= |ops|
    ensures OpSuitsAt(m, namespace, ops[..k], i) <==> OpSuitsAt(m, namespace, ops, i)
  {
    assert ops[..k][..i] == ops[..i] && ops[..k][i] == ops[i];
  }

  /** A batch succeeds exactly when every operation is sound and suits what the ones before it
      leave. */
  lemma {:induction false} BatchSucceedsIff(m: State, namespace: string, ops: seq<BatchOp>)
    ensures ApplyOps(m, namespace, ops).Ok? <==> OpsSuit(m, namespace, ops)
    decreases |ops|
  {
    if ops != [] {
      var k := |ops| - 1;
      var front, op := ops[..k], ops[k];
      assert ops == front + [op];
      OpsSplit(m, namespace, front, [op]);
      BatchSucceedsIff(m, namespace, front);
      forall i | 0 <= i < k
        ensures OpSuitsAt(m, namespace, front, i) <==> OpSuitsAt(m, namespace, ops, i)
      {
        SuitsAtPrefix(m, namespace, ops, k, i);
      }
      if ApplyOps(m, namespace, front).Ok? {
        var n := AfterBatch(m, namespace, front);
        OneOpBatch(n, namespace, op);
        OpSucceedsIff(n, namespace, op);
        LastSuits(m, namespace, ops, n);
      }
    }
  }

  lemma LastSuits(m: State, namespace: string, ops: seq<BatchOp>, n: State)
    requires ops != [] && After(m, n, ops[..|ops| - 1])
    ensures OpSuitsAt(m, namespace, ops, |ops| - 1)
            <==> Sound(namespace, ops[|ops| - 1]) && Suits(n, ops[|ops| - 1])
  {
    var front := ops[..|ops| - 1];
    forall other | After(m, other, front) ensures other == n {
      AfterUnique(m, other, n, front);
    }
  }

  /** An event can be applied exactly when it says so. */
  lemma ApplySucceedsIff(env: Integrity, m: State, e: Event)
    ensures Apply(env, m, e).Ok? <==> Applies(env, m, e)
  {
    match e.eventType {
      case StateWrite =>
        if e.key.Some? {
          OpSucceedsIff(m, e.namespace, OpsOf(e)[0]);
        }
      case StateDelete =>
        if e.key.Some? {
          OpSucceedsIff(m, e.namespace, OpsOf(e)[0]);
        }
      case StateBatch =>
        if e.ops.Some? {
          BatchSucceedsIff(m, e.namespace, e.ops.value);
        }
      case _ =>
    }
  }

  // ---------------------------------------------------------------------------
  // What a run remembers of the events behind it.
  // ---------------------------------------------------------------------------

  ghost predicate SealsSeen(last: Option<u64>, done: seq<Event>) {
    && (forall j :: 0 <= j < |done| && done[j].eventType == TickSeal ==>
          done[j].timestampMs.Some? && last.Some? && done[j].timestampMs.value <= last.value)
    && (last.Some? ==> exists j :: 0 <= j < |done| && done[j].eventType == TickSeal && done[j].timestampMs == last)
  }

  ghost predicate TicksSeen(max: u64, done: seq<Event>) {
    && (forall j :: 0 <= j < |done| ==> done[j].tick <= max)
    && (max > 0 ==> exists j :: 0 <= j < |done| && done[j].tick == max)
  }

  ghost predicate Summary(namespace: string, p: Progress, done: seq<Event>) {
    && p.expectedSeq == |done| && p.namespace == Some(namespace) && p.seen == DigestsOf(done)
    && p.expectedPrev == (if done == [] then ZERO_DIGEST_HEX else done[|done| - 1].digest)
    && SealsSeen(p.lastSealMs, done) && TicksSeen(p.maxTick, done)
    && After(map[], p.state, AllOps(done))
  }

  lemma SealIff(last: Option<u64>, done: seq<Event>, e: Event)
    requires SealsSeen(last, done)
    ensures CheckSeal(last, e).Ok? <==> OnTime(done, e)
    ensures CheckSeal(last, e).Ok? ==> SealsSeen(CheckSeal(last, e).value, done + [e])
  {
    if CheckSeal(last, e).Ok? {
      var next := CheckSeal(last, e).value;
      if e.eventType == TickSeal {
        assert (done + [e])[|done|] == e;
      } else if last.Some? {
        var j :| 0 <= j < |done| && done[j].eventType == TickSeal && done[j].timestampMs == last;
        assert (done + [e])[j] == done[j];
      }
    }
  }

  lemma TickIff(max: u64, done: seq<Event>, e: Event)
    requires TicksSeen(max, done)
    ensures CheckTick(max, e).Ok? <==> InOrder(done, e)
    ensures CheckTick(max, e).Ok? ==> TicksSeen(CheckTick(max, e).value, done + [e])
  {
    if CheckTick(max, e).Ok? {
      if e.tick != 0 {
        assert (done + [e])[|done|] == e;
      } else if max > 0 {
        var j :| 0 <= j < |done| && done[j].tick == max;
        assert (done + [e])[j] == done[j];
      }
    }
  }

  lemma LinkIff(env: Integrity, namespace: string, p: Progress, done: seq<Event>, e: Event)
    requires Summary(namespace, p, done) && e.digest !in p.seen
    ensures CheckLink(env, p, e).Ok? <==> LinksOn(env, namespace, done, e)
  {
    forall j | 0 <= j < |done| ensures done[j].digest != e.digest {
      assert done[j].digest in DigestsOf(done);
    }
  }

  lemma StateIff(env: Integrity, namespace: string, p: Progress, done: seq<Event>, e: Event)
    requires Summary(namespace, p, done)
    ensures Apply(env, p.state, e).Ok? <==> exists m :: After(map[], m, AllOps(done)) && Applies(env, m, e)
  {
    ApplySucceedsIff(env, p.state, e);
    forall m | After(map[], m, AllOps(done)) ensures m == p.state {
      AfterUnique(map[], m, p.state, AllOps(done));
    }
  }

  lemma OpsSoFar(done: seq<Event>, e: Event)
    ensures AllOps(done + [e]) == AllOps(done) + OpsOf(e)
    ensures DigestsOf(done + [e]) == DigestsOf(done) + {e.digest}
  {
    assert (done + [e])[..|done|] == done && (done + [e])[|done|] == e;
    forall d ensures d in DigestsOf(done + [e]) <==> d in DigestsOf(done) + {e.digest} {
      if d in DigestsOf(done) {
        var j :| 0 <= j < |done| && done[j].digest == d;
        assert (done + [e])[j].digest == d;
      }
      if d in DigestsOf(done + [e]) {
        var j :| 0 <= j < |done + [e]| && (done + [e])[j].digest == d;
        assert j < |done| ==> done[j].digest == d;
      }
      assert (done + [e])[|done|].digest == e.digest;
    }
  }

  lemma StateAfter(env: Integrity, m: State, done: seq<Event>, e: Event) returns (r: State)
    requires After(map[], m, AllOps(done)) && Apply(env, m, e).Ok?
    ensures Apply(env, m, e) == Ok(r) && After(map[], r, AllOps(done + [e]))
  {
    r := ApplyIsOps(env, m, e);
    OpsSoFar(done, e);
    forall key ensures AfterAt(map[], r, AllOps(done + [e]), key) {
      BatchIsLastWriter(m, e.namespace, OpsOf(e), key);
      Compose(map[], m, r, AllOps(done), OpsOf(e), key);
    }
  }

  /** One event is accepted exactly when it fits. */
  lemma StepIff(env: Integrity, namespace: string, p: Progress, done: seq<Event>, e: Event)
    requires Summary(namespace, p, done) && e.digest !in p.seen
    ensures Step(env, p, e).Ok? <==> Fits(env, namespace, done, e)
  {
    LinkIff(env, namespace, p, done, e);
    SealIff(p.lastSealMs, done, e);
    TickIff(p.maxTick, done, e);
    StateIff(env, namespace, p, done, e);
  }

  lemma StepSummary(env: Integrity, namespace: string, p: Progress, done: seq<Event>, e: Event) returns (q: Progress)
    requires Summary(namespace, p, done) && e.digest !in p.seen && Step(env, p, e).Ok?
    ensures Step(env, p, e) == Ok(q) && Summary(namespace, q, done + [e])
  {
    q := Step(env, p, e).value;
    SealIff(p.lastSealMs, done, e);
    TickIff(p.maxTick, done, e);
    OpsSoFar(done, e);
    var r := StateAfter(env, p.state, done, e);
    assert (done + [e])[|done|] == e;
  }

  // ---------------------------------------------------------------------------
  // Main results.
  // ---------------------------------------------------------------------------

  ghost predicate FitsFrom(env: Integrity, namespace: string, events: seq<Event>, n: nat) {
    forall i :: n <= i < |events| ==> Fits(env, namespace, events[..i], events[i])
  }

  lemma {:induction false} RunFrom(env: Integrity, namespace: string, p: Progress, events: seq<Event>, n: nat)
    requires n <= |events| && DistinctDigests(events) && Summary(namespace, p, events[..n])
    ensures Run(env, p, events[n..]).Ok? <==> FitsFrom(env, namespace, events, n)
    ensures Run(env, p, events[n..]).Ok? ==>
              After(map[], Run(env, p, events[n..]).value.state, AllOps(events))
    decreases |events| - n
  {
    if n == |events| {
      assert events[..n] == events;
    } else {
      var e := events[n];
      assert events[n..][0] == e && events[n..][1..] == events[n + 1..] && events[..n] + [e] == events[..n + 1];
      NotSeen(events, n);
      StepIff(env, namespace, p, events[..n], e);
      if Step(env, p, e).Ok? {
        var q := StepSummary(env, namespace, p, events[..n], e);
        RunFrom(env, namespace, q, events, n + 1);
      }
    }
  }

  lemma NotSeen(events: seq<Event>, n: nat)
    requires n < |events| && DistinctDigests(events)
    ensures events[n].digest !in DigestsOf(events[..n])
  {
  }

  /** A log of distinct events replays from genesis if and only if each event fits after the
      ones before it, and then the state holds what the last operations on each key say. */
  lemma ReplayIff(env: Integrity, events: seq<Event>)
    requires events != [] && DistinctDigests(events)
    ensures var r := ReplayWithSnapshot(env, events, None);
            && (r.Ok? <==> FitsFrom(env, events[0].namespace, events, 0))
            && (r.Ok? ==> After(map[], r.value.state, AllOps(events)))
  {
    var start := Start(events, None);
    assert events[..0] == [] && events[0..] == events;
    RunFrom(env, events[0].namespace, start, events, 0);
    assert FitsFrom(env, events[0].namespace, events, 0) ==>
             Fits(env, events[0].namespace, events[..0], events[0]);
  }

  lemma FitsDistinct(env: Integrity, namespace: string, events: seq<Event>)
    requires FitsFrom(env, namespace, events, 0)
    ensures DistinctDigests(events)
  {
    forall i, j | 0 <= i < j < |events| ensures events[i].digest != events[j].digest {
      assert Fits(env, namespace, events[..j], events[j]);
      assert events[..j][i] == events[i];
    }
  }

  /** The same for SHA-256 digests that do not collide, whether the events are distinct or not. */
  lemma ShaReplayIff(sha: Hash, events: seq<Event>)
    requires events != [] && AllWellFormed(events) && NoCollisions(sha, events)
    ensures var env := ShaIntegrity(sha);
            var r := ReplayWithSnapshot(env, events, None);
            && (r.Ok? <==> FitsFrom(env, events[0].namespace, events, 0))
            && (r.Ok? ==> After(map[], r.value.state, AllOps(events)))
  {
    var env := ShaIntegrity(sha);
    if ReplayWithSnapshot(env, events, None).Ok? {
      RunLinks(env, Start(events, None), events);
      LinkedDistinct(sha, events, 0, ZERO_DIGEST_HEX);
      ReplayIff(env, events);
    } else if FitsFrom(env, events[0].namespace, events, 0) {
      FitsDistinct(env, events[0].namespace, events);
      ReplayIff(env, events);
    }
  }

  // ---------------------------------------------------------------------------
  // Which violation is reported.
  // ---------------------------------------------------------------------------

  /** What is wrong with the link of an event to the ones before it. */
  predicate BlamesLink(namespace: string, done: seq<Event>, e: Event, v: Violation) {
    if e.namespace != namespace then v == NamespaceBreach
    else if e.seqNo < |done| then v == SequenceCollision
    else if e.seqNo > |done| then v == SequenceGap
    else v == Violation.DigestMismatch
  }

  ghost predicate KeyedAndSound(e: Event)
    requires e.eventType == StateWrite || e.eventType == StateDelete
  {
    e.key.Some? && Sound(e.namespace, OpsOf(e)[0])
  }

  /** What is wrong with applying an event to a state. */
  ghost predicate BlamesState(m: State, e: Event, v: Violation) {
    match e.eventType
    case StateWrite => v == if KeyedAndSound(e) then StateMismatch else InvalidEventFormat
    case StateDelete => v == if KeyedAndSound(e) then StateMismatch else InvalidEventFormat
    case StateBatch => if e.ops.None? then v == InvalidEventFormat else BlamesBatch(m, e.namespace, e.ops.value, v)
    case TickSeal => v == if e.rootDigest.None? then InvalidEventFormat else StateMismatch
    case Compact => v == if e.snapshotDigest.None? then InvalidEventFormat else CompactMismatch
    case ProtocolError => v == ProtocolErrorEvent
  }

  /** The operation at `i` is the first that fails: it is unsound, or does not suit the state. */
  ghost predicate BlamesOp(m: State, namespace: string, ops: seq<BatchOp>, i: nat, v: Violation) {
    && i < |ops| && !OpSuitsAt(m, namespace, ops, i)
    && (forall j :: 0 <= j < i ==> OpSuitsAt(m, namespace, ops, j))
    && v == if Sound(namespace, ops[i]) then StateMismatch else InvalidEventFormat
  }

  ghost predicate BlamesBatch(m: State, namespace: string, ops: seq<BatchOp>, v: Violation) {
    exists i: nat :: BlamesOp(m, namespace, ops, i, v)
  }

  /** The first thing wrong with an event after the events `done` and the state `m`. */
  ghost predicate Blames(env: Integrity, namespace: string, done: seq<Event>, m: State, e: Event, v: Violation) {
    if !LinksOn(env, namespace, done, e) then BlamesLink(namespace, done, e, v)
    else if e.eventType == TickSeal && e.timestampMs.None? then v == InvalidEventFormat
    else if !OnTime(done, e) then v == TimestampRegression
    else if !InOrder(done, e) then v == TickRegression
    else !Applies(env, m, e) && BlamesState(m, e, v)
  }

  lemma BlamesInPrefix(m: State, namespace: string, ops: seq<BatchOp>, k: nat, i: nat, v: Violation)
    requires k <= |ops| && BlamesOp(m, namespace, ops[..k], i, v)
    ensures BlamesOp(m, namespace, ops, i, v)
  {
    SuitsAtPrefix(m, namespace, ops, k, i);
    forall j | 0 <= j < i ensures OpSuitsAt(m, namespace, ops, j) {
      SuitsAtPrefix(m, namespace, ops, k, j);
    }
  }

  lemma BlamesLast(m: State, namespace: string, ops: seq<BatchOp>, n: State)
    requires ops != [] && ApplyOps(m, namespace, ops[..|ops| - 1]) == Ok(n) && After(m, n, ops[..|ops| - 1])
    requires ApplyOp(n, namespace, ops[|ops| - 1]).Err?
    ensures BlamesOp(m, namespace, ops, |ops| - 1, ApplyOp(n, namespace, ops[|ops| - 1]).error)
  {
    var k := |ops| - 1;
    BatchSucceedsIff(m, namespace, ops[..k]);
    forall j | 0 <= j < k ensures OpSuitsAt(m, namespace, ops, j) {
      SuitsAtPrefix(m, namespace, ops, k, j);
    }
    OpSucceedsIff(n, namespace, ops[k]);
    LastSuits(m, namespace, ops, n);
  }

  lemma {:induction false} BatchBlames(m: State, namespace: string, ops: seq<BatchOp>)
    requires ApplyOps(m, namespace, ops).Err?
    ensures BlamesBatch(m, namespace, ops, ApplyOps(m, namespace, ops).error)
    decreases |ops|
  {
    var k := |ops| - 1;
    var front, op := ops[..k], ops[k];
    assert ops == front + [op];
    OpsSplit(m, namespace, front, [op]);
    if ApplyOps(m, namespace, front).Ok? {
      var n := AfterBatch(m, namespace, front);
      OneOpBatch(n, namespace, op);
      BlamesLast(m, namespace, ops, n);
    } else {
      BatchBlames(m, namespace, front);
      var i: nat :| BlamesOp(m, namespace, front, i, ApplyOps(m, namespace, front).error);
      BlamesInPrefix(m, namespace, ops, k, i, ApplyOps(m, namespace, front).error);
    }
  }

  lemma ApplyBlames(env: Integrity, m: State, e: Event)
    requires Apply(env, m, e).Err?
    ensures !Applies(env, m, e) && BlamesState(m, e, Apply(env, m, e).error)
  {
    ApplySucceedsIff(env, m, e);
    match e.eventType {
      case StateWrite =>
        if e.key.Some? {
          OpSucceedsIff(m, e.namespace, OpsOf(e)[0]);
        }
      case StateDelete =>
        if e.key.Some? {
          OpSucceedsIff(m, e.namespace, OpsOf(e)[0]);
        }
      case StateBatch =>
        if e.ops.Some? {
          BatchBlames(m, e.namespace, e.ops.value);
        }
      case _ =>
    }
  }

  lemma StepBlames(env: Integrity, namespace: string, p: Progress, done: seq<Event>, e: Event)
    requires Summary(namespace, p, done) && e.digest !in p.seen && Step(env, p, e).Err?
    ensures !Fits(env, namespace, done, e) && Blames(env, namespace, done, p.state, e, Step(env, p, e).error)
  {
    StepIff(env, namespace, p, done, e);
    LinkIff(env, namespace, p, done, e);
    SealIff(p.lastSealMs, done, e);
    TickIff(p.maxTick, done, e);
    if CheckLink(env, p, e).Ok? && CheckSeal(p.lastSealMs, e).Ok? && CheckTick(p.maxTick, e).Ok? {
      ApplyBlames(env, p.state, e);
    }
  }

  lemma RunAt(env: Integrity, p: Progress, events: seq<Event>, n: nat)
    requires n < |events|
    ensures Run(env, p, events[n..]) == match Step(env, p, events[n])
                                        case Err(v) => Err(v)
                                        case Ok(q) => Run(env, q, events[n + 1..])
  {
    assert events[n..][0] == events[n] && events[n..][1..] == events[n + 1..];
  }

  lemma StepOn(env: Integrity, namespace: string, p: Progress, events: seq<Event>, n: nat) returns (q: Progress)
    requires n < |events| && DistinctDigests(events) && Summary(namespace, p, events[..n])
    requires Step(env, p, events[n]).Ok?
    ensures Step(env, p, events[n]) == Ok(q) && Summary(namespace, q, events[..n + 1])
    ensures Fits(env, namespace, events[..n], events[n])
  {
    NotSeen(events, n);
    StepIff(env, namespace, p, events[..n], events[n]);
    q := StepSummary(env, namespace, p, events[..n], events[n]);
    assert events[..n] + [events[n]] == events[..n + 1];
  }

  lemma {:induction false} RunBlames(env: Integrity, namespace: string, p: Progress, events: seq<Event>, n: nat)
    returns (i: nat, m: State)
    requires n <= |events| && DistinctDigests(events) && Summary(namespace, p, events[..n])
    requires Run(env, p, events[n..]).Err?
    ensures n <= i < |events| && forall j :: n <= j < i ==> Fits(env, namespace, events[..j], events[j])
    ensures !Fits(env, namespace, events[..i], events[i]) && After(map[], m, AllOps(events[..i]))
    ensures Blames(env, namespace, events[..i], m, events[i], Run(env, p, events[n..]).error)
    decreases |events| - n
  {
    RunAt(env, p, events, n);
    if Step(env, p, events[n]).Ok? {
      var q := StepOn(env, namespace, p, events, n);
      i, m := RunBlames(env, namespace, q, events, n + 1);
    } else {
      NotSeen(events, n);
      StepBlames(env, namespace, p, events[..n], events[n]);
      i, m := n, p.state;
    }
  }

  /** When a log of distinct events does not replay, the violation reported is the first thing
      wrong with the first event that does not fit. */
  lemma ReplayBlames(env: Integrity, events: seq<Event>) returns (i: nat, m: State)
    requires events != [] && DistinctDigests(events) && ReplayWithSnapshot(env, events, None).Err?
    ensures i < |events| && forall j :: 0 <= j < i ==> Fits(env, events[0].namespace, events[..j], events[j])
    ensures !Fits(env, events[0].namespace, events[..i], events[i]) && After(map[], m, AllOps(events[..i]))
    ensures Blames(env, events[0].namespace, events[..i], m, events[i], ReplayWithSnapshot(env, events, None).error)
  {
    var start := Start(events, None);
    assert events[..0] == [] && events[0..] == events;
    i, m := RunBlames(env, events[0].namespace, start, events, 0);
  }
}
