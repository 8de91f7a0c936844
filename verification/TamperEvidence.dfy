/** The head digest of a log that replays commits to the whole log and to its state. */
module TamperEvidence {
  import opened Prelude
  import opened CanonicalJson
  import opened Digests
  import opened EventDigests
  import opened Events
  import opened Records
  import opened Replay
  import opened ReplayFacts
  import opened StateMap

  // ---------------------------------------------------------------------------
  // Equal digested fields have equal effects.
  // ---------------------------------------------------------------------------

  lemma SameBsm(tag: byte, v: Value, w: Value)
    requires Equivalent(v, w) && EventValueToBsm(tag, v).Ok? && EventValueToBsm(tag, w).Ok?
    ensures EventValueToBsm(tag, v) == EventValueToBsm(tag, w)
  {
    if tag == 0x02 {
      AgreeIntegers(v.n.i, w.n.i);
    }
  }

  lemma SameWritten(tag: Option<byte>, v: Option<Value>, w: Option<Value>)
    requires Agree(v, w) && WrittenValue(tag, v).Ok? && WrittenValue(tag, w).Ok?
    ensures WrittenValue(tag, v) == WrittenValue(tag, w)
  {
    SameBsm(tag.value, v.value, w.value);
  }

  lemma SameOpEffect(m: State, namespace: string, a: BatchOp, b: BatchOp)
    requires SameOp(a, b) && CheckOp(namespace, a).Ok? && CheckOp(namespace, b).Ok?
    ensures ApplyOp(m, namespace, a) == ApplyOp(m, namespace, b)
  {
    if a.opType == WriteOp {
      SameWritten(a.valueType, a.value, b.value);
    }
  }

  lemma {:induction false} SameOpsEffect(m: State, namespace: string, a: seq<BatchOp>, b: seq<BatchOp>)
    requires |a| == |b| && forall i :: 0 <= i < |a| ==> SameOp(a[i], b[i])
    requires CheckOps(namespace, a).Ok? && CheckOps(namespace, b).Ok?
    ensures ApplyOps(m, namespace, a) == ApplyOps(m, namespace, b)
    decreases |a|
  {
    if a != [] {
      SameOpEffect(m, namespace, a[0], b[0]);
      if ApplyOp(m, namespace, a[0]).Ok? {
        SameOpsEffect(ApplyOp(m, namespace, a[0]).value, namespace, a[1..], b[1..]);
      }
    }
  }

  lemma SameEffect(env: Integrity, m: State, a: Event, b: Event)
    requires SameDigested(a, b) && ValidatePayload(a).Ok? && ValidatePayload(b).Ok?
    ensures Apply(env, m, a) == Apply(env, m, b)
  {
    match a.eventType {
      case StateWrite => SameWritten(a.valueType, a.value, b.value);
      case StateBatch => SameOpsEffect(m, a.namespace, a.ops.value, b.ops.value);
      case _ =>
    }
  }

  /** Events alike in all that replay looks at. */
  ghost predicate Alike(env: Integrity, a: Event, b: Event) {
    && SameDigested(a, b) && a.digest == b.digest
    && ValidatePayload(a).Ok? && ValidatePayload(b).Ok?
    && env.digestValid(a) == env.digestValid(b)
  }

  lemma SameStep(env: Integrity, p: Progress, a: Event, b: Event)
    requires Alike(env, a, b)
    ensures Step(env, p, a) == Step(env, p, b)
  {
    SameEffect(env, p.state, a, b);
  }

  lemma {:induction false} SameRun(env: Integrity, p: Progress, a: seq<Event>, b: seq<Event>)
    requires |a| == |b| && forall i :: 0 <= i < |a| ==> Alike(env, a[i], b[i])
    ensures Run(env, p, a) == Run(env, p, b)
    decreases |a|
  {
    if a != [] {
      SameStep(env, p, a[0], b[0]);
      if Step(env, p, a[0]).Ok? {
        SameRun(env, Step(env, p, a[0]).value, a[1..], b[1..]);
      }
    }
  }

  // ---------------------------------------------------------------------------
  // Backwards along the chain.
  // ---------------------------------------------------------------------------

  /** No collision between the digest inputs of one log and those of the other. */
  ghost predicate NoCrossCollisions(sha: Hash, a: seq<Event>, b: seq<Event>) {
    forall i, j {:trigger NoCollision(sha, a[i], b[j])} ::
      0 <= i < |a| && 0 <= j < |b| ==> NoCollision(sha, a[i], b[j])
  }

  lemma DigestValidPayload(sha: Hash, e: Event)
    requires ShaIntegrity(sha).digestValid(e)
    ensures ValidateDigest(sha, e).Ok? && ValidatePayload(e).Ok?
  {
  }

  lemma SameDigestAlike(sha: Hash, a: Event, b: Event)
    requires ShaIntegrity(sha).digestValid(a) && ShaIntegrity(sha).digestValid(b)
    requires WellFormedEvent(a) && WellFormedEvent(b) && NoCollision(sha, a, b) && a.digest == b.digest
    ensures Alike(ShaIntegrity(sha), a, b)
  {
    DigestValidPayload(sha, a);
    DigestValidPayload(sha, b);
    DigestCommits(sha, a, b);
  }

  /** A digest fixes the sequence number and the digest before it. */
  predicate PinsPrevious(a: Event, b: Event) {
    a.digest == b.digest ==> a.seqNo == b.seqNo && a.prevDigest == b.prevDigest
  }

  ghost predicate AllPin(a: seq<Event>, b: seq<Event>) {
    forall i, j {:trigger PinsPrevious(a[i], b[j])} ::
      0 <= i < |a| && 0 <= j < |b| ==> PinsPrevious(a[i], b[j])
  }

  lemma DigestsPin(sha: Hash, a: seq<Event>, b: seq<Event>)
    requires Linked(ShaIntegrity(sha), a, 0, ZERO_DIGEST_HEX) && Linked(ShaIntegrity(sha), b, 0, ZERO_DIGEST_HEX)
    requires AllWellFormed(a) && AllWellFormed(b) && NoCrossCollisions(sha, a, b)
    ensures AllPin(a, b)
  {
    forall i, j | 0 <= i < |a| && 0 <= j < |b| ensures PinsPrevious(a[i], b[j]) {
      if a[i].digest == b[j].digest {
        assert NoCollision(sha, a[i], b[j]);
        assert LinkedAt(ShaIntegrity(sha), a, 0, ZERO_DIGEST_HEX, i);
        assert LinkedAt(ShaIntegrity(sha), b, 0, ZERO_DIGEST_HEX, j);
        SameDigestAlike(sha, a[i], b[j]);
      }
    }
  }

  predicate Chained(a: seq<Event>, first: string) {
    forall i {:trigger PrevOf(a, i, first)} :: 0 <= i < |a| ==> a[i].prevDigest == PrevOf(a, i, first)
  }

  /** Equal digests at one position mean equal digests at every earlier one. */
  lemma {:induction false} ChainBackwards(a: seq<Event>, b: seq<Event>, first: string, n: nat)
    requires n < |a| && n < |b| && a[n].digest == b[n].digest
    requires Chained(a, first) && Chained(b, first) && AllPin(a, b)
    ensures forall i :: 0 <= i <= n ==> a[i].digest == b[i].digest
  {
    assert PinsPrevious(a[n], b[n]);
    if n > 0 {
      assert a[n].prevDigest == PrevOf(a, n, first) && b[n].prevDigest == PrevOf(b, n, first);
      assert PrevOf(a, n, first) == PrevOf(b, n, first);
      ChainBackwards(a, b, first, n - 1);
    }
  }

  lemma LinkedIsChained(env: Integrity, a: seq<Event>, first: string)
    requires Linked(env, a, 0, first)
    ensures Chained(a, first)
  {
    forall i | 0 <= i < |a| ensures a[i].prevDigest == PrevOf(a, i, first) {
      assert LinkedAt(env, a, 0, first, i);
    }
  }

  lemma SameHeadSameDigests(env: Integrity, a: seq<Event>, b: seq<Event>, first: string)
    requires a != [] && b != [] && a[|a| - 1].digest == b[|b| - 1].digest
    requires Linked(env, a, 0, first) && Linked(env, b, 0, first) && AllPin(a, b)
    ensures |a| == |b| && forall i :: 0 <= i < |a| ==> a[i].digest == b[i].digest
  {
    assert PinsPrevious(a[|a| - 1], b[|b| - 1]);
    assert LinkedAt(env, a, 0, first, |a| - 1) && LinkedAt(env, b, 0, first, |b| - 1);
    LinkedIsChained(env, a, first);
    LinkedIsChained(env, b, first);
    ChainBackwards(a, b, first, |a| - 1);
  }

  lemma AllAlike(sha: Hash, a: seq<Event>, b: seq<Event>)
    requires |a| == |b| && forall i :: 0 <= i < |a| ==> a[i].digest == b[i].digest
    requires Linked(ShaIntegrity(sha), a, 0, ZERO_DIGEST_HEX) && Linked(ShaIntegrity(sha), b, 0, ZERO_DIGEST_HEX)
    requires AllWellFormed(a) && AllWellFormed(b) && NoCrossCollisions(sha, a, b)
    ensures forall i :: 0 <= i < |a| ==> Alike(ShaIntegrity(sha), a[i], b[i])
  {
    forall i | 0 <= i < |a| ensures Alike(ShaIntegrity(sha), a[i], b[i]) {
      assert NoCollision(sha, a[i], b[i]);
      assert LinkedAt(ShaIntegrity(sha), a, 0, ZERO_DIGEST_HEX, i);
      assert LinkedAt(ShaIntegrity(sha), b, 0, ZERO_DIGEST_HEX, i);
      SameDigestAlike(sha, a[i], b[i]);
    }
  }

  lemma AlikeReplay(env: Integrity, a: seq<Event>, b: seq<Event>)
    requires a != [] && |a| == |b| && forall i :: 0 <= i < |a| ==> Alike(env, a[i], b[i])
    ensures ReplayWithSnapshot(env, a, None) == ReplayWithSnapshot(env, b, None)
  {
    assert Alike(env, a[0], b[0]);
    SameRun(env, Start(a, None), a, b);
  }

  /** Chain tamper evidence: two logs that replay from genesis and end in one event digest
      have one length, agree on every digested field of every event, and reach one state. */
  lemma HeadDigestCommits(sha: Hash, a: seq<Event>, b: seq<Event>)
    requires a != [] && b != [] && a[|a| - 1].digest == b[|b| - 1].digest
    requires ReplayWithSnapshot(ShaIntegrity(sha), a, None).Ok?
    requires ReplayWithSnapshot(ShaIntegrity(sha), b, None).Ok?
    requires AllWellFormed(a) && AllWellFormed(b) && NoCrossCollisions(sha, a, b)
    ensures |a| == |b| && forall i :: 0 <= i < |a| ==> Alike(ShaIntegrity(sha), a[i], b[i])
    ensures ReplayWithSnapshot(ShaIntegrity(sha), a, None) == ReplayWithSnapshot(ShaIntegrity(sha), b, None)
  {
    var env := ShaIntegrity(sha);
    RunLinks(env, Start(a, None), a);
    RunLinks(env, Start(b, None), b);
    DigestsPin(sha, a, b);
    SameHeadSameDigests(env, a, b, ZERO_DIGEST_HEX);
    AllAlike(sha, a, b);
    AlikeReplay(env, a, b);
  }

  // ---------------------------------------------------------------------------
  // Logs that are linked: what the fold can still object to.
  // ---------------------------------------------------------------------------

  /** Violations that speak about the integrity of the log rather than of its payloads. */
  predicate IntegrityViolation(v: Violation) {
    v == SequenceGap || v == SequenceCollision || v == Violation.DigestMismatch || v == NamespaceBreach
    || v == DuplicateEvent
  }

  lemma ApplyPayloadOnly(env: Integrity, m: State, e: Event)
    requires Apply(env, m, e).Err?
    ensures !IntegrityViolation(Apply(env, m, e).error)
  {
    if e.eventType == StateBatch && e.ops.Some? {
      ApplyOpsPayloadOnly(m, e.namespace, e.ops.value);
    }
  }

  lemma {:induction false} ApplyOpsPayloadOnly(m: State, namespace: string, ops: seq<BatchOp>)
    requires ApplyOps(m, namespace, ops).Err?
    ensures !IntegrityViolation(ApplyOps(m, namespace, ops).error)
    decreases |ops|
  {
    if ops != [] && ApplyOp(m, namespace, ops[0]).Ok? {
      ApplyOpsPayloadOnly(ApplyOp(m, namespace, ops[0]).value, namespace, ops[1..]);
    }
  }

  lemma LinkedStep(env: Integrity, p: Progress, e: Event)
    requires e.seqNo == p.expectedSeq && e.prevDigest == p.expectedPrev && env.digestValid(e)
    requires p.namespace.Some? ==> p.namespace.value == e.namespace
    requires e.digest !in p.seen
    ensures Step(env, p, e).Err? ==> !IntegrityViolation(Step(env, p, e).error)
    ensures Step(env, p, e).Ok? ==>
              var q := Step(env, p, e).value;
              q.expectedSeq == p.expectedSeq + 1 && q.expectedPrev == e.digest
              && q.namespace == Some(e.namespace) && q.seen == p.seen + {e.digest} && q.warnings == p.warnings
  {
    if Apply(env, p.state, e).Err? {
      ApplyPayloadOnly(env, p.state, e);
    }
  }

  lemma LinkedTail(env: Integrity, events: seq<Event>, firstSeq: nat, firstPrev: string)
    requires Linked(env, events, firstSeq, firstPrev) && events != []
    ensures Linked(env, events[1..], firstSeq + 1, events[0].digest)
    ensures events[1..] != [] ==> events[1].namespace == events[0].namespace
  {
    var rest := events[1..];
    var nextSeq, prev := firstSeq + 1, events[0].digest;
    forall i | 0 <= i < |rest| ensures LinkedAt(env, rest, nextSeq, prev, i) {
      assert LinkedAt(env, events, firstSeq, firstPrev, i + 1) && LinkedAt(env, events, firstSeq, firstPrev, 1);
      assert PrevOf(rest, i, prev) == PrevOf(events, i + 1, firstPrev);
    }
    if rest != [] {
      assert LinkedAt(env, events, firstSeq, firstPrev, 1);
    }
  }

  predicate FreshDigests(seen: set<string>, events: seq<Event>) {
    DistinctDigests(events) && forall i :: 0 <= i < |events| ==> events[i].digest !in seen
  }

  lemma {:induction false} LinkedRun(env: Integrity, p: Progress, events: seq<Event>)
    requires Linked(env, events, p.expectedSeq, p.expectedPrev) && FreshDigests(p.seen, events)
    requires p.namespace.Some? && events != [] ==> p.namespace.value == events[0].namespace
    ensures Run(env, p, events).Err? ==> !IntegrityViolation(Run(env, p, events).error)
    ensures Run(env, p, events).Ok? ==> Run(env, p, events).value.warnings == p.warnings
    decreases |events|
  {
    if events != [] {
      assert LinkedAt(env, events, p.expectedSeq, p.expectedPrev, 0);
      LinkedStep(env, p, events[0]);
      if Step(env, p, events[0]).Ok? {
        LinkedTail(env, events, p.expectedSeq, p.expectedPrev);
        LinkedRun(env, Step(env, p, events[0]).value, events[1..]);
      }
    }
  }

  /** On a linked log replay's integrity guards never fire: no gap, no collision, no digest
      mismatch, no namespace breach; and without hash collisions the branch for duplicate
      events is dead, so no warning is ever given. */
  lemma LinkedLogReplays(sha: Hash, events: seq<Event>)
    requires Linked(ShaIntegrity(sha), events, 0, ZERO_DIGEST_HEX)
    requires AllWellFormed(events) && NoCollisions(sha, events)
    ensures var r := ReplayWithSnapshot(ShaIntegrity(sha), events, None);
            match r
            case Err(v) => !IntegrityViolation(v)
            case Ok(outcome) => outcome.warnings == []
  {
    var env := ShaIntegrity(sha);
    LinkedDistinct(sha, events, 0, ZERO_DIGEST_HEX);
    LinkedRun(env, Start(events, None), events);
  }
}
