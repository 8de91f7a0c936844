/** The flat list of accepted events that every log backend has to look like:
    `InMemoryBackend` in src/backend.rs. */
module Backend {
  import opened Prelude
  import opened Digests
  import opened Events

  datatype AppendError =
    | SequenceCollision
    | SequenceGap
    | Rejected(reason: EventError)
    | NamespaceBreach
    | LineNotCanonical
    | Storage

  /** The digest check handed to a backend. */
  type Validator = Event -> Result<(), EventError>

  function ShaValidator(sha: Hash): Validator {
    e => ValidateDigest(sha, e)
  }

  /** The checks an event passes before it is appended after `nextSeq` events whose last
      digest is `head` and whose namespace is `namespace`. */
  function Admit(validate: Validator, nextSeq: nat, head: string, namespace: Option<string>, e: Event)
    : Result<(), AppendError>
  {
    if e.seqNo < nextSeq then Err(SequenceCollision)
    else if e.seqNo > nextSeq then Err(SequenceGap)
    else if ValidatePrevDigest(e, head).Err? then Err(Rejected(PrevDigestMismatch))
    else
      match validate(e)
      case Err(reason) => Err(Rejected(reason))
      case Ok(_) =>
        if namespace.Some? && namespace.value != e.namespace then Err(NamespaceBreach) else Ok(())
  }

  function NextSeq(log: seq<Event>): nat {
    if log == [] then 0 else log[|log| - 1].seqNo + 1
  }

  function Head(log: seq<Event>): string {
    if log == [] then ZERO_DIGEST_HEX else log[|log| - 1].digest
  }

  function NamespaceOf(log: seq<Event>): Option<string> {
    if log == [] then None else Some(log[|log| - 1].namespace)
  }

  function Accept(validate: Validator, log: seq<Event>, e: Event): Result<(), AppendError> {
    Admit(validate, NextSeq(log), Head(log), NamespaceOf(log), e)
  }

  // ---------------------------------------------------------------------------
  // Reference definitions: when an event may join a log, field by field.
  // ---------------------------------------------------------------------------

  /** The event carries the next sequence number. */
  predicate InSequence(log: seq<Event>, e: Event) {
    e.seqNo == if log == [] then 0 else log[|log| - 1].seqNo + 1
  }

  /** The event carries a sequence number already given out. */
  predicate Behind(log: seq<Event>, e: Event) {
    log != [] && e.seqNo <= log[|log| - 1].seqNo
  }

  /** The event points back to the last one, or to the zero digest. */
  predicate PointsBack(log: seq<Event>, e: Event) {
    e.prevDigest == if log == [] then ZERO_DIGEST_HEX else log[|log| - 1].digest
  }

  predicate SameNamespace(log: seq<Event>, e: Event) {
    log != [] ==> e.namespace == log[|log| - 1].namespace
  }

  predicate Joins(validate: Validator, log: seq<Event>, e: Event) {
    InSequence(log, e) && PointsBack(log, e) && validate(e).Ok? && SameNamespace(log, e)
  }

  /** `r` accepts the event, or names the first thing wrong with it. */
  predicate Judges(validate: Validator, log: seq<Event>, e: Event, r: Result<(), AppendError>) {
    if Behind(log, e) then r == Err(SequenceCollision)
    else if !InSequence(log, e) then r == Err(SequenceGap)
    else if !PointsBack(log, e) then r == Err(Rejected(PrevDigestMismatch))
    else if validate(e).Err? then r == Err(Rejected(validate(e).error))
    else if !SameNamespace(log, e) then r == Err(NamespaceBreach)
    else r == Ok(())
  }

  lemma AcceptJudges(validate: Validator, log: seq<Event>, e: Event)
    ensures Judges(validate, log, e, Accept(validate, log, e))
    ensures Accept(validate, log, e).Ok? <==> Joins(validate, log, e)
  {
  }

  /** A check of an event against the log it is to join. */
  type Check = (seq<Event>, Event) -> Result<(), AppendError>

  function ListCheck(validate: Validator): Check {
    (log, e) => Accept(validate, log, e)
  }

  /** How many events of a batch are taken before the first rejection. */
  function Taken(check: Check, log: seq<Event>, batch: seq<Event>): (k: nat)
    ensures k <= |batch|
    decreases |batch|
  {
    if batch == [] || check(log, batch[0]).Err? then 0
    else 1 + Taken(check, log + [batch[0]], batch[1..])
  }

  /** The rejection that stops a batch, if any. */
  function BatchError(check: Check, log: seq<Event>, batch: seq<Event>): Option<AppendError>
    decreases |batch|
  {
    if batch == [] then None
    else
      match check(log, batch[0])
      case Err(e) => Some(e)
      case Ok(_) => BatchError(check, log + [batch[0]], batch[1..])
  }

  lemma Advance(batch: seq<Event>, i: nat)
    requires i < |batch|
    ensures batch[i..][0] == batch[i] && batch[i..][1..] == batch[i + 1..]
    ensures batch[..i + 1] == batch[..i] + [batch[i]]
  {
  }

  class InMemoryBackend {
    var events: seq<Event>

    constructor (initial: seq<Event>)
      ensures events == initial
    {
      events := initial;
    }

    method Append(validate: Validator, e: Event) returns (r: Result<(), AppendError>)
      modifies this
      ensures r == Accept(validate, old(events), e)
      ensures Judges(validate, old(events), e, r) && (r.Ok? <==> Joins(validate, old(events), e))
      ensures events == if r.Ok? then old(events) + [e] else old(events)
    {
      var nextSeq := if events == [] then 0 else events[|events| - 1].seqNo + 1;
      if e.seqNo != nextSeq {
        return Err(if e.seqNo < nextSeq then SequenceCollision else SequenceGap);
      }
      var head := if events == [] then ZERO_DIGEST_HEX else events[|events| - 1].digest;
      if ValidatePrevDigest(e, head).Err? {
        return Err(Rejected(PrevDigestMismatch));
      }
      var validated := validate(e);
      if validated.Err? {
        return Err(Rejected(validated.error));
      }
      if events != [] && events[|events| - 1].namespace != e.namespace {
        return Err(NamespaceBreach);
      }
      events := events + [e];
      return Ok(());
    }

    /** Events before the first rejection stay in the log. */
    method AppendBatch(validate: Validator, batch: seq<Event>) returns (r: Result<(), AppendError>)
      modifies this
      ensures r == match BatchError(ListCheck(validate), old(events), batch) case None => Ok(()) case Some(e) => Err(e)
      ensures events == old(events) + batch[..Taken(ListCheck(validate), old(events), batch)]
    {
      ghost var check, before := ListCheck(validate), events;
      assert batch[0..] == batch;
      for i := 0 to |batch|
        invariant events == before + batch[..i]
        invariant BatchError(check, before, batch) == BatchError(check, events, batch[i..])
        invariant Taken(check, before, batch) == i + Taken(check, events, batch[i..])
      {
        Advance(batch, i);
        ghost var log := events;
        var _ :- Append(validate, batch[i]);
        assert events == log + [batch[i]] == before + batch[..i + 1];
      }
      assert batch[..|batch|] == batch;
      return Ok(());
    }

    method Load() returns (r: seq<Event>)
      ensures r == events
    {
      return events;
    }

    /** The one sequence number the next append can succeed with; on a list built by appending,
        the number of events. */
    method NextSequence() returns (n: nat)
      ensures n == NextSeq(events)
      ensures forall validate, e :: Accept(validate, events, e).Ok? ==> e.seqNo == n
      ensures forall validate :: Appended(validate, events) ==> n == |events|
    {
      forall validate, e | Accept(validate, events, e).Ok? ensures e.seqNo == NextSeq(events) {
        AcceptedIsNext(validate, events, e);
      }
      forall validate | Appended(validate, events) ensures NextSeq(events) == |events| {
        AppendedLength(validate, events);
      }
      return if events == [] then 0 else events[|events| - 1].seqNo + 1;
    }
  }

  // ---------------------------------------------------------------------------
  // Logs built by appending.
  // ---------------------------------------------------------------------------

  /** Every event was accepted after the ones before it. */
  predicate Appended(validate: Validator, log: seq<Event>) {
    forall i :: 0 <= i < |log| ==> Accept(validate, log[..i], log[i]).Ok?
  }

  lemma AcceptedIsNext(validate: Validator, log: seq<Event>, e: Event)
    requires Accept(validate, log, e).Ok?
    ensures e.seqNo == NextSeq(log)
  {
  }

  lemma {:induction false} AppendedLength(validate: Validator, log: seq<Event>)
    requires Appended(validate, log)
    ensures NextSeq(log) == |log|
  {
    if log != [] {
      AppendedIsSequenced(validate, log, |log| - 1);
    }
  }

  lemma AppendKeeps(validate: Validator, log: seq<Event>, e: Event)
    requires Appended(validate, log) && Accept(validate, log, e).Ok?
    ensures Appended(validate, log + [e])
  {
    forall i | 0 <= i < |log| + 1 ensures Accept(validate, (log + [e])[..i], (log + [e])[i]).Ok? {
      if i < |log| {
        assert (log + [e])[..i] == log[..i];
      } else {
        assert (log + [e])[..i] == log;
      }
    }
  }

  /** A batch, rejected midway or not, leaves an appended log. */
  lemma {:induction false} BatchKeeps(validate: Validator, log: seq<Event>, batch: seq<Event>)
    requires Appended(validate, log)
    ensures Appended(validate, log + batch[..Taken(ListCheck(validate), log, batch)])
    decreases |batch|
  {
    var k := Taken(ListCheck(validate), log, batch);
    if k == 0 {
      assert log + batch[..0] == log;
    } else {
      AppendKeeps(validate, log, batch[0]);
      BatchKeeps(validate, log + [batch[0]], batch[1..]);
      TakeOne(log, batch, k);
    }
  }

  lemma TakeOne(log: seq<Event>, batch: seq<Event>, k: nat)
    requires 0 < k <= |batch|
    ensures log + batch[..k] == log + [batch[0]] + batch[1..][..k - 1]
  {
    assert batch[..k] == [batch[0]] + batch[1..][..k - 1];
  }

  lemma {:induction false} AppendedIsSequenced(validate: Validator, log: seq<Event>, i: nat)
    requires Appended(validate, log) && i < |log|
    ensures log[i].seqNo == i && validate(log[i]).Ok?
    ensures log[i].prevDigest == if i == 0 then ZERO_DIGEST_HEX else log[i - 1].digest
    ensures log[i].namespace == log[0].namespace
  {
    assert Accept(validate, log[..i], log[i]).Ok?;
    if i > 0 {
      AppendedIsSequenced(validate, log, i - 1);
      assert log[..i][i - 1] == log[i - 1];
    }
  }

  /** Sequence numbers from 0, valid digests, each event pointing back to the one before, one
      namespace. */
  predicate Chained(validate: Validator, log: seq<Event>) {
    forall i :: 0 <= i < |log| ==>
      && log[i].seqNo == i && validate(log[i]).Ok? && log[i].namespace == log[0].namespace
      && log[i].prevDigest == if i == 0 then ZERO_DIGEST_HEX else log[i - 1].digest
  }

  /** The logs that appending can build are exactly the chained ones. */
  lemma AppendedIffChained(validate: Validator, log: seq<Event>)
    ensures Appended(validate, log) <==> Chained(validate, log)
  {
    if Appended(validate, log) {
      forall i | 0 <= i < |log|
        ensures log[i].seqNo == i && validate(log[i]).Ok? && log[i].namespace == log[0].namespace
        ensures log[i].prevDigest == if i == 0 then ZERO_DIGEST_HEX else log[i - 1].digest
      {
        AppendedIsSequenced(validate, log, i);
      }
    }
    if Chained(validate, log) {
      forall i | 0 <= i < |log| ensures Accept(validate, log[..i], log[i]).Ok? {
        ChainedJoins(validate, log, i);
      }
    }
  }

  lemma ChainedJoins(validate: Validator, log: seq<Event>, i: nat)
    requires Chained(validate, log) && i < |log|
    ensures Joins(validate, log[..i], log[i]) && Accept(validate, log[..i], log[i]).Ok?
  {
    var before, e := log[..i], log[i];
    if i > 0 {
      assert before[|before| - 1] == log[i - 1];
      assert log[i - 1].seqNo == i - 1 && log[i - 1].namespace == log[0].namespace;
      assert e.seqNo == i && e.prevDigest == log[i - 1].digest && e.namespace == log[0].namespace;
    }
    AcceptJudges(validate, before, e);
  }

  /** Where a batch stops, and why. */
  lemma {:induction false} TakenIsFirstRejection(check: Check, log: seq<Event>, batch: seq<Event>)
    ensures var k := Taken(check, log, batch);
            && (forall i :: 0 <= i < k ==> check(log + batch[..i], batch[i]).Ok?)
            && (k < |batch| ==>
                  check(log + batch[..k], batch[k]).Err?
                  && BatchError(check, log, batch) == Some(check(log + batch[..k], batch[k]).error))
            && (k == |batch| ==> BatchError(check, log, batch) == None)
    decreases |batch|
  {
    if batch != [] {
      assert log + batch[..0] == log;
      if check(log, batch[0]).Ok? {
        TakenIsFirstRejection(check, log + [batch[0]], batch[1..]);
        var k := Taken(check, log, batch);
        forall i | 0 < i <= k ensures log + batch[..i] == log + [batch[0]] + batch[1..][..i - 1] {
          TakeOne(log, batch, i);
        }
        forall i | 0 <= i < k ensures check(log + batch[..i], batch[i]).Ok? {
          if i > 0 {
            assert batch[i] == batch[1..][i - 1];
          }
        }
      }
    }
  }

  /** A batch that continues a chained log is taken as a whole. */
  lemma ChainedIsTaken(validate: Validator, log: seq<Event>, batch: seq<Event>)
    requires Chained(validate, log + batch)
    ensures Taken(ListCheck(validate), log, batch) == |batch| && BatchError(ListCheck(validate), log, batch) == None
  {
    var check := ListCheck(validate);
    forall k | 0 <= k < |batch| ensures check(log + batch[..k], batch[k]).Ok? {
      ChainedJoins(validate, log + batch, |log| + k);
      assert (log + batch)[..|log| + k] == log + batch[..k] && (log + batch)[|log| + k] == batch[k];
    }
    TakenIsFirstRejection(check, log, batch);
  }
}
