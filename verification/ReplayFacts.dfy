/** What a successful run of the fold says about the events it went through. */
module ReplayFacts {
  import opened Prelude
  import opened Digests
  import opened EventDigests
  import opened Events
  import opened Replay
  import opened Snapshots
  import opened StateMap
  import Hex

  // ---------------------------------------------------------------------------
  // Runs compose.
  // ---------------------------------------------------------------------------

  lemma {:induction false} RunAppend(env: Integrity, p: Progress, a: seq<Event>, b: seq<Event>)
    ensures Run(env, p, a + b) == match Run(env, p, a)
                                  case Err(v) => Err(v)
                                  case Ok(q) => Run(env, q, b)
    decreases |a|
  {
    if a == [] {
      assert a + b == b;
    } else {
      assert (a + b)[0] == a[0] && (a + b)[1..] == a[1..] + b;
      if Step(env, p, a[0]).Ok? {
        RunAppend(env, Step(env, p, a[0]).value, a[1..], b);
      }
    }
  }

  lemma RunSplit(env: Integrity, p: Progress, events: seq<Event>, i: nat)
    requires i <= |events|
    ensures Run(env, p, events) == match Run(env, p, events[..i])
                                   case Err(v) => Err(v)
                                   case Ok(q) => Run(env, q, events[i..])
  {
    assert events == events[..i] + events[i..];
    RunAppend(env, p, events[..i], events[i..]);
  }

  lemma RunOne(env: Integrity, p: Progress, e: Event)
    ensures Run(env, p, [e]) == Step(env, p, e)
  {
    assert [e][1..] == [];
    if Step(env, p, e).Ok? {
      assert Run(env, Step(env, p, e).value, []) == Step(env, p, e);
    }
  }

  // ---------------------------------------------------------------------------
  // Links between events.
  // ---------------------------------------------------------------------------

  /** The digest the event at `i` has to point back to. */
  function PrevOf(events: seq<Event>, i: nat, firstPrev: string): string
    requires i <= |events|
  {
    if i == 0 then firstPrev else events[i - 1].digest
  }

  /** Consecutive sequence numbers, the digest chain, valid digests, one namespace. */
  ghost predicate Linked(env: Integrity, events: seq<Event>, firstSeq: nat, firstPrev: string) {
    forall i :: 0 <= i < |events| ==> LinkedAt(env, events, firstSeq, firstPrev, i)
  }

  predicate LinkedAt(env: Integrity, events: seq<Event>, firstSeq: nat, firstPrev: string, i: nat)
    requires i < |events|
  {
    && events[i].seqNo == firstSeq + i
    && events[i].prevDigest == PrevOf(events, i, firstPrev)
    && env.digestValid(events[i])
    && events[i].namespace == events[0].namespace
  }

  function DigestsOf(events: seq<Event>): set<string> {
    set i | 0 <= i < |events| :: events[i].digest
  }

  lemma StepLinks(env: Integrity, p: Progress, e: Event)
    requires Step(env, p, e).Ok?
    ensures e.seqNo == p.expectedSeq && e.prevDigest == p.expectedPrev && env.digestValid(e)
    ensures p.namespace.Some? ==> p.namespace == Some(e.namespace)
    ensures var q := Step(env, p, e).value;
            q.expectedSeq == p.expectedSeq + 1 && q.expectedPrev == e.digest
            && q.namespace == Some(e.namespace) && q.seen == p.seen + {e.digest}
  {
  }

  /** The first step of a run, and where the rest of the run starts. */
  lemma FirstStep(env: Integrity, p: Progress, events: seq<Event>) returns (q: Progress)
    requires events != [] && Run(env, p, events).Ok?
    ensures Run(env, q, events[1..]) == Run(env, p, events)
    ensures events[0].seqNo == p.expectedSeq && events[0].prevDigest == p.expectedPrev && env.digestValid(events[0])
    ensures p.namespace.Some? ==> p.namespace == Some(events[0].namespace)
    ensures q.expectedSeq == p.expectedSeq + 1 && q.expectedPrev == events[0].digest
    ensures q.namespace == Some(events[0].namespace) && q.seen == p.seen + {events[0].digest}
  {
    StepLinks(env, p, events[0]);
    q := Step(env, p, events[0]).value;
  }

  /** The running variables at the end of a run. */
  lemma {:induction false} RunTrail(env: Integrity, p: Progress, events: seq<Event>)
    requires Run(env, p, events).Ok?
    ensures p.namespace.Some? && events != [] ==> p.namespace == Some(events[0].namespace)
    ensures var q := Run(env, p, events).value;
            && q.expectedSeq == p.expectedSeq + |events|
            && q.seen == p.seen + DigestsOf(events)
            && (events != [] ==>
                  q.expectedPrev == events[|events| - 1].digest && q.namespace == Some(events[0].namespace))
    decreases |events|
  {
    if events != [] {
      var q := FirstStep(env, p, events);
      RunTrail(env, q, events[1..]);
      DigestsOfCons(events);
    }
  }

  lemma LinkHolds(env: Integrity, p: Progress, events: seq<Event>, i: nat)
    requires Run(env, p, events).Ok? && i < |events|
    ensures LinkedAt(env, events, p.expectedSeq, p.expectedPrev, i)
  {
    RunSplit(env, p, events, i);
    var q := Run(env, p, events[..i]).value;
    RunTrail(env, p, events[..i]);
    var _ := FirstStep(env, q, events[i..]);
    assert events[i..][0] == events[i];
    assert i > 0 ==> events[..i][i - 1] == events[i - 1] && events[..i][0] == events[0];
  }

  lemma RunLinks(env: Integrity, p: Progress, events: seq<Event>)
    requires Run(env, p, events).Ok?
    ensures Linked(env, events, p.expectedSeq, p.expectedPrev)
    ensures p.namespace.Some? && events != [] ==> p.namespace == Some(events[0].namespace)
    ensures var q := Run(env, p, events).value;
            && q.expectedSeq == p.expectedSeq + |events|
            && q.seen == p.seen + DigestsOf(events)
            && (events != [] ==>
                  q.expectedPrev == events[|events| - 1].digest && q.namespace == Some(events[0].namespace))
  {
    RunTrail(env, p, events);
    forall i | 0 <= i < |events| ensures LinkedAt(env, events, p.expectedSeq, p.expectedPrev, i) {
      LinkHolds(env, p, events, i);
    }
  }

  lemma DigestsOfCons(events: seq<Event>)
    requires events != []
    ensures DigestsOf(events) == {events[0].digest} + DigestsOf(events[1..])
  {
    forall d ensures d in DigestsOf(events) <==> d in {events[0].digest} + DigestsOf(events[1..]) {
      if d in DigestsOf(events) {
        var i :| 0 <= i < |events| && events[i].digest == d;
        assert i > 0 ==> events[1..][i - 1].digest == d;
      }
      if d in DigestsOf(events[1..]) {
        var i :| 0 <= i < |events| - 1 && events[1..][i].digest == d;
        assert events[i + 1].digest == d;
      }
    }
  }

  // ---------------------------------------------------------------------------
  // Distinct digests.
  // ---------------------------------------------------------------------------

  predicate DistinctDigests(events: seq<Event>) {
    forall i, j :: 0 <= i < j < |events| ==> events[i].digest != events[j].digest
  }

  /** No two events in play hash to one digest unless their digest inputs are equal. */
  ghost predicate NoCollisions(sha: Hash, events: seq<Event>) {
    forall i, j {:trigger NoCollision(sha, events[i], events[j])} ::
      0 <= i < |events| && 0 <= j < |events| ==> NoCollision(sha, events[i], events[j])
  }

  predicate AllWellFormed(events: seq<Event>) {
    forall i :: 0 <= i < |events| ==> WellFormedEvent(events[i])
  }

  /** The digest covers the sequence number, so events of one log never share a digest. */
  lemma LinkedDistinct(sha: Hash, events: seq<Event>, firstSeq: nat, firstPrev: string)
    requires Linked(ShaIntegrity(sha), events, firstSeq, firstPrev)
    requires AllWellFormed(events) && NoCollisions(sha, events)
    ensures DistinctDigests(events)
  {
    forall i, j | 0 <= i < j < |events| ensures events[i].digest != events[j].digest {
      if events[i].digest == events[j].digest {
        assert NoCollision(sha, events[i], events[j]);
        assert LinkedAt(ShaIntegrity(sha), events, firstSeq, firstPrev, i);
        assert LinkedAt(ShaIntegrity(sha), events, firstSeq, firstPrev, j);
        PairDistinct(sha, events[i], events[j]);
      }
    }
  }

  lemma PairDistinct(sha: Hash, a: Event, b: Event)
    requires WellFormedEvent(a) && WellFormedEvent(b) && NoCollision(sha, a, b)
    requires ShaIntegrity(sha).digestValid(a) && ShaIntegrity(sha).digestValid(b)
    requires a.digest == b.digest
    ensures a.seqNo == b.seqNo
  {
    DigestCommits(sha, a, b);
  }

  /** Digests that validate, and root digests, decode to 32 bytes and encode back. */
  ghost predicate HexIntegrity(env: Integrity) {
    && (forall e: Event :: env.digestValid(e) ==>
          DecodeDigest(e.digest).Some? && Hex.Encode(DecodeDigest(e.digest).value) == e.digest)
    && (forall m: State :: env.rootOf(m).Ok? ==>
          DecodeDigest(env.rootOf(m).value).Some?
          && Hex.Encode(DecodeDigest(env.rootOf(m).value).value) == env.rootOf(m).value)
  }

  lemma ShaIsHex(sha: Hash)
    ensures HexIntegrity(ShaIntegrity(sha))
  {
    var env := ShaIntegrity(sha);
    forall e: Event | env.digestValid(e)
      ensures DecodeDigest(e.digest).Some? && Hex.Encode(DecodeDigest(e.digest).value) == e.digest
    {
      ValidDigestDecodes(sha, e);
    }
    forall m: State | env.rootOf(m).Ok?
      ensures DecodeDigest(env.rootOf(m).value).Some?
      ensures Hex.Encode(DecodeDigest(env.rootOf(m).value).value) == env.rootOf(m).value
    {
      RootIsHex(sha, m);
    }
  }

  lemma RootIsHex(sha: Hash, m: State)
    requires RootDigestHex(sha, m).Ok?
    ensures ToBinary(m).Ok? && RootDigestHex(sha, m).value == Hex.Encode(sha(ToBinary(m).value))
    ensures DecodeDigest(RootDigestHex(sha, m).value) == Some(sha(ToBinary(m).value))
  {
    DecodeHexDigest(sha(ToBinary(m).value));
  }
}
