/** Resuming from a TICK_SEAL against replaying everything. */
module Checkpoints {
  import opened Prelude
  import opened Digests
  import opened Events
  import opened Replay
  import opened ReplayFacts
  import opened Snapshots
  import opened StateMap
  import Codec
  import Hex

  function Max(a: u64, b: u64): u64 {
    if a < b then b else a
  }

  /** The largest tick among events. */
  function LargestTick(events: seq<Event>): u64 {
    if events == [] then 0 else Max(events[0].tick, LargestTick(events[1..]))
  }

  /** The first event with a nonzero tick, if any, does not go below `max`. */
  predicate TickFits(max: u64, events: seq<Event>) {
    events != [] ==>
      if events[0].tick == 0 then TickFits(max, events[1..]) else max <= events[0].tick
  }

  predicate Fresh(seen: set<string>, events: seq<Event>) {
    DistinctDigests(events) && forall i :: 0 <= i < |events| ==> events[i].digest !in seen
  }

  // ---------------------------------------------------------------------------
  // A resumed run in step with the full one.
  // ---------------------------------------------------------------------------

  /** `q` remembers no more digests and no larger tick than `p`, and is otherwise like it. */
  predicate Resumes(p: Progress, q: Progress) {
    && p.state == q.state && p.expectedSeq == q.expectedSeq && p.expectedPrev == q.expectedPrev
    && p.namespace == q.namespace && p.lastSealMs == q.lastSealMs
    && q.maxTick <= p.maxTick && q.seen <= p.seen
  }

  lemma ResumeStep(env: Integrity, p: Progress, q: Progress, e: Event)
    requires Resumes(p, q) && e.digest !in p.seen
    ensures Step(env, p, e).Ok? ==>
              && (e.tick != 0 ==> p.maxTick <= e.tick) && Step(env, q, e).Ok?
    ensures Step(env, q, e).Ok? && (e.tick != 0 ==> p.maxTick <= e.tick) ==>
              && Step(env, p, e).Ok? && Resumes(Step(env, p, e).value, Step(env, q, e).value)
              && (if e.tick == 0 then
                    Step(env, p, e).value.maxTick == p.maxTick && Step(env, q, e).value.maxTick == q.maxTick
                  else Step(env, p, e).value.maxTick == e.tick == Step(env, q, e).value.maxTick)
              && Step(env, p, e).value.seen == p.seen + {e.digest}
  {
    assert CheckLink(env, p, e) == CheckLink(env, q, e);
  }

  lemma FreshTail(seen: set<string>, events: seq<Event>)
    requires Fresh(seen, events) && events != []
    ensures events[0].digest !in seen && Fresh(seen + {events[0].digest}, events[1..])
  {
  }

  /** A run that succeeds never meets a tick below the one it remembers. */
  lemma {:induction false} RunTickFits(env: Integrity, p: Progress, events: seq<Event>)
    requires Fresh(p.seen, events) && Run(env, p, events).Ok?
    ensures TickFits(p.maxTick, events)
    decreases |events|
  {
    if events != [] {
      FreshTail(p.seen, events);
      ResumeStep(env, p, p, events[0]);
      RunTickFits(env, Step(env, p, events[0]).value, events[1..]);
    }
  }

  /** The full run goes on exactly when the resumed run does and the first tick of the
      remaining events is not below the full run's maximum; then they end in one state. */
  lemma {:induction false} ResumeRun(env: Integrity, p: Progress, q: Progress, events: seq<Event>)
    requires Resumes(p, q) && Fresh(p.seen, events)
    ensures Run(env, p, events).Ok? <==> Run(env, q, events).Ok? && TickFits(p.maxTick, events)
    ensures Run(env, p, events).Ok? ==> Run(env, p, events).value.state == Run(env, q, events).value.state
    decreases |events|
  {
    if events != [] {
      var e, rest := events[0], events[1..];
      FreshTail(p.seen, events);
      ResumeStep(env, p, q, e);
      if Step(env, q, e).Ok? && (e.tick != 0 ==> p.maxTick <= e.tick) {
        var p', q' := Step(env, p, e).value, Step(env, q, e).value;
        ResumeRun(env, p', q', rest);
        if e.tick != 0 && Run(env, q', rest).Ok? {
          assert q'.seen <= p'.seen && Fresh(q'.seen, rest);
          RunTickFits(env, q', rest);
        }
      }
    }
  }

  lemma StepTick(env: Integrity, p: Progress, e: Event)
    requires Step(env, p, e).Ok? && e.digest !in p.seen
    ensures Step(env, p, e).value.maxTick == Max(p.maxTick, e.tick)
    ensures Step(env, p, e).value.seen == p.seen + {e.digest}
  {
  }

  /** What the run remembers of ticks is the largest it has seen. */
  lemma {:induction false} RunLargestTick(env: Integrity, p: Progress, events: seq<Event>)
    requires Fresh(p.seen, events) && Run(env, p, events).Ok?
    ensures Run(env, p, events).value.maxTick == Max(p.maxTick, LargestTick(events))
    decreases |events|
  {
    if events != [] {
      FreshTail(p.seen, events);
      StepTick(env, p, events[0]);
      RunLargestTick(env, Step(env, p, events[0]).value, events[1..]);
    }
  }

  // ---------------------------------------------------------------------------
  // What replaying the prefix leaves behind at its seal.
  // ---------------------------------------------------------------------------

  /** A seal is never idempotent, so one that replay accepts is no repeated event. */
  lemma SealStep(env: Integrity, q: Progress, seal: Event, root: string)
    requires Seals(seal, root) && Step(env, q, seal).Ok?
    ensures seal.timestampMs.Some? && env.rootOf(q.state) == Ok(root) && env.digestValid(seal)
    ensures var p := Step(env, q, seal).value;
            p.state == q.state && p.lastSealMs == seal.timestampMs && seal.tick <= p.maxTick
  {
  }

  lemma DistinctPrefix(events: seq<Event>, i: nat)
    requires DistinctDigests(events) && i <= |events|
    ensures DistinctDigests(events[..i]) && DistinctDigests(events[i..])
    ensures Fresh(DigestsOf(events[..i]), events[i..])
  {
  }

  lemma PrefixAtSeal(env: Integrity, events: seq<Event>, c: nat, root: string, p: Progress)
    requires c < |events| && Seals(events[c], root) && HexIntegrity(env)
    requires Run(env, Start(events, None), events[..c + 1]) == Ok(p)
    ensures env.digestValid(events[c]) && env.rootOf(p.state) == Ok(root)
    ensures p.seen == DigestsOf(events[..c + 1])
    ensures BuildSnapshot(events[c], root, p.state).Ok?
    ensures var s := BuildSnapshot(events[c], root, p.state).value;
            s.state == p.state && Resumes(p, Start(events[c + 1..], Some(s)))
  {
    var start, prefix, seal := Start(events, None), events[..c + 1], events[c];
    RunSplit(env, start, prefix, c);
    assert prefix[c..] == [seal];
    var q := Run(env, start, prefix[..c]).value;
    RunOne(env, q, seal);
    RunLinks(env, start, prefix);
    SealStep(env, q, seal, root);
  }

  // ---------------------------------------------------------------------------
  // Main results.
  // ---------------------------------------------------------------------------

  lemma StartOfPrefix(events: seq<Event>, n: nat)
    requires 0 < n <= |events|
    ensures Start(events[..n], None) == Start(events, None)
  {
  }

  lemma BothFail(env: Integrity, events: seq<Event>, c: nat, root: string)
    requires c < |events| && Run(env, Start(events, None), events[..c + 1]).Err?
    ensures ReplayWithSnapshot(env, events, None).Err? && VerifyAt(env, events, c, root, None).Err?
  {
    StartOfPrefix(events, c + 1);
    RunSplit(env, Start(events, None), events, c + 1);
  }

  lemma ReplayOfPrefix(env: Integrity, events: seq<Event>, n: nat, p: Progress)
    requires 0 < n <= |events| && Run(env, Start(events, None), events[..n]) == Ok(p)
    ensures ReplayWithSnapshot(env, events[..n], None) == Ok(ReplayOutcome(p.state, p.warnings))
  {
    StartOfPrefix(events, n);
    assert events[..n][0] == events[0];
  }

  lemma CheckRebuilt(env: Integrity, events: seq<Event>, c: nat, root: string, r: ReplayOutcome, s: Snapshot)
    requires c < |events| && ReplayWithSnapshot(env, events[..c + 1], None) == Ok(r)
    requires BuildSnapshot(events[c], root, r.state) == Ok(s)
    ensures VerifyAt(env, events, c, root, None) == VerifyFrom(env, events, c, root, s)
  {
  }

  lemma CheckFromSeal(env: Integrity, events: seq<Event>, c: nat, root: string, p: Progress) returns (s: Snapshot)
    requires c < |events| && Seals(events[c], root) && HexIntegrity(env)
    requires Run(env, Start(events, None), events[..c + 1]) == Ok(p)
    ensures BuildSnapshot(events[c], root, p.state) == Ok(s)
    ensures VerifyAt(env, events, c, root, None) == VerifyFrom(env, events, c, root, s)
  {
    ReplayOfPrefix(env, events, c + 1, p);
    PrefixAtSeal(env, events, c, root, p);
    s := BuildSnapshot(events[c], root, p.state).value;
    CheckRebuilt(env, events, c, root, ReplayOutcome(p.state, p.warnings), s);
  }

  /** Checkpointed verification, with the snapshot rebuilt, against full replay. */
  lemma {:induction false} CheckpointIffFullAt(env: Integrity, events: seq<Event>, c: nat, root: string)
    requires c < |events| && Seals(events[c], root) && DistinctDigests(events) && HexIntegrity(env)
    ensures var full, check := ReplayWithSnapshot(env, events, None), VerifyAt(env, events, c, root, None);
            (full.Ok? <==> check.Ok? && TickFits(LargestTick(events[..c + 1]), events[c + 1..]))
            && (full.Ok? ==> check.value.state == full.value.state)
  {
    var start, prefix, tail := Start(events, None), events[..c + 1], events[c + 1..];
    if Run(env, start, prefix).Err? {
      BothFail(env, events, c, root);
    } else {
      var p := Run(env, start, prefix).value;
      var s := CheckFromSeal(env, events, c, root, p);
      RunSplit(env, start, events, c + 1);
      PrefixAtSeal(env, events, c, root, p);
      DistinctPrefix(events, c + 1);
      RunLargestTick(env, start, prefix);
      ResumeRun(env, p, Start(tail, Some(s)), tail);
    }
  }

  lemma RebuiltLinked(env: Integrity, events: seq<Event>, c: nat, root: string)
    requires c < |events| && RebuildSnapshot(env, events, c, root).Ok?
    ensures Linked(env, events[..c + 1], 0, ZERO_DIGEST_HEX)
    ensures Run(env, Start(events, None), events[..c + 1]).Ok?
    ensures var s := RebuildSnapshot(env, events, c, root).value;
            s.sealSeq == c && s.namespace == events[c].namespace
            && (HexIntegrity(env) ==> Hex.Encode(s.sealDigest) == events[c].digest)
  {
    StartOfPrefix(events, c + 1);
    RunLinks(env, Start(events, None), events[..c + 1]);
    assert events[..c + 1][c] == events[c];
    assert LinkedAt(env, events[..c + 1], 0, ZERO_DIGEST_HEX, c);
  }

  /** Checkpointed verification, too, goes through every event of the log in its place. */
  lemma CheckedLinked(env: Integrity, events: seq<Event>, c: nat, root: string)
    requires c < |events| && HexIntegrity(env) && VerifyAt(env, events, c, root, None).Ok?
    ensures Linked(env, events, 0, ZERO_DIGEST_HEX)
  {
    RebuiltLinked(env, events, c, root);
    TailLinked(env, events, c, RebuildSnapshot(env, events, c, root).value);
  }

  lemma ResumedLinks(env: Integrity, s: Snapshot, tail: seq<Event>)
    requires Run(env, Start(tail, Some(s)), tail).Ok?
    ensures Linked(env, tail, s.sealSeq + 1, Hex.Encode(s.sealDigest))
    ensures tail != [] ==> tail[0].namespace == s.namespace
  {
    RunLinks(env, Start(tail, Some(s)), tail);
  }

  lemma TailLinked(env: Integrity, events: seq<Event>, c: nat, s: Snapshot)
    requires c < |events| && Linked(env, events[..c + 1], 0, ZERO_DIGEST_HEX)
    requires s.sealSeq == c && s.namespace == events[c].namespace && Hex.Encode(s.sealDigest) == events[c].digest
    requires Run(env, Start(events[c + 1..], Some(s)), events[c + 1..]).Ok?
    ensures Linked(env, events, 0, ZERO_DIGEST_HEX)
  {
    ResumedLinks(env, s, events[c + 1..]);
    LastOfPrefix(env, events, c, ZERO_DIGEST_HEX);
    LinkedSplit(env, events, c + 1, ZERO_DIGEST_HEX);
  }

  lemma LinkedSplit(env: Integrity, events: seq<Event>, n: nat, first: string)
    requires 0 < n <= |events| && Linked(env, events[..n], 0, first)
    requires Linked(env, events[n..], n, events[n - 1].digest)
    requires n < |events| ==> events[n..][0].namespace == events[..n][0].namespace
    ensures Linked(env, events, 0, first)
  {
    assert events[..n][n - 1] == events[n - 1];
    LinkedAppend(env, events[..n], events[n..], first);
    assert events[..n] + events[n..] == events;
  }

  lemma LastOfPrefix(env: Integrity, events: seq<Event>, c: nat, first: string)
    requires c < |events| && Linked(env, events[..c + 1], 0, first)
    ensures events[..c + 1][c] == events[c] && events[c].namespace == events[..c + 1][0].namespace
  {
    assert LinkedAt(env, events[..c + 1], 0, first, c);
  }

  lemma CheckpointDistinct(sha: Hash, events: seq<Event>, c: nat, root: string)
    requires c < |events| && AllWellFormed(events) && NoCollisions(sha, events)
    requires ReplayWithSnapshot(ShaIntegrity(sha), events, None).Ok?
             || VerifyAt(ShaIntegrity(sha), events, c, root, None).Ok?
    ensures DistinctDigests(events)
  {
    var env := ShaIntegrity(sha);
    if ReplayWithSnapshot(env, events, None).Ok? {
      RunLinks(env, Start(events, None), events);
    } else {
      ShaIsHex(sha);
      CheckedLinked(env, events, c, root);
    }
    LinkedDistinct(sha, events, 0, ZERO_DIGEST_HEX);
  }

  lemma LinkedInFirst(env: Integrity, a: seq<Event>, b: seq<Event>, first: string, i: nat)
    requires Linked(env, a, 0, first) && i < |a|
    ensures LinkedAt(env, a + b, 0, first, i)
  {
    assert LinkedAt(env, a, 0, first, i);
    assert (a + b)[i] == a[i] && (a + b)[0] == a[0];
    assert i > 0 ==> (a + b)[i - 1] == a[i - 1];
  }

  lemma LinkedInSecond(env: Integrity, a: seq<Event>, b: seq<Event>, first: string, i: nat)
    requires a != [] && Linked(env, b, |a|, a[|a| - 1].digest) && |a| <= i < |a + b|
    requires b[0].namespace == a[0].namespace
    ensures LinkedAt(env, a + b, 0, first, i)
  {
    var k := i - |a|;
    assert LinkedAt(env, b, |a|, a[|a| - 1].digest, k);
    assert (a + b)[i] == b[k] && (a + b)[0] == a[0];
    assert (a + b)[i - 1] == if k > 0 then b[k - 1] else a[|a| - 1];
  }

  lemma LinkedAppend(env: Integrity, a: seq<Event>, b: seq<Event>, first: string)
    requires a != [] && Linked(env, a, 0, first)
    requires Linked(env, b, |a|, a[|a| - 1].digest)
    requires b != [] ==> b[0].namespace == a[0].namespace
    ensures Linked(env, a + b, 0, first)
  {
    forall i | 0 <= i < |a + b| ensures LinkedAt(env, a + b, 0, first, i) {
      if i < |a| {
        LinkedInFirst(env, a, b, first, i);
      } else {
        LinkedInSecond(env, a, b, first, i);
      }
    }
  }

  /** Checkpoint resume against full replay, for SHA-256 digests that do not collide: full
      verification succeeds exactly when checkpointed verification does and the first
      nonzero tick after the seal is not below the largest tick before it, and then both
      end in the same state. Tick 0 is exempt from the guard, but the snapshot remembers
      only the tick of the seal. */
  lemma CheckpointIffFull(sha: Hash, events: seq<Event>, root: string, c: nat)
    requires SealsOf(events, root, 0) == [c]
    requires AllWellFormed(events) && NoCollisions(sha, events)
    ensures c < |events|
    ensures var env := ShaIntegrity(sha);
            var full := VerifyEvents(env, events, None, None);
            var check := VerifyEvents(env, events, Some(root), None);
            (full.Ok? <==> check.Ok? && TickFits(LargestTick(events[..c + 1]), events[c + 1..]))
            && (full.Ok? ==> check.value.state == full.value.state)
  {
    var env := ShaIntegrity(sha);
    OneSeal(env, events, root, c, None);
    if ReplayWithSnapshot(env, events, None).Ok? || VerifyAt(env, events, c, root, None).Ok? {
      CheckpointDistinct(sha, events, c, root);
      ShaIsHex(sha);
      CheckpointIffFullAt(env, events, c, root);
    }
  }

  lemma VerifiesAtSeal(env: Integrity, events: seq<Event>, root: string, c: nat, cached: Option<Snapshot>)
    requires SealsOf(events, root, 0) == [c] && c < |events|
    ensures VerifyEvents(env, events, Some(root), cached) == VerifyAt(env, events, c, root, cached)
  {
    assert SealsOf(events, root, 0)[0] == c;
  }

  lemma VerifiesByReplay(env: Integrity, events: seq<Event>)
    ensures VerifyEvents(env, events, None, None).Ok? <==> ReplayWithSnapshot(env, events, None).Ok?
    ensures VerifyEvents(env, events, None, None).Ok? ==>
              VerifyEvents(env, events, None, None).value.state == ReplayWithSnapshot(env, events, None).value.state
  {
  }

  /** With one seal for the root, verification works at that seal. */
  lemma OneSeal(env: Integrity, events: seq<Event>, root: string, c: nat, cached: Option<Snapshot>)
    requires SealsOf(events, root, 0) == [c]
    ensures c < |events| && Seals(events[c], root)
    ensures VerifyEvents(env, events, Some(root), cached) == VerifyAt(env, events, c, root, cached)
    ensures VerifyEvents(env, events, None, None).Ok? <==> ReplayWithSnapshot(env, events, None).Ok?
    ensures VerifyEvents(env, events, None, None).Ok? ==>
              VerifyEvents(env, events, None, None).value.state == ReplayWithSnapshot(env, events, None).value.state
  {
    SealsOfInRange(events, root, 0);
    assert SealsOf(events, root, 0)[0] == c;
    VerifiesAtSeal(env, events, root, c, cached);
    VerifiesByReplay(env, events);
  }

  lemma {:induction false} LargestTickBounds(events: seq<Event>, i: nat)
    requires i < |events|
    ensures events[i].tick <= LargestTick(events)
  {
    if i > 0 {
      LargestTickBounds(events[1..], i - 1);
    }
  }

  /** When the seal carries the largest tick so far, the shortcut decides nothing differently. */
  lemma CheckpointAgreesAtLargestTick(sha: Hash, events: seq<Event>, root: string, c: nat)
    requires SealsOf(events, root, 0) == [c]
    requires AllWellFormed(events) && NoCollisions(sha, events)
    requires c < |events| && events[c].tick == LargestTick(events[..c + 1])
    ensures var env := ShaIntegrity(sha);
            VerifyEvents(env, events, None, None).Ok? <==> VerifyEvents(env, events, Some(root), None).Ok?
  {
    CheckpointIffFull(sha, events, root, c);
    var env := ShaIntegrity(sha);
    OneSeal(env, events, root, c, None);
    if VerifyAt(env, events, c, root, None).Ok? {
      CheckpointDistinct(sha, events, c, root);
      CheckedTickFits(env, events, c, root);
    }
  }

  lemma CheckedTickFits(env: Integrity, events: seq<Event>, c: nat, root: string)
    requires c < |events| && DistinctDigests(events) && VerifyAt(env, events, c, root, None).Ok?
    ensures TickFits(events[c].tick, events[c + 1..])
  {
    DistinctPrefix(events, c + 1);
    var s := RebuildSnapshot(env, events, c, root).value;
    RunTickFits(env, Start(events[c + 1..], Some(s)), events[c + 1..]);
  }

  // ---------------------------------------------------------------------------
  // Cached snapshots.
  // ---------------------------------------------------------------------------

  /** A cached snapshot that matches the checkpoint is the rebuilt one, field by field:
      its state hashes to the same root, and encoding is injective. */
  lemma MatchingSnapshotIsRebuilt(sha: Hash, events: seq<Event>, c: nat, root: string, bytes: Bytes)
    requires c < |events| && Seals(events[c], root)
    requires RebuildSnapshot(ShaIntegrity(sha), events, c, root).Ok?
    requires SnapshotFromBinary(sha, bytes).Ok?
    requires SnapshotMatches(SnapshotFromBinary(sha, bytes).value, events[c], root)
    requires var rebuilt := RebuildSnapshot(ShaIntegrity(sha), events, c, root).value;
             Codec.Fits(rebuilt.state)
             && RootCollisionFree(sha, SnapshotFromBinary(sha, bytes).value.state, rebuilt.state)
    ensures RebuildSnapshot(ShaIntegrity(sha), events, c, root) == Ok(SnapshotFromBinary(sha, bytes).value)
  {
    var env := ShaIntegrity(sha);
    var cached := SnapshotFromBinary(sha, bytes).value;
    var rebuilt := RebuildSnapshot(env, events, c, root).value;
    StartOfPrefix(events, c + 1);
    var p := Run(env, Start(events, None), events[..c + 1]).value;
    ShaIsHex(sha);
    PrefixAtSeal(env, events, c, root, p);
    RootIsHex(sha, rebuilt.state);
    DecodedSnapshot(sha, bytes);
    DecodeHexDigest(cached.rootDigest);
    DecodeHexDigest(cached.sealDigest);
    SameRootSameState(sha, cached.state, rebuilt.state);
  }

  predicate RootCollisionFree(sha: Hash, a: State, b: State) {
    ToBinary(a).Ok? && ToBinary(b).Ok? && sha(ToBinary(a).value) == sha(ToBinary(b).value) ==>
      ToBinary(a) == ToBinary(b)
  }

  lemma SameRootSameState(sha: Hash, a: State, b: State)
    requires Codec.Encodable(a) && Codec.Encodable(b) && RootCollisionFree(sha, a, b)
    requires sha(ToBinary(a).value) == sha(ToBinary(b).value)
    ensures a == b
  {
    Codec.EncodeInjective(a, b);
  }

  /** Cache transparency: once rebuilding from genesis succeeds, any snapshot the decoder
      accepted, matching or not, leaves the outcome of verification unchanged. */
  lemma CacheTransparent(sha: Hash, events: seq<Event>, c: nat, root: string, bytes: Bytes)
    requires SealsOf(events, root, 0) == [c] && c < |events|
    requires RebuildSnapshot(ShaIntegrity(sha), events, c, root).Ok?
    requires SnapshotFromBinary(sha, bytes).Ok?
    requires var rebuilt := RebuildSnapshot(ShaIntegrity(sha), events, c, root).value;
             Codec.Fits(rebuilt.state)
             && RootCollisionFree(sha, SnapshotFromBinary(sha, bytes).value.state, rebuilt.state)
    ensures VerifyEvents(ShaIntegrity(sha), events, Some(root), Some(SnapshotFromBinary(sha, bytes).value))
         == VerifyEvents(ShaIntegrity(sha), events, Some(root), None)
  {
    var env := ShaIntegrity(sha);
    var cached := SnapshotFromBinary(sha, bytes).value;
    OneSeal(env, events, root, c, Some(cached));
    OneSeal(env, events, root, c, None);
    if SnapshotMatches(cached, events[c], root) {
      MatchingSnapshotIsRebuilt(sha, events, c, root, bytes);
    }
    ChoiceDoesNotMatter(env, events, c, root, cached);
  }

  lemma ChoiceDoesNotMatter(env: Integrity, events: seq<Event>, c: nat, root: string, cached: Snapshot)
    requires c < |events|
    requires SnapshotMatches(cached, events[c], root) ==> RebuildSnapshot(env, events, c, root) == Ok(cached)
    ensures VerifyAt(env, events, c, root, Some(cached)) == VerifyAt(env, events, c, root, None)
  {
  }
}
