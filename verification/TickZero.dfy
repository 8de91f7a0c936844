/** A log on which the checkpoint shortcut and full replay disagree. src/replay.rs. */
module TickZero {
  import opened Prelude
  import opened Digests
  import opened Events
  import opened Replay
  import opened ReplayFacts
  import opened Snapshots
  import opened Specimens
  import opened StateMap
  import Checkpoints

  /** How replay takes such an event on the empty state. */
  lemma DraftStep(env: Integrity, p: Progress, e: Event, timestampMs: Option<u64>, root: string)
    requires e == Draft(e.seqNo, e.tick, timestampMs, root, e.prevDigest, None).(digest := e.digest)
    requires env.digestValid(e) && env.rootOf(p.state) == Ok(root) && e.digest !in p.seen
    requires p.namespace == Some(NAMESPACE) && e.seqNo == p.expectedSeq && e.prevDigest == p.expectedPrev
    requires timestampMs.Some? && p.lastSealMs.Some? ==> p.lastSealMs.value <= timestampMs.value
    requires e.tick == 0 || p.maxTick <= e.tick
    ensures Step(env, p, e).Ok?
    ensures var q := Step(env, p, e).value;
            && q.state == p.state && q.expectedSeq == p.expectedSeq + 1 && q.expectedPrev == e.digest
            && q.seen == p.seen + {e.digest} && q.namespace == p.namespace
            && q.maxTick == (if e.tick == 0 then p.maxTick else e.tick)
            && q.lastSealMs == (if timestampMs.Some? then timestampMs else p.lastSealMs)
  {
  }

  function ThreeEvents(sha: Hash, root: string): seq<Event> {
    var first := Finished(sha, 0, 5, None, root, ZERO_DIGEST_HEX, None);
    var seal := Finished(sha, 1, 0, Some(0), root, first.digest, None);
    var last := Finished(sha, 2, 3, None, root, seal.digest, None);
    [first, seal, last]
  }

  lemma EmptyStateRoot(sha: Hash) returns (root: string)
    ensures RootDigestHex(sha, map[]) == Ok(root) && DecodeDigest(root).Some?
  {
    var m: State := map[];
    assert ToBinary(m).Ok?;
    RootIsHex(sha, m);
    root := RootDigestHex(sha, m).value;
  }

  /** Events of the shape of `ThreeEvents`, whatever computes their digests. */
  predicate ThreeShape(env: Integrity, root: string, log: seq<Event>) {
    && |log| == 3
    && log[0] == Draft(0, 5, None, root, ZERO_DIGEST_HEX, None).(digest := log[0].digest)
    && log[1] == Draft(1, 0, Some(0), root, log[0].digest, None).(digest := log[1].digest)
    && log[2] == Draft(2, 3, None, root, log[1].digest, None).(digest := log[2].digest)
    && env.digestValid(log[0]) && env.digestValid(log[1]) && env.digestValid(log[2])
  }

  lemma ThreeHasShape(sha: Hash, root: string)
    ensures ThreeShape(ShaIntegrity(sha), root, ThreeEvents(sha, root))
  {
    var log := ThreeEvents(sha, root);
    FinishedFacts(sha, 0, 5, None, root, ZERO_DIGEST_HEX, None);
    FinishedFacts(sha, 1, 0, Some(0), root, log[0].digest, None);
    FinishedFacts(sha, 2, 3, None, root, log[1].digest, None);
  }

  lemma ThreeLinked(env: Integrity, root: string, log: seq<Event>)
    requires ThreeShape(env, root, log)
    ensures Linked(env, log, 0, ZERO_DIGEST_HEX) && AllWellFormed(log)
  {
  }

  lemma PrefixRuns(env: Integrity, root: string, log: seq<Event>)
    requires ThreeShape(env, root, log) && env.rootOf(map[]) == Ok(root) && log[0].digest != log[1].digest
    ensures Run(env, Start(log[..2], None), log[..2]).Ok?
    ensures Run(env, Start(log[..2], None), log[..2]).value.state == map[]
  {
    var p := Start(log[..2], None);
    assert log[..2] == [log[0]] + [log[1]];
    DraftStep(env, p, log[0], None, root);
    var q := Step(env, p, log[0]).value;
    DraftStep(env, q, log[1], Some(0), root);
    RunOne(env, p, log[0]);
    RunOne(env, q, log[1]);
    RunAppend(env, p, [log[0]], [log[1]]);
  }

  lemma TailRuns(env: Integrity, root: string, log: seq<Event>, s: Snapshot)
    requires ThreeShape(env, root, log) && env.rootOf(map[]) == Ok(root) && HexIntegrity(env)
    requires BuildSnapshot(log[1], root, map[]) == Ok(s)
    ensures Run(env, Start(log[2..], Some(s)), log[2..]).Ok?
  {
    assert log[2..] == [log[2]];
    assert env.digestValid(log[1]);
    DraftStep(env, Start([log[2]], Some(s)), log[2], None, root);
    RunOne(env, Start([log[2]], Some(s)), log[2]);
  }

  lemma ShortcutAccepts(env: Integrity, root: string, log: seq<Event>)
    requires ThreeShape(env, root, log) && env.rootOf(map[]) == Ok(root) && DecodeDigest(root).Some?
    requires log[0].digest != log[1].digest && HexIntegrity(env)
    ensures VerifyAt(env, log, 1, root, None).Ok?
  {
    PrefixRuns(env, root, log);
    assert env.digestValid(log[1]);
    TailRuns(env, root, log, BuildSnapshot(log[1], root, map[]).value);
  }

  lemma ThreeSeals(env: Integrity, root: string, log: seq<Event>)
    requires ThreeShape(env, root, log)
    ensures SealsOf(log, root, 0) == [1]
  {
    assert log[1..][1..][1..] == [];
    assert log[1..][0] == log[1] && log[1..][1..][0] == log[2];
    assert SealsOf(log[1..][1..], root, 2) == [];
    assert SealsOf(log[1..], root, 1) == [1];
  }

  lemma TicksDoNotFit(log: seq<Event>)
    requires |log| == 3 && log[0].tick == 5 && log[1].tick == 0 && log[2].tick == 3
    ensures !Checkpoints.TickFits(Checkpoints.LargestTick(log[..2]), log[2..])
  {
    Checkpoints.LargestTickBounds(log[..2], 0);
    assert log[2..][0] == log[2];
  }

  lemma TheyDisagree(env: Integrity, root: string, log: seq<Event>)
    requires ThreeShape(env, root, log) && env.rootOf(map[]) == Ok(root) && DecodeDigest(root).Some?
    requires DistinctDigests(log) && HexIntegrity(env)
    ensures VerifyEvents(env, log, Some(root), None).Ok? && VerifyEvents(env, log, None, None).Err?
  {
    ThreeSeals(env, root, log);
    ShortcutAccepts(env, root, log);
    Checkpoints.OneSeal(env, log, root, 1, None);
    Checkpoints.CheckpointIffFullAt(env, log, 1, root);
    TicksDoNotFit(log);
  }

  /** The two verifications can disagree: a seal at tick 0 between ticks 5 and 3 lets the
      shortcut accept a log that full replay rejects. */
  lemma ShortcutMissesTickRegression(sha: Hash) returns (log: seq<Event>, root: string)
    ensures AllWellFormed(log) && SealsOf(log, root, 0) == [1]
    ensures NoCollisions(sha, log) ==>
              && VerifyEvents(ShaIntegrity(sha), log, Some(root), None).Ok?
              && VerifyEvents(ShaIntegrity(sha), log, None, None).Err?
  {
    root := EmptyStateRoot(sha);
    log := ThreeEvents(sha, root);
    ThreeHasShape(sha, root);
    ThreeLinked(ShaIntegrity(sha), root, log);
    ThreeSeals(ShaIntegrity(sha), root, log);
    if NoCollisions(sha, log) {
      LinkedDistinct(sha, log, 0, ZERO_DIGEST_HEX);
      ShaIsHex(sha);
      TheyDisagree(ShaIntegrity(sha), root, log);
    }
  }
}
