/** Which checkpoint roots verification accepts: `verify_events_with_snapshot` in
    src/replay.rs, by the positions of the seals. */
module SealedRoots {
  import opened Prelude
  import opened Digests
  import opened Events
  import opened Replay
  import opened ReplayFacts
  import opened Snapshots
  import Checkpoints
  import Hex
  import StateMap

  /** The event at `i` is a TICK_SEAL that carries the root. */
  predicate SealAt(events: seq<Event>, root: string, i: int) {
    0 <= i < |events| && events[i].eventType == TickSeal && events[i].rootDigest == Some(root)
  }

  ghost predicate OnlySeal(events: seq<Event>, root: string, i: int) {
    SealAt(events, root, i) && forall j :: SealAt(events, root, j) ==> j == i
  }

  /** The positions found are those of the seals. */
  lemma {:induction false} SealsOfIff(events: seq<Event>, root: string, base: nat, n: int)
    ensures n in SealsOf(events, root, base) <==> SealAt(events, root, n - base)
  {
    if events != [] {
      SealsOfIff(events[1..], root, base + 1, n);
      assert SealAt(events, root, n - base) <==>
               (n == base && Seals(events[0], root)) || SealAt(events[1..], root, n - (base + 1));
    }
  }

  lemma {:induction false} SealsOfDistinct(events: seq<Event>, root: string, base: nat, i: nat, j: nat)
    requires i < j < |SealsOf(events, root, base)|
    ensures SealsOf(events, root, base)[i] != SealsOf(events, root, base)[j]
  {
    var rest := SealsOf(events[1..], root, base + 1);
    if !Seals(events[0], root) {
      SealsOfDistinct(events[1..], root, base + 1, i, j);
    } else if i > 0 {
      SealsOfDistinct(events[1..], root, base + 1, i - 1, j - 1);
    } else {
      SealsOfIff(events[1..], root, base + 1, rest[j - 1]);
    }
  }

  lemma NoneFound(events: seq<Event>, root: string)
    requires forall i :: !SealAt(events, root, i)
    ensures SealsOf(events, root, 0) == []
  {
    var s := SealsOf(events, root, 0);
    if s != [] {
      SealsOfIff(events, root, 0, s[0]);
    }
  }

  lemma TwoFound(events: seq<Event>, root: string, i: int, j: int)
    requires i < j && SealAt(events, root, i) && SealAt(events, root, j)
    ensures |SealsOf(events, root, 0)| > 1
  {
    var s := SealsOf(events, root, 0);
    SealsOfIff(events, root, 0, i);
    SealsOfIff(events, root, 0, j);
    var a :| 0 <= a < |s| && s[a] == i;
    var b :| 0 <= b < |s| && s[b] == j;
    assert a != b;
  }

  lemma OnlySealFound(events: seq<Event>, root: string, i: nat)
    requires OnlySeal(events, root, i)
    ensures SealsOf(events, root, 0) == [i]
  {
    var s := SealsOf(events, root, 0);
    SealsOfIff(events, root, 0, i);
    forall k | 0 <= k < |s| ensures s[k] == i {
      SealsOfIff(events, root, 0, s[k]);
    }
    if |s| > 1 {
      SealsOfDistinct(events, root, 0, 0, 1);
    }
  }

  lemma FoundOnly(events: seq<Event>, root: string, i: nat)
    requires SealsOf(events, root, 0) == [i]
    ensures OnlySeal(events, root, i)
  {
    forall n ensures n in [i] <==> SealAt(events, root, n) {
      SealsOfIff(events, root, 0, n);
    }
    assert i in [i];
    forall n | SealAt(events, root, n) ensures n == i {
      assert n in [i];
    }
  }

  /** A root that no seal carries is reported as missing. */
  lemma UnsealedRootIsMissing(env: Integrity, events: seq<Event>, root: string, cached: Option<Snapshot>)
    requires forall i :: !SealAt(events, root, i)
    ensures VerifyEvents(env, events, Some(root), cached) == Err(MissingTickSeal)
  {
    NoneFound(events, root);
  }

  /** A root that two seals carry is ambiguous. */
  lemma RootSealedTwiceFails(env: Integrity, events: seq<Event>, root: string, cached: Option<Snapshot>, i: int, j: int)
    requires i < j && SealAt(events, root, i) && SealAt(events, root, j)
    ensures VerifyEvents(env, events, Some(root), cached) == Err(StateMismatch)
  {
    TwoFound(events, root, i, j);
  }

  /** When verification with a root succeeds, exactly one seal carries it, and the outcome
      counts the events after it. */
  lemma VerifiedRootIsSealedOnce(env: Integrity, events: seq<Event>, root: string, cached: Option<Snapshot>)
    returns (i: nat)
    requires VerifyEvents(env, events, Some(root), cached).Ok?
    ensures OnlySeal(events, root, i)
    ensures var r := VerifyEvents(env, events, Some(root), cached).value;
            r.totalEvents == |events| && r.verifiedEvents == Some(|events| - i - 1) && r.checkpointRoot == Some(root)
  {
    i := SealsOf(events, root, 0)[0];
    FoundOnly(events, root, i);
    Checkpoints.OneSeal(env, events, root, i, cached);
    CountsTail(env, events, i, root, cached);
  }

  lemma CountsTail(env: Integrity, events: seq<Event>, i: nat, root: string, cached: Option<Snapshot>)
    requires i < |events|
    ensures var r := VerifyAt(env, events, i, root, cached);
            r.Ok? ==> r.value.totalEvents == |events| && r.value.verifiedEvents == Some(|events| - i - 1)
                      && r.value.checkpointRoot == Some(root)
  {
  }

  /** With one seal for the root and no cached snapshot, verification fails as the replay of
      the events up to the seal does; if that succeeds, the outcome is that of replaying the
      events after it from the seal, its tick, its timestamp and the state reached there. */
  lemma VerifiesFromSeal(env: Integrity, events: seq<Event>, root: string, i: nat)
    requires OnlySeal(events, root, i) && HexIntegrity(env)
    ensures var r := VerifyEvents(env, events, Some(root), None);
            match ReplayWithSnapshot(env, events[..i + 1], None)
            case Err(v) => r == Err(v)
            case Ok(before) =>
              var seal := events[i];
              && seal.timestampMs.Some? && DecodeDigest(root).Some? && DecodeDigest(seal.digest).Some?
              && var s := Snapshot(seal.namespace, seal.tick, seal.seqNo, seal.timestampMs.value,
                                   DecodeDigest(root).value, DecodeDigest(seal.digest).value, before.state);
                 r == match ReplayWithSnapshot(env, events[i + 1..], Some(s))
                      case Err(v) => Err(v)
                      case Ok(after) =>
                        Ok(VerifyOutcome(after.state, |events|, Some(root), Some(|events| - i - 1)))
  {
    OnlySealFound(events, root, i);
    Checkpoints.OneSeal(env, events, root, i, None);
    if ReplayWithSnapshot(env, events[..i + 1], None).Ok? {
      var m := SnapshotAtSeal(env, events, root, i);
      FromSnapshot(env, events, root, i, BuildSnapshot(events[i], root, m).value);
    } else {
      NoSnapshot(env, events, root, i);
    }
  }

  lemma FromSnapshot(env: Integrity, events: seq<Event>, root: string, i: nat, s: Snapshot)
    requires i < |events| && RebuildSnapshot(env, events, i, root) == Ok(s)
    ensures VerifyAt(env, events, i, root, None)
         == match ReplayWithSnapshot(env, events[i + 1..], Some(s))
            case Err(v) => Err(v)
            case Ok(after) => Ok(VerifyOutcome(after.state, |events|, Some(root), Some(|events| - i - 1)))
  {
  }

  lemma NoSnapshot(env: Integrity, events: seq<Event>, root: string, i: nat)
    requires i < |events| && ReplayWithSnapshot(env, events[..i + 1], None).Err?
    ensures VerifyAt(env, events, i, root, None) == Err(ReplayWithSnapshot(env, events[..i + 1], None).error)
  {
  }

  lemma SnapshotAtSeal(env: Integrity, events: seq<Event>, root: string, i: nat) returns (m: StateMap.State)
    requires SealAt(events, root, i) && HexIntegrity(env) && ReplayWithSnapshot(env, events[..i + 1], None).Ok?
    ensures m == ReplayWithSnapshot(env, events[..i + 1], None).value.state
    ensures BuildSnapshot(events[i], root, m).Ok?
    ensures RebuildSnapshot(env, events, i, root) == BuildSnapshot(events[i], root, m)
  {
    Checkpoints.StartOfPrefix(events, i + 1);
    var p := Run(env, Start(events, None), events[..i + 1]).value;
    Checkpoints.PrefixAtSeal(env, events, i, root, p);
    m := p.state;
  }

  /** The snapshot records the seal: namespace, tick, place, time, root and digest. */
  predicate RecordsSeal(s: Snapshot, seal: Event, root: string) {
    && s.namespace == seal.namespace && s.tick == seal.tick && s.sealSeq == seal.seqNo
    && seal.timestampMs == Some(s.sealTimestampMs)
    && root == Hex.Encode(s.rootDigest) && seal.digest == Hex.Encode(s.sealDigest)
  }

  /** With a cached snapshot: if it records the seal and the seal's own digest is valid, the
      outcome is that of replaying the events after the seal from it, whatever comes before;
      otherwise it has no effect. */
  lemma VerifiesFromCache(env: Integrity, events: seq<Event>, root: string, i: nat, s: Snapshot)
    requires OnlySeal(events, root, i)
    ensures VerifyEvents(env, events, Some(root), Some(s))
         == if env.digestValid(events[i]) && RecordsSeal(s, events[i], root) then
              match ReplayWithSnapshot(env, events[i + 1..], Some(s))
              case Err(v) => Err(v)
              case Ok(after) => Ok(VerifyOutcome(after.state, |events|, Some(root), Some(|events| - i - 1)))
            else VerifyEvents(env, events, Some(root), None)
  {
    OnlySealFound(events, root, i);
    Checkpoints.OneSeal(env, events, root, i, Some(s));
    Checkpoints.OneSeal(env, events, root, i, None);
    FromCache(env, events, root, i, s);
  }

  lemma FromCache(env: Integrity, events: seq<Event>, root: string, i: nat, s: Snapshot)
    requires i < |events|
    ensures VerifyAt(env, events, i, root, Some(s))
         == if env.digestValid(events[i]) && RecordsSeal(s, events[i], root) then
              match ReplayWithSnapshot(env, events[i + 1..], Some(s))
              case Err(v) => Err(v)
              case Ok(after) => Ok(VerifyOutcome(after.state, |events|, Some(root), Some(|events| - i - 1)))
            else VerifyAt(env, events, i, root, None)
  {
  }

  /** Checkpointed verification against full replay, for any root: it succeeds only for a root
      that exactly one seal carries, and then exactly when full replay would but for the first
      nonzero tick after the seal. */
  lemma CheckpointExactly(sha: Hash, events: seq<Event>, root: string)
    requires AllWellFormed(events) && NoCollisions(sha, events)
    ensures var env := ShaIntegrity(sha);
            var full := VerifyEvents(env, events, None, None);
            var check := VerifyEvents(env, events, Some(root), None);
            && (check.Ok? ==> exists i: nat :: OnlySeal(events, root, i))
            && forall i: nat :: OnlySeal(events, root, i) ==>
                 && (full.Ok? <==>
                       check.Ok?
                       && Checkpoints.TickFits(Checkpoints.LargestTick(events[..i + 1]), events[i + 1..]))
                 && (full.Ok? ==> check.value.state == full.value.state)
  {
    var env := ShaIntegrity(sha);
    if VerifyEvents(env, events, Some(root), None).Ok? {
      var i := VerifiedRootIsSealedOnce(env, events, root, None);
    }
    if i: nat :| OnlySeal(events, root, i) {
      OnlySealFound(events, root, i);
      Checkpoints.CheckpointIffFull(sha, events, root, i);
      forall j: nat | OnlySeal(events, root, j) ensures j == i {
      }
    }
  }
}
