/** The snapshot written after a TICK_SEAL has been appended: `persist_snapshot_for_root` in
    src/event_log.rs. */
module SnapshotStore {
  import opened Prelude
  import opened Checkpoints
  import opened Digests
  import opened EventDigests
  import opened Events
  import opened Replay
  import opened ReplayFacts
  import opened Snapshots
  import opened StateInvariant
  import opened StateMap
  import Codec
  import Hex
  import Key
  import Utf8

  /** Position of the first seal that carries the root, or the length of the log. */
  function FirstSeal(events: seq<Event>, root: string): (c: nat)
    ensures c <= |events|
    ensures c < |events| ==> Seals(events[c], root)
    ensures forall i :: 0 <= i < c ==> !Seals(events[i], root)
  {
    if events == [] || Seals(events[0], root) then 0 else 1 + FirstSeal(events[1..], root)
  }

  function PersistWith(sha: Hash, env: Integrity, events: seq<Event>, root: string): Result<Option<Bytes>, Violation> {
    var c := FirstSeal(events, root);
    if c == |events| then Ok(None)
    else
      match RebuildSnapshot(env, events, c, root)
      case Err(v) => Err(v)
      case Ok(s) =>
        match SnapshotToBinary(sha, s)
        case Err(_) => Err(InvalidEventFormat)
        case Ok(bytes) => Ok(Some(bytes))
  }

  /** What is written to the snapshot file of a root; nothing when no seal carries it. */
  function PersistedSnapshot(sha: Hash, events: seq<Event>, root: string): Result<Option<Bytes>, Violation> {
    PersistWith(sha, ShaIntegrity(sha), events, root)
  }

  lemma {:induction false} FirstSealAppend(events: seq<Event>, more: seq<Event>, root: string)
    requires FirstSeal(events, root) < |events|
    ensures FirstSeal(events + more, root) == FirstSeal(events, root)
  {
    if !Seals(events[0], root) {
      assert (events + more)[1..] == events[1..] + more;
      FirstSealAppend(events[1..], more, root);
    }
  }

  /** Stability: later appends, even ones that seal the same root again, write the same
      bytes to the snapshot file, or fail in the same way. */
  lemma PersistedIsStable(sha: Hash, events: seq<Event>, more: seq<Event>, root: string)
    requires FirstSeal(events, root) < |events|
    ensures PersistedSnapshot(sha, events + more, root) == PersistedSnapshot(sha, events, root)
  {
    PersistWithIsStable(sha, ShaIntegrity(sha), events, more, root);
  }

  lemma PersistWithIsStable(sha: Hash, env: Integrity, events: seq<Event>, more: seq<Event>, root: string)
    requires FirstSeal(events, root) < |events|
    ensures PersistWith(sha, env, events + more, root) == PersistWith(sha, env, events, root)
  {
    FirstSealAppend(events, more, root);
    var c := FirstSeal(events, root);
    SamePrefix(env, events, more, c, root);
  }

  lemma SamePrefix(env: Integrity, events: seq<Event>, more: seq<Event>, c: nat, root: string)
    requires c < |events|
    ensures RebuildSnapshot(env, events + more, c, root) == RebuildSnapshot(env, events, c, root)
  {
    assert (events + more)[..c + 1] == events[..c + 1] && (events + more)[c] == events[c];
  }

  lemma NamespaceIsShort(namespace: string)
    requires Key.ValidNamespace(namespace)
    ensures |Utf8.Encode(namespace)| <= 63
  {
  }

  lemma ValidEventNamespace(sha: Hash, e: Event)
    requires ShaIntegrity(sha).digestValid(e)
    ensures Key.ValidNamespace(e.namespace)
  {
  }

  /** The state reached at the seal is good for the seal's namespace. */
  lemma StateAtSeal(env: Integrity, events: seq<Event>, c: nat, p: Progress)
    requires c < |events| && Run(env, Start(events, None), events[..c + 1]) == Ok(p)
    ensures GoodState(events[c].namespace, p.state)
  {
    var prefix := events[..c + 1];
    StartOfPrefix(events, c + 1);
    RunLinks(env, Start(events, None), prefix);
    assert LinkedAt(env, prefix, 0, ZERO_DIGEST_HEX, c);
    RunKeepsGood(env, events[0].namespace, Start(events, None), prefix);
  }

  lemma RootOfState(sha: Hash, m: State, root: string)
    requires RootDigestHex(sha, m) == Ok(root)
    ensures DecodeDigest(root).Some? && CheckRoot(sha, m, DecodeDigest(root).value).Ok?
    ensures Hex.Encode(DecodeDigest(root).value) == root
  {
    RootIsHex(sha, m);
    Hex.DecodeEncode(sha(ToBinary(m).value));
  }

  /** Whenever the prefix through the first seal of a root replays, its snapshot encodes,
      decodes back to itself, and matches that seal. */
  lemma PersistenceWorks(sha: Hash, events: seq<Event>, root: string, c: nat) returns (s: Snapshot, bytes: Bytes)
    requires c == FirstSeal(events, root) < |events|
    requires ReplayWithSnapshot(ShaIntegrity(sha), events[..c + 1], None).Ok?
    requires Codec.Fits(ReplayWithSnapshot(ShaIntegrity(sha), events[..c + 1], None).value.state)
    ensures RebuildSnapshot(ShaIntegrity(sha), events, c, root) == Ok(s)
    ensures PersistedSnapshot(sha, events, root) == Ok(Some(bytes))
    ensures SnapshotFromBinary(sha, bytes) == Ok(s)
    ensures SnapshotMatches(s, events[c], root)
  {
    var env := ShaIntegrity(sha);
    ShaIsHex(sha);
    RebuiltAtSeal(env, events, c, root);
    s := BuildSnapshot(events[c], root, ReplayWithSnapshot(env, events[..c + 1], None).value.state).value;
    SnapshotEncodes(sha, events[c], root, s.state);
    bytes := SnapshotToBinary(sha, s).value;
    PersistUnfold(sha, env, events, root, c, s, bytes);
  }

  lemma PersistUnfold(sha: Hash, env: Integrity, events: seq<Event>, root: string, c: nat, s: Snapshot, bytes: Bytes)
    requires c == FirstSeal(events, root) < |events|
    requires RebuildSnapshot(env, events, c, root) == Ok(s) && SnapshotToBinary(sha, s) == Ok(bytes)
    ensures PersistWith(sha, env, events, root) == Ok(Some(bytes))
  {
  }

  lemma RebuiltAtSeal(env: Integrity, events: seq<Event>, c: nat, root: string)
    requires c < |events| && Seals(events[c], root) && HexIntegrity(env)
    requires ReplayWithSnapshot(env, events[..c + 1], None).Ok?
    ensures env.digestValid(events[c])
    ensures var m := ReplayWithSnapshot(env, events[..c + 1], None).value.state;
            env.rootOf(m) == Ok(root) && GoodState(events[c].namespace, m)
            && BuildSnapshot(events[c], root, m).Ok?
            && RebuildSnapshot(env, events, c, root) == BuildSnapshot(events[c], root, m)
            && BuildSnapshot(events[c], root, m).value.state == m
  {
    StartOfPrefix(events, c + 1);
    var p := Run(env, Start(events, None), events[..c + 1]).value;
    PrefixAtSeal(env, events, c, root, p);
    StateAtSeal(env, events, c, p);
  }

  lemma SnapshotEncodes(sha: Hash, seal: Event, root: string, m: State)
    requires ShaIntegrity(sha).digestValid(seal) && RootDigestHex(sha, m) == Ok(root)
    requires GoodState(seal.namespace, m) && Codec.Fits(m)
    requires BuildSnapshot(seal, root, m).Ok?
    ensures var s := BuildSnapshot(seal, root, m).value;
            SnapshotToBinary(sha, s).Ok?
            && SnapshotFromBinary(sha, SnapshotToBinary(sha, s).value) == Ok(s)
            && SnapshotMatches(s, seal, root)
  {
    var s := BuildSnapshot(seal, root, m).value;
    ValidEventNamespace(sha, seal);
    NamespaceIsShort(seal.namespace);
    GoodStateEncodes(seal.namespace, m);
    RootOfState(sha, m, root);
    SealDigestEncodes(sha, seal);
    SnapshotRoundTrip(sha, s);
  }

  lemma SealDigestEncodes(sha: Hash, seal: Event)
    requires ShaIntegrity(sha).digestValid(seal)
    ensures DecodeDigest(seal.digest).Some? && Hex.Encode(DecodeDigest(seal.digest).value) == seal.digest
  {
    ValidDigestDecodes(sha, seal);
  }
}
