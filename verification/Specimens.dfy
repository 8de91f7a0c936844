/** Two kinds of event simple enough to write down, for the logs on which something fails:
    a COMPACT, and a TICK_SEAL. src/event.rs. */
module Specimens {
  import opened Prelude
  import opened CanonicalJson
  import opened Digests
  import opened EventDigests
  import opened Events
  import opened Records
  import opened Replay
  import Key
  import Utf8

  const NAMESPACE: string := "abc"

  /** An event that only states the digest of a state: a COMPACT, or a TICK_SEAL when it has a
      timestamp. Its own digest is still to be computed. */
  function Draft(seqNo: u64, tick: u64, timestampMs: Option<u64>, root: string, prev: string,
                 archiveUri: Option<string>): Event
  {
    Event(if timestampMs.Some? then TickSeal else Compact, seqNo, tick, NAMESPACE,
          None, None, None, None, None, None, None,
          if timestampMs.Some? then Some(root) else None, timestampMs, if timestampMs.Some? then None else Some(root),
          None, None, archiveUri, None, None, None, prev, ZERO_DIGEST_HEX, None)
  }

  lemma NamespaceIsValid()
    ensures Key.ValidNamespace(NAMESPACE)
  {
    Utf8.EncodeAscii(NAMESPACE);
    var bytes := Utf8.Encode(NAMESPACE);
    assert |NAMESPACE| == 3;
    assert forall i :: 0 <= i < 3 ==> bytes[i] == NAMESPACE[i] as int;
  }

  lemma DraftPrints(e: Event)
    requires e.namespace == NAMESPACE && (e.eventType == Compact || e.eventType == TickSeal)
    requires e.value.None? && e.ops.None?
    ensures DigestBytes(e).Ok?
  {
    NamespaceIsValid();
    PlainEventPrints(Digested(e));
  }

  /** The event with its digest. */
  function Finished(sha: Hash, seqNo: u64, tick: u64, timestampMs: Option<u64>, root: string, prev: string,
                    archiveUri: Option<string>): Event
  {
    DraftPrints(Draft(seqNo, tick, timestampMs, root, prev, archiveUri));
    Refreshed(sha, Draft(seqNo, tick, timestampMs, root, prev, archiveUri)).value
  }

  lemma RefreshedIsValid(sha: Hash, d: Event)
    requires Refreshed(sha, d).Ok?
    ensures var e := Refreshed(sha, d).value;
            ValidateDigest(sha, e).Ok? && e == d.(digest := e.digest)
  {
    var e := Refreshed(sha, d).value;
    assert Digested(e) == Digested(d);
    SameBytes(e, d);
  }

  lemma SameBytes(a: Event, b: Event)
    requires Digested(a) == Digested(b)
    ensures DigestBytes(a) == DigestBytes(b)
  {
    assert a.eventType == Digested(a).eventType && b.eventType == Digested(b).eventType;
    assert b == a.(digest := b.digest, metadata := b.metadata);
  }

  lemma FinishedFacts(sha: Hash, seqNo: u64, tick: u64, timestampMs: Option<u64>, root: string, prev: string,
                      archiveUri: Option<string>)
    ensures var e := Finished(sha, seqNo, tick, timestampMs, root, prev, archiveUri);
            && ShaIntegrity(sha).digestValid(e) && WellFormedEvent(e)
            && e == Draft(seqNo, tick, timestampMs, root, prev, archiveUri).(digest := e.digest)
  {
    var d := Draft(seqNo, tick, timestampMs, root, prev, archiveUri);
    DraftPrints(d);
    RefreshedIsValid(sha, d);
  }

  // ---------------------------------------------------------------------------
  // Long lines.
  // ---------------------------------------------------------------------------

  function Repeat(n: nat): (s: string)
    ensures |s| == n
  {
    seq(n, _ => 'a')
  }

  /** The line of an event is longer than the archive address it carries. */
  lemma LongAddressLongLine(e: Event)
    requires e.archiveUri.Some? && Print(EventJson(e)).Ok?
    ensures |e.archiveUri.value| <= |Utf8.Encode(Print(EventJson(e)).value)|
  {
    MoreStringFields(e);
    ComplexFields(e);
    var i := FieldIsMember(EventFields(e), 16);
    HeldStringIsPrinted(Present(EventFields(e)), i, e.archiveUri.value);
    Utf8.EncodeLength(Print(EventJson(e)).value);
  }
}
