/** The log with its real rules: digests by a hash function, lines and headers in canonical
    JSON; and the logs it can come to hold. src/event_log.rs, src/replay.rs. */
module ShaLog {
  import opened Prelude
  import opened Backend
  import opened CanonicalJson
  import opened Digests
  import opened EventDigests
  import opened Events
  import opened LogInvariant
  import opened Records
  import opened Segments
  import opened AppendResult
  import opened AppendSafety
  import opened LogRuns
  import opened Refinement
  import opened Specimens
  import opened StuckRuns
  import Replay
  import ReplayFacts
  import TamperEvidence

  // ---------------------------------------------------------------------------
  // A segment header always has a digest.
  // ---------------------------------------------------------------------------

  lemma HeaderPrints(sha: Hash, h: SegmentHeader)
    ensures HeaderDigest(sha, h).Some?
  {
    var fields := HeaderFields(h);
    forall i | 0 <= i < |fields| ensures fields[i].value.Some? && Plain(fields[i].value.value) {
      HeaderIsPlain(h, i);
    }
    PlainRecordPrints(fields);
  }

  lemma HeaderIsPlain(h: SegmentHeader, i: nat)
    requires i < |HeaderFields(h)|
    ensures HeaderFields(h)[i].value.Some? && Plain(HeaderFields(h)[i].value.value)
  {
  }

  lemma HeaderHas(h: SegmentHeader, i: nat, name: string, value: Value)
    requires i < |HeaderFields(h)| && HeaderFields(h)[i] == Field(name, Some(value))
    ensures Member(name, value) in Present(HeaderFields(h))
  {
    var j := FieldIsMember(HeaderFields(h), i);
  }

  /** What the digest of a header is computed from: an object with these members. */
  lemma HeaderShows(h: SegmentHeader, ms: seq<Member>)
    requires ms == Present(HeaderFields(h))
    ensures Member("segment_id", JString(h.segmentId)) in ms && Member("namespace", JString(h.namespace)) in ms
    ensures Member("seq_start", JNumber(Integer(h.seqStart))) in ms
    ensures Member("seq_end", JNumber(Integer(h.seqEnd))) in ms
    ensures Member("first_digest", JString(h.firstDigest)) in ms
    ensures Member("prev_segment", if h.prevSegment.None? then JNull else JString(h.prevSegment.value)) in ms
    ensures Member("created_at", JNumber(Integer(h.createdAt))) in ms
    ensures Member("protocol_ver", JString(h.protocolVer)) in ms
  {
    HeaderHas(h, 0, "segment_id", JString(h.segmentId));
    HeaderHas(h, 1, "namespace", JString(h.namespace));
    HeaderHas(h, 2, "seq_start", JNumber(Integer(h.seqStart)));
    HeaderHas(h, 3, "seq_end", JNumber(Integer(h.seqEnd)));
    HeaderHas(h, 4, "first_digest", JString(h.firstDigest));
    HeaderHas(h, 5, "prev_segment", if h.prevSegment.None? then JNull else JString(h.prevSegment.value));
    HeaderHas(h, 6, "created_at", JNumber(Integer(h.createdAt)));
    HeaderHas(h, 7, "protocol_ver", JString(h.protocolVer));
  }

  function ShaSetting(sha: Hash, g: Regime, limits: Limits): Setting {
    SettingOf(ShaRules(sha), g, limits)
  }

  /** What is proved of genuine settings holds of the log as it is. */
  lemma ShaSettingIsGenuine(sha: Hash, g: Regime, limits: Limits)
    ensures Genuine(ShaSetting(sha, g, limits))
  {
    forall h ensures ShaRules(sha).headerDigest(h).Some? {
      HeaderPrints(sha, h);
    }
    SettingIsGenuine(ShaRules(sha), g, limits);
  }

  // ---------------------------------------------------------------------------
  // What a run can leave in the log.
  // ---------------------------------------------------------------------------

  lemma {:induction false} TakenAppended(rules: Rules, log: seq<Event>, batch: seq<Event>, k: nat)
    requires Appended(rules.validate, log) && k <= Taken(FileCheck(rules), log, batch)
    ensures Appended(rules.validate, log + batch[..k])
    decreases |batch|
  {
    if k == 0 {
      assert log + batch[..0] == log;
    } else {
      AppendKeeps(rules.validate, log, batch[0]);
      TakenAppended(rules, log + [batch[0]], batch[1..], k - 1);
      TakeOne(log, batch, k);
    }
  }

  lemma {:induction false} OutcomesAppended(rules: Rules, log: seq<Event>, run: seq<Attempt>, end: seq<Event>)
    requires Appended(rules.validate, log) && Outcomes(FileCheck(rules), log, run, end)
    ensures Appended(rules.validate, end)
    decreases |run|
  {
    if run != [] {
      var k: nat :| k <= Taken(FileCheck(rules), log, run[0].batch)
                    && Outcomes(FileCheck(rules), log + run[0].batch[..k], run[1..], end);
      TakenAppended(rules, log, run[0].batch, k);
      OutcomesAppended(rules, log + run[0].batch[..k], run[1..], end);
    }
  }

  lemma AppendedIsLinked(sha: Hash, log: seq<Event>)
    requires Appended(ShaValidator(sha), log)
    ensures ReplayFacts.Linked(Replay.ShaIntegrity(sha), log, 0, ZERO_DIGEST_HEX)
  {
    forall i | 0 <= i < |log|
      ensures log[i].seqNo == i && log[i].prevDigest == ReplayFacts.PrevOf(log, i, ZERO_DIGEST_HEX)
      ensures Replay.ShaIntegrity(sha).digestValid(log[i]) && log[i].namespace == log[0].namespace
    {
      AppendedIsSequenced(ShaValidator(sha), log, i);
    }
  }

  /** Whatever append accepts, replay's integrity guards accept: no gap, collision, digest
      mismatch, namespace breach or duplicate is ever reported, and no warning given. */
  lemma AppendedReplays(sha: Hash, log: seq<Event>)
    requires Appended(ShaValidator(sha), log)
    requires ReplayFacts.AllWellFormed(log) && ReplayFacts.NoCollisions(sha, log)
    ensures match Replay.ReplayWithSnapshot(Replay.ShaIntegrity(sha), log, None)
            case Err(v) => !TamperEvidence.IntegrityViolation(v)
            case Ok(outcome) => outcome.warnings == []
  {
    AppendedIsLinked(sha, log);
    TamperEvidence.LinkedLogReplays(sha, log);
  }

  ghost predicate EmptyLog(fs: FileSystem) {
    fs.catalog.None? && EventsIn(LegacyLines(fs)) == []
  }

  lemma EmptyIsDurable(sha: Hash, g: Regime, limits: Limits, fs: FileSystem)
    requires EmptyLog(fs) && (g.Bounded? ==> 1 <= limits.maxEvents && g.lineMax <= limits.maxBytes)
    ensures Durable(ShaRules(sha), g, limits, fs, [])
  {
  }

  // ---------------------------------------------------------------------------
  // The main results for the log as it is.
  // ---------------------------------------------------------------------------

  /** Crash safety over whole runs. */
  lemma ShaRunSurvives(sha: Hash, g: Regime, limits: Limits, fs: FileSystem, events: seq<Event>, run: seq<Attempt>)
    returns (end: seq<Event>)
    requires Durable(ShaRules(sha), g, limits, fs, events) && SafeRun(ShaSetting(sha, g, limits), fs, run)
    ensures var last := AfterRun(ShaSetting(sha, g, limits), fs, run);
            && Outcomes(FileCheck(ShaRules(sha)), events, run, end)
            && Load(last) == Ok(end) && TailMetadata(last) == Ok(Tail(NextSeq(end), Head(end), NamespaceOf(end)))
  {
    ShaSettingIsGenuine(sha, g, limits);
    end := RunSurvives(ShaSetting(sha, g, limits), fs, events, run);
  }

  /** Exactly when the log opens after a run, whatever the limits. */
  lemma ShaRunOpensIff(sha: Hash, limits: Limits, fs: FileSystem, events: seq<Event>, run: seq<Attempt>)
    requires Durable(ShaRules(sha), Loose, limits, fs, events)
    ensures Load(AfterRun(ShaSetting(sha, Loose, limits), fs, run)).Ok?
            <==> SafeRun(ShaSetting(sha, Loose, limits), fs, run)
  {
    ShaSettingIsGenuine(sha, Loose, limits);
    RunOpensIff(ShaSetting(sha, Loose, limits), fs, events, run);
  }

  /** Without interruptions the file log is the in-memory list. */
  lemma ShaRunRefinesMemory(sha: Hash, limits: Limits, fs: FileSystem, run: seq<Attempt>)
    requires EmptyLog(fs) && Uninterrupted(ShaSetting(sha, Loose, limits), run)
    ensures var last := AfterRun(ShaSetting(sha, Loose, limits), fs, run);
            && Load(last) == Ok(MemoryAfter(ShaRules(sha), [], run))
            && TailMetadata(last).Ok?
            && TailMetadata(last).value.nextSeq == NextSeq(MemoryAfter(ShaRules(sha), [], run))
  {
    EmptyIsDurable(sha, Loose, limits, fs);
    ShaSettingIsGenuine(sha, Loose, limits);
    RunRefinesMemory(ShaSetting(sha, Loose, limits), fs, [], run);
  }

  /** Which batches the log takes, and what it then holds. On a chained log that is not stuck a
      call succeeds if and only if the batch continues the chain and every event has a
      canonical line; the log then holds exactly the old events and the batch. */
  lemma ShaCallSucceedsIff(sha: Hash, limits: Limits, fs: FileSystem, events: seq<Event>, batch: seq<Event>,
                           envs: nat -> Env, clock: nat -> u64)
    returns (out: Outcome)
    requires Durable(ShaRules(sha), Loose, limits, fs, events) && Chained(ShaValidator(sha), events)
    requires !WillStick(ShaRules(sha), limits, fs, batch)
    ensures out == Call(ShaSetting(sha, Loose, limits), fs, batch, envs, clock)
    ensures out.error.None? <==> Chained(ShaValidator(sha), events + batch) && Lined(ShaRules(sha), batch)
    ensures out.error.None? ==> Load(out.fs) == Ok(events + batch)
  {
    ShaSettingIsGenuine(sha, Loose, limits);
    out := CallSucceedsIff(ShaSetting(sha, Loose, limits), fs, events, batch, envs, clock);
  }

  /** From an empty log, through any appends and crashes that do no harm: the log opens, and
      what it holds was built by appending, so that replay finds nothing wrong with its
      chain. */
  lemma RunReplays(sha: Hash, g: Regime, limits: Limits, fs: FileSystem, run: seq<Attempt>) returns (end: seq<Event>)
    requires EmptyLog(fs) && (g.Bounded? ==> 1 <= limits.maxEvents && g.lineMax <= limits.maxBytes)
    requires SafeRun(ShaSetting(sha, g, limits), fs, run)
    ensures Load(AfterRun(ShaSetting(sha, g, limits), fs, run)) == Ok(end) && Appended(ShaValidator(sha), end)
    ensures ReplayFacts.AllWellFormed(end) && ReplayFacts.NoCollisions(sha, end) ==>
              match Replay.ReplayWithSnapshot(Replay.ShaIntegrity(sha), end, None)
              case Err(v) => !TamperEvidence.IntegrityViolation(v)
              case Ok(outcome) => outcome.warnings == []
  {
    EmptyIsDurable(sha, g, limits, fs);
    end := ShaRunSurvives(sha, g, limits, fs, [], run);
    OutcomesAppended(ShaRules(sha), [], run, end);
    if ReplayFacts.AllWellFormed(end) && ReplayFacts.NoCollisions(sha, end) {
      AppendedReplays(sha, end);
    }
  }

  /** Under limits with room for every line no further hypothesis is needed. */
  lemma BoundedRunReplays(sha: Hash, lineMax: nat, limits: Limits, fs: FileSystem, run: seq<Attempt>)
    returns (end: seq<Event>)
    requires EmptyLog(fs) && 1 <= limits.maxEvents && lineMax <= limits.maxBytes
    requires ShortRun(ShaSetting(sha, Bounded(lineMax), limits), run)
    ensures Load(AfterRun(ShaSetting(sha, Bounded(lineMax), limits), fs, run)) == Ok(end)
    ensures Appended(ShaValidator(sha), end)
    ensures ReplayFacts.AllWellFormed(end) && ReplayFacts.NoCollisions(sha, end) ==>
              match Replay.ReplayWithSnapshot(Replay.ShaIntegrity(sha), end, None)
              case Err(v) => !TamperEvidence.IntegrityViolation(v)
              case Ok(outcome) => outcome.warnings == []
  {
    var g := Bounded(lineMax);
    EmptyIsDurable(sha, g, limits, fs);
    ShaSettingIsGenuine(sha, g, limits);
    ShortRunIsSafe(ShaSetting(sha, g, limits), fs, [], run);
    end := RunReplays(sha, g, limits, fs, run);
  }

  // ---------------------------------------------------------------------------
  // A log that stops opening.
  // ---------------------------------------------------------------------------

  const DEFAULT_LIMITS: Limits := Limits(10_000, 4 * 1024 * 1024)

  /** The first event of a log: a COMPACT with an archive address of `n` characters. */
  function FirstEvent(sha: Hash, n: nat): Event {
    Finished(sha, 0, 0, None, ZERO_DIGEST_HEX, ZERO_DIGEST_HEX, Some(Repeat(n)))
  }

  lemma FirstEventAccepted(sha: Hash, n: nat)
    ensures FileAccept(ShaRules(sha), [], FirstEvent(sha, n)).Ok?
    ensures LineLength(ShaRules(sha), FirstEvent(sha, n)) > n
  {
    var e := FirstEvent(sha, n);
    FinishedFacts(sha, 0, 0, None, ZERO_DIGEST_HEX, ZERO_DIGEST_HEX, Some(Repeat(n)));
    PlainEventPrints(e);
    LongAddressLongLine(e);
  }

  /** The failing input, for any limits and so for the default ones: on an empty log the first
      append is cut short after its second write, and a valid first event with a long archive
      address is appended next. After the crash the log opens and is empty; after the second
      append it does not open, though both events were acceptable. */
  lemma LogStopsOpening(sha: Hash, limits: Limits, fs: FileSystem, envs: nat -> Env, clock: nat -> u64)
    requires fs.catalog.None? && LegacyLines(fs) == []
    ensures var t := ShaSetting(sha, Loose, limits);
            var e, next := FirstEvent(sha, 0), FirstEvent(sha, limits.maxBytes);
            var crashed := AfterAttempt(t, fs, FirstCrash(e, envs, clock));
            && FileAccept(t.rules, [], e).Ok? && FileAccept(t.rules, [], next).Ok?
            && Load(fs) == Ok([]) && Load(crashed) == Ok([])
            && Load(Call(t, crashed, [next], envs, clock).fs).Err?
  {
    var t := ShaSetting(sha, Loose, limits);
    var e, next := FirstEvent(sha, 0), FirstEvent(sha, limits.maxBytes);
    ShaSettingIsGenuine(sha, Loose, limits);
    FirstEventAccepted(sha, 0);
    FirstEventAccepted(sha, limits.maxBytes);
    EmptyIsDurable(sha, Loose, limits, fs);
    GenesisCrashBreaksIff(t, fs, e, next, envs, clock);
  }

  lemma RunOfTwo(t: Setting, fs: FileSystem, a: Attempt, b: Attempt)
    ensures AfterRun(t, fs, [a, b]) == AfterAttempt(t, AfterAttempt(t, fs, a), b)
  {
    var mid := AfterAttempt(t, fs, a);
    assert [a, b][1..] == [b] && [b][1..] == [];
    assert AfterRun(t, AfterAttempt(t, mid, b), []) == AfterAttempt(t, mid, b);
    assert AfterRun(t, mid, [b]) == AfterAttempt(t, mid, b);
  }

  /** With the limits of `open`, ten thousand events and four mebibytes. */
  lemma DefaultLogStopsOpening(sha: Hash, fs: FileSystem, envs: nat -> Env, clock: nat -> u64)
    requires fs.catalog.None? && LegacyLines(fs) == []
    ensures var t := ShaSetting(sha, Loose, DEFAULT_LIMITS);
            var run := [ FirstCrash(FirstEvent(sha, 0), envs, clock),
                         Attempt([FirstEvent(sha, 4 * 1024 * 1024)], envs, clock, None) ];
            Load(AfterRun(t, fs, run)).Err?
  {
    var t := ShaSetting(sha, Loose, DEFAULT_LIMITS);
    var run := [ FirstCrash(FirstEvent(sha, 0), envs, clock),
                 Attempt([FirstEvent(sha, 4 * 1024 * 1024)], envs, clock, None) ];
    LogStopsOpening(sha, DEFAULT_LIMITS, fs, envs, clock);
    RunOfTwo(t, fs, run[0], run[1]);
  }
}
