/** Exactly when a log stops opening, for calls that finish, calls that are cut short, and
    whole runs of both. src/event_log.rs. */
module StuckRuns {
  import opened Prelude
  import opened Events
  import opened Segments
  import opened LogInvariant
  import opened LogWrites
  import opened AppendSafety
  import opened AppendResult
  import opened LogRuns
  import opened StuckLog

  lemma CallBroken(t: Setting, fs: FileSystem, batch: seq<Event>, envs: nat -> Env, clock: nat -> u64)
    requires Genuine(t) && BrokenDisk(fs)
    ensures var out := Call(t, fs, batch, envs, clock);
            BrokenDisk(out.fs) && forall j :: 0 <= j < |out.trace| ==> BrokenDisk(out.trace[j])
  {
    if batch != [] {
      SegmentedBroken(t, fs, batch, envs);
    }
  }

  /** A broken log stays broken, whatever is appended to it, and wherever that is cut short. */
  lemma BrokenForever(t: Setting, fs: FileSystem, a: Attempt)
    requires Genuine(t) && BrokenDisk(fs)
    ensures BrokenDisk(AfterAttempt(t, fs, a)) && Load(AfterAttempt(t, fs, a)).Err?
  {
    CallBroken(t, fs, a.batch, a.envs, a.clock);
    BrokenNeverLoads(AfterAttempt(t, fs, a));
  }

  lemma {:induction false} BrokenRun(t: Setting, fs: FileSystem, run: seq<Attempt>)
    requires Genuine(t) && BrokenDisk(fs)
    ensures BrokenDisk(AfterRun(t, fs, run)) && Load(AfterRun(t, fs, run)).Err?
    decreases |run|
  {
    if run == [] {
      BrokenNeverLoads(fs);
    } else {
      BrokenForever(t, fs, run[0]);
      BrokenRun(t, AfterAttempt(t, fs, run[0]), run[1..]);
    }
  }

  lemma HarmBreaks(t: Setting, fs: FileSystem, events: seq<Event>, a: Attempt)
    requires Genuine(t) && Durable(t.rules, t.g, t.limits, fs, events) && !Harmless(t, fs, a)
    ensures BrokenDisk(AfterAttempt(t, fs, a))
  {
    var out := StuckSegmented(t, fs, events, a.batch, a.envs);
  }

  /** Exactly when a log that opens still opens after a call that may be cut short: unless the
      call meets a lone empty segment with a line that segment cannot take, and gets past its
      first write. */
  lemma AttemptOpensIff(t: Setting, fs: FileSystem, events: seq<Event>, a: Attempt)
    requires Genuine(t) && Durable(t.rules, t.g, t.limits, fs, events)
    requires t.g.Bounded? ==> Short(t.rules, t.g.lineMax, a.batch)
    ensures Load(AfterAttempt(t, fs, a)).Ok? <==> Harmless(t, fs, a)
  {
    if Harmless(t, fs, a) {
      var k := AttemptSurvives(t, fs, events, a);
      DurableLoads(t.rules, t.g, t.limits, AfterAttempt(t, fs, a), events + a.batch[..k]);
    } else {
      HarmBreaks(t, fs, events, a);
      BrokenNeverLoads(AfterAttempt(t, fs, a));
    }
  }

  /** The same for a call that finishes. */
  lemma LoadsIffNotStuck(t: Setting, fs: FileSystem, events: seq<Event>, batch: seq<Event>, envs: nat -> Env,
                         clock: nat -> u64)
    requires Genuine(t) && Durable(t.rules, t.g, t.limits, fs, events)
    requires t.g.Bounded? ==> Short(t.rules, t.g.lineMax, batch)
    ensures Load(Call(t, fs, batch, envs, clock).fs).Ok? <==> !WillStick(t.rules, t.limits, fs, batch)
  {
    var a := Attempt(batch, envs, clock, None);
    AttemptOpensIff(t, fs, events, a);
    assert AfterAttempt(t, fs, a) == Call(t, fs, batch, envs, clock).fs;
  }

  predicate ShortIfBounded(t: Setting, run: seq<Attempt>) {
    t.g.Bounded? ==> ShortRun(t, run)
  }

  lemma ShortTail(t: Setting, run: seq<Attempt>)
    requires run != [] && ShortIfBounded(t, run)
    ensures ShortIfBounded(t, run[1..]) && (t.g.Bounded? ==> Short(t.rules, t.g.lineMax, run[0].batch))
  {
    if t.g.Bounded? {
      forall i | 0 <= i < |run[1..]| ensures Short(t.rules, t.g.lineMax, run[1..][i].batch) {
        assert run[1..][i] == run[i + 1];
      }
    }
  }

  /** Exactly when a log opens after a run: when no call of the run meets the stuck state and
      gets past its first write. Once it does not open, it never opens again. */
  lemma {:induction false} RunOpensIff(t: Setting, fs: FileSystem, events: seq<Event>, run: seq<Attempt>)
    requires Genuine(t) && Durable(t.rules, t.g, t.limits, fs, events) && ShortIfBounded(t, run)
    ensures Load(AfterRun(t, fs, run)).Ok? <==> SafeRun(t, fs, run)
    decreases |run|
  {
    if run == [] {
      DurableLoads(t.rules, t.g, t.limits, fs, events);
    } else {
      ShortTail(t, run);
      if Harmless(t, fs, run[0]) {
        var k := AttemptSurvives(t, fs, events, run[0]);
        RunOpensIff(t, AfterAttempt(t, fs, run[0]), events + run[0].batch[..k], run[1..]);
      } else {
        HarmBreaks(t, fs, events, run[0]);
        BrokenRun(t, AfterAttempt(t, fs, run[0]), run[1..]);
      }
    }
  }

  // ---------------------------------------------------------------------------
  // Such a disk is reachable.
  // ---------------------------------------------------------------------------

  lemma {:induction false} SpillTrace(s: Session, n: nat)
    ensures s.trace <= Spill(s, n).trace
    decreases n
  {
    if n != 0 && s.writer.Some? && s.writer.value.pending != [] {
      SpillTrace(SpillOne(s), n - 1);
    }
  }

  lemma FlushTrace(s: Session)
    ensures s.trace <= Flush(s).trace
  {
    if s.writer.Some? {
      SpillTrace(s, |s.writer.value.pending|);
    }
  }

  lemma WriteTrace(s: Session, e: Event, bytes: nat, env: Env)
    ensures s.trace <= WriteEvent(s, e, bytes, env).session.trace
  {
    var i := ActiveIndex(s.catalog);
    if i < |s.catalog.segments| {
      var file := s.catalog.segments[i].fileName;
      FlushTrace(s);
      var buffered := Buffer(OpenWriter(s, file), EventLine(e, bytes));
      SpillTrace(buffered, env.spill);
    }
  }

  lemma CloseTrace(p: Progress)
    ensures p.session.trace <= Close(p).trace
  {
    FlushTrace(p.session);
  }

  /** The disk after the first two writes of a new log: a header, then the catalog. */
  function Genesis(rules: Rules, limits: Limits, fs: FileSystem, e: Event, createdAt: u64): FileSystem {
    var c := NewCatalog(limits);
    var entry := NewEntry(c, e, None, createdAt);
    WithFile(fs, entry.fileName, [HeaderLine(HeaderOf(entry))]).(catalog := Some(Rolled(c, entry)))
  }

  lemma FirstWrites(rules: Rules, limits: Limits, fs: FileSystem, e: Event, env: Env)
    requires FileAccept(rules, [], e).Ok?
    ensures var s := Session(fs, NewCatalog(limits), None, false, []);
            var ready := EnsureSegment(rules, s, e, LineLength(rules, e), env);
            && ready.Ok? && |ready.value.trace| == 2
            && ready.value.trace[1] == Genesis(rules, limits, fs, e, env.createdAt)
  {
  }

  lemma FirstTurnTrace(rules: Rules, limits: Limits, fs: FileSystem, e: Event, env: Env)
    requires FileAccept(rules, [], e).Ok?
    ensures var trace := AppendOne(rules, Session(fs, NewCatalog(limits), None, false, []), e, env).session.trace;
            |trace| >= 2 && trace[1] == Genesis(rules, limits, fs, e, env.createdAt)
  {
    var s := Session(fs, NewCatalog(limits), None, false, []);
    FirstWrites(rules, limits, fs, e, env);
    AcceptedOne(rules, s, [], e, env);
    WriteTrace(EnsureSegment(rules, s, e, LineLength(rules, e), env).value, e, LineLength(rules, e), env);
  }

  lemma GenesisTail(rules: Rules, limits: Limits, fs: FileSystem, e: Event, createdAt: u64)
    requires e.seqNo == 0
    ensures var g := Genesis(rules, limits, fs, e, createdAt);
            var r := Reconcile(g.segments, g.catalog.value);
            && r.Ok? && Load(g) == Ok([]) && r.value.nextSeq == 0 && |r.value.segments| == 1
            && ActiveIndex(r.value) == 0 && r.value.segments[0].eventCount == 0 && r.value.segments[0].sizeBytes == 0
            && r.value.maxEvents == limits.maxEvents && r.value.maxBytes == limits.maxBytes
  {
    var c := NewCatalog(limits);
    var entry := NewEntry(c, e, None, createdAt);
    var d := Rolled(c, entry);
    var file := [HeaderLine(HeaderOf(entry))];
    assert file[1..] == [];
    assert EventsIn(file) == [];
    assert d.segments == [entry] && d.segments[1..] == [] && ActiveIndex(d) == 0;
    assert SortByStart(d.segments) == [entry];
    var g := Genesis(rules, limits, fs, e, createdAt);
    var r := Reconcile(g.segments, g.catalog.value).value;
    assert r == d.(nextSeq := 0) && ActiveIndex(r) == 0;
    assert Ordered(r) == Ok([entry]);
    assert [entry][1..] == [] && EventsIn(file) + [] == [];
    assert LoadSegments(g.segments, [entry][1..]) == Ok([]);
    assert LoadSegments(g.segments, [entry]) == Ok([]);
  }

  /** The crash that prepares the ground: after the second write of a new log's first append. */
  function FirstCrash(e: Event, envs: nat -> Env, clock: nat -> u64): Attempt {
    Attempt([e], envs, clock, Some(2))
  }

  lemma CrashLeavesGenesis(t: Setting, fs: FileSystem, e: Event, next: Event, envs: nat -> Env, clock: nat -> u64)
    requires Genuine(t) && fs.catalog.None? && LegacyLines(fs) == [] && FileAccept(t.rules, [], e).Ok?
    requires FileAccept(t.rules, [], next).Ok?
    ensures var crashed := AfterAttempt(t, fs, FirstCrash(e, envs, clock));
            && Load(crashed) == Ok([])
            && (WillStick(t.rules, t.limits, crashed, [next])
                <==> t.limits.maxEvents == 0 || LineLength(t.rules, next) > t.limits.maxBytes)
  {
    GenuineTurn(t);
    var s := Session(fs, NewCatalog(t.limits), None, false, []);
    FirstTurnTrace(t.rules, t.limits, fs, e, envs(0));
    assert t.turn(s, e, envs(0)) == AppendOne(t.rules, s, e, envs(0));
    OneEventTrace(t.turn, s, e, envs);
    GenesisTail(t.rules, t.limits, fs, e, envs(0).createdAt);
  }

  predicate Oversize(t: Setting, e: Event) {
    t.limits.maxEvents == 0 || LineLength(t.rules, e) > t.limits.maxBytes
  }

  /** From an empty log to one that does not open. A crash after the second write of the first
      append leaves a log that opens and holds nothing; then the next event breaks it for good
      exactly when its line is longer than a segment may be, or segments may hold no event at
      all. */
  lemma GenesisCrashBreaksIff(t: Setting, fs: FileSystem, e: Event, next: Event, envs: nat -> Env, clock: nat -> u64)
    requires Genuine(t) && fs.catalog.None? && LegacyLines(fs) == [] && Durable(t.rules, t.g, t.limits, fs, [])
    requires FileAccept(t.rules, [], e).Ok? && FileAccept(t.rules, [], next).Ok?
    requires t.g.Bounded? ==> Short(t.rules, t.g.lineMax, [e]) && Short(t.rules, t.g.lineMax, [next])
    ensures var crashed := AfterAttempt(t, fs, FirstCrash(e, envs, clock));
            && Load(crashed) == Ok([]) && Durable(t.rules, t.g, t.limits, crashed, [])
            && (Load(Call(t, crashed, [next], envs, clock).fs).Err? <==> Oversize(t, next))
  {
    var crashed := AfterAttempt(t, fs, FirstCrash(e, envs, clock));
    CrashLeavesGenesis(t, fs, e, next, envs, clock);
    CrashedIsDurable(t, fs, e, envs, clock);
    LoadsIffNotStuck(t, crashed, [], [next], envs, clock);
  }

  lemma CrashedIsDurable(t: Setting, fs: FileSystem, e: Event, envs: nat -> Env, clock: nat -> u64)
    requires Genuine(t) && fs.catalog.None? && Durable(t.rules, t.g, t.limits, fs, [])
    requires t.g.Bounded? ==> Short(t.rules, t.g.lineMax, [e])
    requires Load(AfterAttempt(t, fs, FirstCrash(e, envs, clock))) == Ok([])
    ensures Durable(t.rules, t.g, t.limits, AfterAttempt(t, fs, FirstCrash(e, envs, clock)), [])
  {
    var a := FirstCrash(e, envs, clock);
    var k := AttemptSurvives(t, fs, [], a);
    DurableLoads(t.rules, t.g, t.limits, AfterAttempt(t, fs, a), [] + a.batch[..k]);
  }

  lemma OneEventTrace(turn: Turn, s: Session, e: Event, envs: nat -> Env)
    ensures turn(s, e, envs(0)).session.trace <= Close(AppendEvents(turn, s, [e], envs, 0)).trace
  {
    assert [e][1..] == [];
    CloseTrace(AppendEvents(turn, s, [e], envs, 0));
    assert AppendEvents(turn, s, [e], envs, 0).session == turn(s, e, envs(0)).session;
  }
}
