/** Whole lives of a log: append calls, rejected batches, migration and crashes in any
    order. `append_batch` in src/event_log.rs. */
module LogRuns {
  import opened Prelude
  import opened Backend
  import opened Events
  import opened Segments
  import opened LogInvariant
  import opened AppendSafety
  import opened AppendResult
  import opened Migration
  import opened StuckLog

  /** `append_batch`: an empty batch does nothing, an old single file is migrated first. */
  function AppendBatch(turn: Turn, rules: Rules, limits: Limits, fs: FileSystem, batch: seq<Event>, envs: nat -> Env,
                       clock: nat -> u64): Outcome
  {
    if batch == [] then Outcome(fs, [], None)
    else if fs.catalog.None? && LegacyLines(fs) != [] then
      var m := Migrate(rules, limits, fs, clock);
      if m.error.Some? then Outcome(m.fs, m.trace, m.error)
      else
        var out := AppendSegmented(turn, limits, m.fs, batch, envs);
        Outcome(out.fs, m.trace + out.trace, out.error)
    else AppendSegmented(turn, limits, fs, batch, envs)
  }

  function Call(t: Setting, fs: FileSystem, batch: seq<Event>, envs: nat -> Env, clock: nat -> u64): Outcome {
    AppendBatch(t.turn, t.rules, t.limits, fs, batch, envs, clock)
  }

  // ---------------------------------------------------------------------------
  // One call.
  // ---------------------------------------------------------------------------

  lemma OldEventsHeld(t: Setting, fs: FileSystem, events: seq<Event>, batch: seq<Event>)
    ensures HoldsFirst(t, fs, events, |events|) <==> Durable(t.rules, t.g, t.limits, fs, events)
    ensures HoldsFirst(t, fs, events + batch, |events|) <==> Durable(t.rules, t.g, t.limits, fs, events)
  {
    assert events[..|events|] == events && (events + batch)[..|events|] == events;
  }

  lemma MigratedSurvives(t: Setting, trace: seq<FileSystem>, events: seq<Event>, batch: seq<Event>, hi: nat)
    requires AllDurable(t, trace, events) && |events| <= hi
    ensures AllSurvive(t, trace, events + batch, |events|, hi)
  {
    forall j | 0 <= j < |trace| ensures Survives(t, trace[j], events + batch, |events|, hi) {
      assert HoldsFirst(t, trace[j], events, |events|);
      OldEventsHeld(t, trace[j], events, batch);
    }
  }

  lemma JoinEnds(t: Setting, before: seq<FileSystem>, rest: Outcome, events: seq<Event>, batch: seq<Event>, n: nat)
    returns (out: Outcome)
    requires AllDurable(t, before, events) && EndsOk(t, rest, events + batch, |events|, n) && |events| <= n
    ensures out == Outcome(rest.fs, before + rest.trace, rest.error) && EndsOk(t, out, events + batch, |events|, n)
  {
    out := Outcome(rest.fs, before + rest.trace, rest.error);
    MigratedSurvives(t, before, events, batch, n);
    EndsOkEndsWell(t, rest, events + batch, |events|, n);
    EndsOkEndsWell(t, out, events + batch, |events|, n);
  }

  lemma MigratedStart(t: Setting, fs: FileSystem, events: seq<Event>, batch: seq<Event>, clock: nat -> u64)
    requires HeadersPrint(t.rules) && fs.catalog.None? && Durable(t.rules, t.g, t.limits, fs, events)
    ensures var m := Migrate(t.rules, t.limits, fs, clock);
            && m.error.None? && AllDurable(t, m.trace, events) && m.fs.catalog.Some?
            && Durable(t.rules, t.g, t.limits, m.fs, events) && !WillStick(t.rules, t.limits, m.fs, batch)
  {
    MigrationSafe(t, fs, events, clock);
    var m := Migrate(t.rules, t.limits, fs, clock);
    ReconcileExact(t.rules, t.g, m.fs.segments, m.catalog, events);
    DurableIs(t.rules, t.g, t.limits, m.fs, events);
  }

  /** One append call, from any durable disk. The events taken and the error are those of
      the flat list; the disk at the end holds all of them; and the disk after any of the
      writes in between holds the old events and some prefix of the ones taken. */
  lemma CallSafe(t: Setting, fs: FileSystem, events: seq<Event>, batch: seq<Event>, envs: nat -> Env, clock: nat -> u64)
    returns (out: Outcome)
    requires Genuine(t) && Durable(t.rules, t.g, t.limits, fs, events)
    requires !WillStick(t.rules, t.limits, fs, batch) && (t.g.Bounded? ==> Short(t.rules, t.g.lineMax, batch))
    ensures out == Call(t, fs, batch, envs, clock) && out.error == BatchError(t.check, events, batch)
    ensures HoldsFirst(t, out.fs, events + batch, |events| + Taken(t.check, events, batch))
    ensures AllSurvive(t, out.trace, events + batch, |events|, |events| + Taken(t.check, events, batch))
  {
    out := Call(t, fs, batch, envs, clock);
    AnyCallEnds(t, fs, events, batch, envs, clock);
    OpenEnds(t, out, events, batch);
  }

  lemma AnyCallEnds(t: Setting, fs: FileSystem, events: seq<Event>, batch: seq<Event>, envs: nat -> Env,
                    clock: nat -> u64)
    requires Genuine(t) && Durable(t.rules, t.g, t.limits, fs, events)
    requires !WillStick(t.rules, t.limits, fs, batch) && (t.g.Bounded? ==> Short(t.rules, t.g.lineMax, batch))
    ensures var out := Call(t, fs, batch, envs, clock);
            out.error == BatchError(t.check, events, batch)
            && EndsOk(t, out, events + batch, |events|, |events| + Taken(t.check, events, batch))
  {
    if batch == [] {
      EmptyCallEnds(t, fs, events, batch, envs, clock);
    } else if fs.catalog.None? && LegacyLines(fs) != [] {
      var out := LegacyCallEnds(t, fs, events, batch, envs, clock);
    } else {
      PlainCallEnds(t, fs, events, batch, envs, clock);
    }
  }

  /** A log still in its old single file: first every step of the migration, each of which
      leaves exactly the old events, then the append to the migrated disk. */
  lemma CallMigrates(t: Setting, fs: FileSystem, events: seq<Event>, batch: seq<Event>, envs: nat -> Env,
                     clock: nat -> u64)
    returns (m: Moving, rest: Outcome)
    requires Genuine(t) && Durable(t.rules, t.g, t.limits, fs, events) && batch != []
    requires fs.catalog.None? && LegacyLines(fs) != [] && (t.g.Bounded? ==> Short(t.rules, t.g.lineMax, batch))
    ensures m == Migrate(t.rules, t.limits, fs, clock) && m.error.None? && AllDurable(t, m.trace, events)
    ensures m.fs.catalog.Some? && Durable(t.rules, t.g, t.limits, m.fs, events)
    ensures rest == AppendSegmented(t.turn, t.limits, m.fs, batch, envs)
    ensures rest.error == BatchError(t.check, events, batch)
    ensures EndsOk(t, rest, events + batch, |events|, |events| + Taken(t.check, events, batch))
    ensures Call(t, fs, batch, envs, clock) == Outcome(rest.fs, m.trace + rest.trace, rest.error)
  {
    GenuineTurn(t);
    MigratedStart(t, fs, events, batch, clock);
    m := Migrate(t.rules, t.limits, fs, clock);
    rest := AppendSegmented(t.turn, t.limits, m.fs, batch, envs);
    SegmentedEnds(t, m.fs, events, batch, envs);
  }

  lemma LegacyCallEnds(t: Setting, fs: FileSystem, events: seq<Event>, batch: seq<Event>, envs: nat -> Env,
                       clock: nat -> u64)
    returns (out: Outcome)
    requires Genuine(t) && Durable(t.rules, t.g, t.limits, fs, events) && batch != []
    requires fs.catalog.None? && LegacyLines(fs) != [] && (t.g.Bounded? ==> Short(t.rules, t.g.lineMax, batch))
    ensures out == Call(t, fs, batch, envs, clock) && out.error == BatchError(t.check, events, batch)
    ensures EndsOk(t, out, events + batch, |events|, |events| + Taken(t.check, events, batch))
  {
    var m, rest := CallMigrates(t, fs, events, batch, envs, clock);
    out := JoinEnds(t, m.trace, rest, events, batch, |events| + Taken(t.check, events, batch));
  }

  lemma PlainCallEnds(t: Setting, fs: FileSystem, events: seq<Event>, batch: seq<Event>, envs: nat -> Env,
                      clock: nat -> u64)
    requires Genuine(t) && Durable(t.rules, t.g, t.limits, fs, events) && batch != []
    requires fs.catalog.Some? || LegacyLines(fs) == []
    requires !WillStick(t.rules, t.limits, fs, batch) && (t.g.Bounded? ==> Short(t.rules, t.g.lineMax, batch))
    ensures var out := Call(t, fs, batch, envs, clock);
            out.error == BatchError(t.check, events, batch)
            && EndsOk(t, out, events + batch, |events|, |events| + Taken(t.check, events, batch))
  {
    if fs.catalog.None? {
      NothingInNoFile(t, fs, events);
    }
    SegmentedEnds(t, fs, events, batch, envs);
  }

  lemma EmptyCallEnds(t: Setting, fs: FileSystem, events: seq<Event>, batch: seq<Event>, envs: nat -> Env,
                      clock: nat -> u64)
    requires Durable(t.rules, t.g, t.limits, fs, events) && batch == []
    ensures var out := Call(t, fs, batch, envs, clock);
            out.error == BatchError(t.check, events, batch)
            && EndsOk(t, out, events + batch, |events|, |events| + Taken(t.check, events, batch))
  {
    OldEventsHeld(t, fs, events, batch);
    EndsOkEndsWell(t, Call(t, fs, batch, envs, clock), events + batch, |events|,
                   |events| + Taken(t.check, events, batch));
  }

  lemma NothingInNoFile(t: Setting, fs: FileSystem, events: seq<Event>)
    requires fs.catalog.None? && LegacyLines(fs) == [] && Durable(t.rules, t.g, t.limits, fs, events)
    ensures events == []
  {
    DurableIs(t.rules, t.g, t.limits, fs, events);
  }

  // ---------------------------------------------------------------------------
  // Runs.
  // ---------------------------------------------------------------------------

  /** One call of a run; it may be cut short after some number of writes. */
  datatype Attempt = Attempt(batch: seq<Event>, envs: nat -> Env, clock: nat -> u64, crashAfter: Option<nat>)

  function AfterAttempt(t: Setting, fs: FileSystem, a: Attempt): FileSystem {
    StateAt(fs, Call(t, fs, a.batch, a.envs, a.clock), a.crashAfter)
  }

  /** The disk a call leaves, finished or cut short after some of its writes. */
  function StateAt(fs: FileSystem, out: Outcome, crashAfter: Option<nat>): FileSystem {
    match crashAfter
    case None => out.fs
    case Some(n) => if n == 0 then fs else if n <= |out.trace| then out.trace[n - 1] else out.fs
  }

  function AfterRun(t: Setting, fs: FileSystem, run: seq<Attempt>): FileSystem
    decreases |run|
  {
    if run == [] then fs else AfterRun(t, AfterAttempt(t, fs, run[0]), run[1..])
  }

  /** The call does not get the log stuck, or is cut short before its second write. */
  predicate Harmless(t: Setting, fs: FileSystem, a: Attempt) {
    WillStick(t.rules, t.limits, fs, a.batch) ==> a.crashAfter.Some? && a.crashAfter.value <= 1
  }

  /** No call of the run does harm. */
  ghost predicate SafeRun(t: Setting, fs: FileSystem, run: seq<Attempt>)
    decreases |run|
  {
    run != [] ==>
      && Harmless(t, fs, run[0])
      && (t.g.Bounded? ==> Short(t.rules, t.g.lineMax, run[0].batch))
      && SafeRun(t, AfterAttempt(t, fs, run[0]), run[1..])
  }

  /** `end` is what the flat list would hold, if each crashed call had been given only a
      prefix of the events it would have taken. */
  ghost predicate Outcomes(check: Check, events: seq<Event>, run: seq<Attempt>, end: seq<Event>)
    decreases |run|
  {
    if run == [] then end == events
    else
      exists k: nat ::
        && k <= Taken(check, events, run[0].batch)
        && (run[0].crashAfter.None? ==> k == Taken(check, events, run[0].batch))
        && Outcomes(check, events + run[0].batch[..k], run[1..], end)
  }

  lemma PrefixOfBoth(events: seq<Event>, batch: seq<Event>, k: nat)
    requires |events| <= k <= |events + batch|
    ensures (events + batch)[..k] == events + batch[..k - |events|]
  {
  }

  lemma PointSurvives(t: Setting, fs: FileSystem, out: Outcome, events: seq<Event>, batch: seq<Event>, taken: nat,
                      crashAfter: Option<nat>)
    returns (k: nat)
    requires Durable(t.rules, t.g, t.limits, fs, events) && taken <= |batch|
    requires EndsOk(t, out, events + batch, |events|, |events| + taken)
    ensures k <= taken && (crashAfter.None? ==> k == taken)
    ensures Durable(t.rules, t.g, t.limits, StateAt(fs, out, crashAfter), events + batch[..k])
  {
    EndsOkEndsWell(t, out, events + batch, |events|, |events| + taken);
    if crashAfter.Some? && crashAfter.value == 0 {
      k := 0;
      assert events + batch[..0] == events;
    } else if crashAfter.Some? && crashAfter.value <= |out.trace| {
      k := MiddleSurvives(t, out.trace, events, batch, taken, crashAfter.value - 1);
    } else {
      k := taken;
      EndSurvives(t, out.fs, events, batch, taken);
    }
  }

  lemma MiddleSurvives(t: Setting, trace: seq<FileSystem>, events: seq<Event>, batch: seq<Event>, taken: nat, j: nat)
    returns (k: nat)
    requires AllSurvive(t, trace, events + batch, |events|, |events| + taken) && j < |trace| && taken <= |batch|
    ensures k <= taken && Durable(t.rules, t.g, t.limits, trace[j], events + batch[..k])
  {
    var m := SurvivorOf(t, trace, events + batch, |events|, |events| + taken, j);
    k := m - |events|;
    PrefixOfBoth(events, batch, m);
  }

  lemma EndSurvives(t: Setting, fs: FileSystem, events: seq<Event>, batch: seq<Event>, taken: nat)
    requires HoldsFirst(t, fs, events + batch, |events| + taken) && taken <= |batch|
    ensures Durable(t.rules, t.g, t.limits, fs, events + batch[..taken])
  {
    PrefixOfBoth(events, batch, |events| + taken);
  }

  lemma AttemptSurvives(t: Setting, fs: FileSystem, events: seq<Event>, a: Attempt) returns (k: nat)
    requires Genuine(t) && Durable(t.rules, t.g, t.limits, fs, events)
    requires Harmless(t, fs, a) && (t.g.Bounded? ==> Short(t.rules, t.g.lineMax, a.batch))
    ensures k <= Taken(t.check, events, a.batch) && (a.crashAfter.None? ==> k == Taken(t.check, events, a.batch))
    ensures Durable(t.rules, t.g, t.limits, AfterAttempt(t, fs, a), events + a.batch[..k])
  {
    if WillStick(t.rules, t.limits, fs, a.batch) {
      k := 0;
      StuckCutInTime(t, fs, events, a);
      assert events + a.batch[..0] == events;
    } else {
      k := ClearAttemptSurvives(t, fs, events, a);
    }
  }

  lemma ClearAttemptSurvives(t: Setting, fs: FileSystem, events: seq<Event>, a: Attempt) returns (k: nat)
    requires Genuine(t) && Durable(t.rules, t.g, t.limits, fs, events)
    requires !WillStick(t.rules, t.limits, fs, a.batch) && (t.g.Bounded? ==> Short(t.rules, t.g.lineMax, a.batch))
    ensures k <= Taken(t.check, events, a.batch) && (a.crashAfter.None? ==> k == Taken(t.check, events, a.batch))
    ensures Durable(t.rules, t.g, t.limits, AfterAttempt(t, fs, a), events + a.batch[..k])
  {
    AnyCallEnds(t, fs, events, a.batch, a.envs, a.clock);
    k := PointSurvives(t, fs, Call(t, fs, a.batch, a.envs, a.clock), events, a.batch,
                       Taken(t.check, events, a.batch), a.crashAfter);
  }

  lemma StuckCutInTime(t: Setting, fs: FileSystem, events: seq<Event>, a: Attempt)
    requires Genuine(t) && Durable(t.rules, t.g, t.limits, fs, events)
    requires WillStick(t.rules, t.limits, fs, a.batch) && a.crashAfter.Some? && a.crashAfter.value <= 1
    ensures Durable(t.rules, t.g, t.limits, AfterAttempt(t, fs, a), events)
  {
    var out := StuckSegmented(t, fs, events, a.batch, a.envs);
    var after := EarlyState(t, fs, a, out);
  }

  /** What is on disk when a call without migration is cut short before its second write. */
  lemma EarlyState(t: Setting, fs: FileSystem, a: Attempt, out: Outcome) returns (after: FileSystem)
    requires fs.catalog.Some? && a.batch != [] && a.crashAfter.Some? && a.crashAfter.value <= 1
    requires out == AppendSegmented(t.turn, t.limits, fs, a.batch, a.envs) && out.trace != []
    ensures after == AfterAttempt(t, fs, a) && (after == fs || after == out.trace[0])
  {
    assert Call(t, fs, a.batch, a.envs, a.clock) == out;
    after := StateAt(fs, out, a.crashAfter);
  }

  lemma SurvivorOf(t: Setting, trace: seq<FileSystem>, all: seq<Event>, lo: nat, hi: nat, j: nat) returns (k: nat)
    requires AllSurvive(t, trace, all, lo, hi) && j < |trace|
    ensures lo <= k <= hi && k <= |all| && Durable(t.rules, t.g, t.limits, trace[j], all[..k])
  {
    assert Survives(t, trace[j], all, lo, hi);
    k :| lo <= k <= hi && HoldsFirst(t, trace[j], all, k);
  }

  /** Crash safety over whole runs. After any sequence of calls, whatever their batches and
      wherever they were cut short, the log opens; it holds what each finished call took and
      a prefix of what each interrupted one would have taken, and its tail is that of the
      last event. */
  lemma {:induction false} RunSurvives(t: Setting, fs: FileSystem, events: seq<Event>, run: seq<Attempt>)
    returns (end: seq<Event>)
    requires Genuine(t) && Durable(t.rules, t.g, t.limits, fs, events) && SafeRun(t, fs, run)
    ensures Outcomes(t.check, events, run, end)
    ensures Durable(t.rules, t.g, t.limits, AfterRun(t, fs, run), end)
    ensures Load(AfterRun(t, fs, run)) == Ok(end)
    ensures TailMetadata(AfterRun(t, fs, run)) == Ok(Tail(NextSeq(end), Head(end), NamespaceOf(end)))
    decreases |run|
  {
    if run == [] {
      end := events;
      DurableLoads(t.rules, t.g, t.limits, fs, events);
    } else {
      var k := AttemptSurvives(t, fs, events, run[0]);
      end := RunSurvives(t, AfterAttempt(t, fs, run[0]), events + run[0].batch[..k], run[1..]);
    }
  }

  /** Under limits with room for one line, no call gets the log stuck. */
  lemma BoundedNeverSticks(t: Setting, fs: FileSystem, events: seq<Event>, batch: seq<Event>)
    requires t.g.Bounded? && Short(t.rules, t.g.lineMax, batch) && Durable(t.rules, t.g, t.limits, fs, events)
    ensures !WillStick(t.rules, t.limits, fs, batch)
  {
    DurableIs(t.rules, t.g, t.limits, fs, events);
    if fs.catalog.Some? && batch != [] {
      var c := Reconcile(fs.segments, fs.catalog.value).value;
      if c.segments != [] && c.nextSeq == 0 {
        ActiveIsLast(t.rules, t.g, c, events);
        assert EntryOk(t.rules, t.g, c, |c.segments| - 1, events);
        assert Slice(events, 0, 0) == [];
      }
    }
  }

  predicate ShortRun(t: Setting, run: seq<Attempt>) {
    t.g.Bounded? && forall i :: 0 <= i < |run| ==> Short(t.rules, t.g.lineMax, run[i].batch)
  }

  lemma {:induction false} ShortRunIsSafe(t: Setting, fs: FileSystem, events: seq<Event>, run: seq<Attempt>)
    requires Genuine(t) && Durable(t.rules, t.g, t.limits, fs, events) && ShortRun(t, run)
    ensures SafeRun(t, fs, run)
    decreases |run|
  {
    if run != [] {
      BoundedNeverSticks(t, fs, events, run[0].batch);
      var k := AttemptSurvives(t, fs, events, run[0]);
      forall i | 0 <= i < |run[1..]| ensures Short(t.rules, t.g.lineMax, run[1..][i].batch) {
        assert run[1..][i] == run[i + 1];
      }
      ShortRunIsSafe(t, AfterAttempt(t, fs, run[0]), events + run[0].batch[..k], run[1..]);
    }
  }

  /** With room for every line and for one event per segment, every run is safe, and the
      catalog that recovery computes at the end is exact and within its limits. */
  lemma BoundedRunSurvives(t: Setting, fs: FileSystem, events: seq<Event>, run: seq<Attempt>) returns (end: seq<Event>)
    requires Genuine(t) && Durable(t.rules, t.g, t.limits, fs, events) && ShortRun(t, run)
    ensures Outcomes(t.check, events, run, end) && Load(AfterRun(t, fs, run)) == Ok(end)
    ensures TailMetadata(AfterRun(t, fs, run)) == Ok(Tail(NextSeq(end), Head(end), NamespaceOf(end)))
    ensures AfterRun(t, fs, run).catalog.Some? ==>
              var r := Reconcile(AfterRun(t, fs, run).segments, AfterRun(t, fs, run).catalog.value);
              && r.Ok? && Exact(t.rules, t.g, AfterRun(t, fs, run).segments, r.value, end)
              && forall i :: 0 <= i < |r.value.segments| ==> WithinLimits(r.value, r.value.segments[i])
  {
    ShortRunIsSafe(t, fs, events, run);
    end := RunSurvives(t, fs, events, run);
    var last := AfterRun(t, fs, run);
    DurableIs(t.rules, t.g, t.limits, last, end);
    if last.catalog.Some? {
      var r := Reconcile(last.segments, last.catalog.value).value;
      forall i | 0 <= i < |r.segments| ensures WithinLimits(r, r.segments[i]) {
        assert EntryOk(t.rules, t.g, r, i, end);
      }
    }
  }
}
