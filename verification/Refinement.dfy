/** The segmented log against the flat list: `FileSystemBackend` and `InMemoryBackend` in
    src/backend.rs. */
module Refinement {
  import opened Prelude
  import opened Backend
  import opened Events
  import opened Segments
  import opened LogInvariant
  import opened AppendSafety
  import opened AppendResult
  import opened Migration
  import opened LogRuns

  /** Where every line canonicalises, both backends make the same checks. */
  lemma {:induction false} SameChecks(rules: Rules, log: seq<Event>, batch: seq<Event>)
    requires Lined(rules, batch)
    ensures Taken(FileCheck(rules), log, batch) == Taken(ListCheck(rules.validate), log, batch)
    ensures BatchError(FileCheck(rules), log, batch) == BatchError(ListCheck(rules.validate), log, batch)
    decreases |batch|
  {
    if batch != [] {
      assert rules.lineBytes(batch[0]).Some?;
      forall i | 0 <= i < |batch[1..]| ensures rules.lineBytes(batch[1..][i]).Some? {
        assert batch[1..][i] == batch[i + 1];
      }
      SameChecks(rules, log + [batch[0]], batch[1..]);
    }
  }

  /** What the in-memory backend holds after some batches. */
  function MemoryAfter(rules: Rules, log: seq<Event>, run: seq<Attempt>): seq<Event>
    decreases |run|
  {
    if run == [] then log
    else MemoryAfter(rules, log + run[0].batch[..Taken(ListCheck(rules.validate), log, run[0].batch)], run[1..])
  }

  /** A disk no crash has left with a lone empty segment. */
  predicate Fresh(limits: Limits, fs: FileSystem) {
    View(fs, limits).Ok? && (View(fs, limits).value.nextSeq == 0 ==> View(fs, limits).value.segments == [])
  }

  lemma FreshNeverSticks(t: Setting, fs: FileSystem, batch: seq<Event>)
    requires Fresh(t.limits, fs)
    ensures !WillStick(t.rules, t.limits, fs, batch)
  {
  }

  lemma FirstRejected(t: Setting, s: Session, events: seq<Event>, batch: seq<Event>, envs: nat -> Env)
    requires Genuine(t) && Describes(t.rules, t.g, s.catalog, events) && s.writer.None?
    requires batch != [] && Taken(t.check, events, batch) == 0
    ensures Close(AppendEvents(t.turn, s, batch, envs, 0)).fs == s.fs
  {
    GenuineTurn(t);
    SameVerdict(t, s.catalog, events, batch[0]);
    AcceptedOne(t.rules, s, events, batch[0], envs(0));
    assert t.turn(s, batch[0], envs(0)) == Progress(s, Some(FileAccept(t.rules, events, batch[0]).error));
  }

  lemma AfterSomeTaken(t: Setting, fs: FileSystem, events: seq<Event>)
    requires Durable(t.rules, t.g, t.limits, fs, events) && events != []
    ensures Fresh(t.limits, fs) || fs.catalog.None?
  {
    DurableIs(t.rules, t.g, t.limits, fs, events);
  }

  lemma NothingTakenStaysFresh(t: Setting, fs: FileSystem, events: seq<Event>, batch: seq<Event>, envs: nat -> Env)
    requires Genuine(t) && Durable(t.rules, t.g, t.limits, fs, events) && Fresh(t.limits, fs)
    requires (fs.catalog.None? ==> events == []) && Taken(t.check, events, batch) == 0
    ensures AppendSegmented(t.turn, t.limits, fs, batch, envs).fs == fs
  {
    DurableIs(t.rules, t.g, t.limits, fs, events);
    if batch != [] {
      FirstRejected(t, Session(fs, View(fs, t.limits).value, None, false, []), events, batch, envs);
    }
  }

  lemma SomeTakenIsFresh(t: Setting, out: Outcome, all: seq<Event>, n: nat)
    requires 0 < n && HoldsFirst(t, out.fs, all, n)
    ensures Fresh(t.limits, out.fs) || out.fs.catalog.None?
  {
    AfterSomeTaken(t, out.fs, all[..n]);
  }

  lemma NoCatalogIsFresh(limits: Limits, fs: FileSystem)
    requires fs.catalog.None?
    ensures Fresh(limits, fs)
  {
  }

  lemma SegmentedStaysFresh(t: Setting, fs: FileSystem, events: seq<Event>, batch: seq<Event>, envs: nat -> Env)
    requires Genuine(t) && Durable(t.rules, t.g, t.limits, fs, events) && Fresh(t.limits, fs)
    requires fs.catalog.None? ==> events == []
    requires t.g.Bounded? ==> Short(t.rules, t.g.lineMax, batch)
    ensures Fresh(t.limits, AppendSegmented(t.turn, t.limits, fs, batch, envs).fs)
  {
    var out := AppendSegmented(t.turn, t.limits, fs, batch, envs);
    var k := Taken(t.check, events, batch);
    if k == 0 {
      NothingTakenStaysFresh(t, fs, events, batch, envs);
    } else {
      FreshNeverSticks(t, fs, batch);
      out := AppendSegmentedSafe(t, fs, events, batch, envs);
      SomeTakenIsFresh(t, out, events + batch, |events| + k);
      if out.fs.catalog.None? {
        NoCatalogIsFresh(t.limits, out.fs);
      }
    }
  }

  lemma MigratedIsFresh(t: Setting, fs: FileSystem, events: seq<Event>, clock: nat -> u64)
    requires HeadersPrint(t.rules) && fs.catalog.None? && Durable(t.rules, t.g, t.limits, fs, events)
    ensures var m := Migrate(t.rules, t.limits, fs, clock);
            && m.error.None? && m.fs.catalog.Some? && Fresh(t.limits, m.fs)
            && Durable(t.rules, t.g, t.limits, m.fs, events)
  {
    MigrationSafe(t, fs, events, clock);
    var m := Migrate(t.rules, t.limits, fs, clock);
    ReconcileExact(t.rules, t.g, m.fs.segments, m.catalog, events);
    DurableIs(t.rules, t.g, t.limits, m.fs, events);
  }

  /** A call that is not cut short leaves no lone empty segment. */
  lemma CallStaysFresh(t: Setting, fs: FileSystem, events: seq<Event>, batch: seq<Event>, envs: nat -> Env,
                       clock: nat -> u64)
    requires Genuine(t) && Durable(t.rules, t.g, t.limits, fs, events) && Fresh(t.limits, fs)
    requires t.g.Bounded? ==> Short(t.rules, t.g.lineMax, batch)
    ensures Fresh(t.limits, Call(t, fs, batch, envs, clock).fs)
  {
    if batch != [] {
      if fs.catalog.None? && LegacyLines(fs) != [] {
        GenuineTurn(t);
        MigratedIsFresh(t, fs, events, clock);
        SegmentedStaysFresh(t, Migrate(t.rules, t.limits, fs, clock).fs, events, batch, envs);
      } else {
        if fs.catalog.None? {
          NothingInNoFile(t, fs, events);
        }
        SegmentedStaysFresh(t, fs, events, batch, envs);
      }
    }
  }

  predicate Uninterrupted(t: Setting, run: seq<Attempt>) {
    forall i :: 0 <= i < |run| ==>
      && run[i].crashAfter.None? && Lined(t.rules, run[i].batch)
      && (t.g.Bounded? ==> Short(t.rules, t.g.lineMax, run[i].batch))
  }

  /** One call does to the file log what it does to the list. */
  lemma CallRefines(t: Setting, fs: FileSystem, events: seq<Event>, a: Attempt)
    requires Genuine(t) && Durable(t.rules, t.g, t.limits, fs, events) && Fresh(t.limits, fs)
    requires Uninterrupted(t, [a])
    ensures var out := Call(t, fs, a.batch, a.envs, a.clock);
            var k := Taken(ListCheck(t.rules.validate), events, a.batch);
            && AfterAttempt(t, fs, a) == out.fs && Fresh(t.limits, out.fs)
            && out.error == BatchError(ListCheck(t.rules.validate), events, a.batch)
            && Durable(t.rules, t.g, t.limits, out.fs, events + a.batch[..k])
  {
    assert [a][0] == a;
    FreshNeverSticks(t, fs, a.batch);
    AnyCallEnds(t, fs, events, a.batch, a.envs, a.clock);
    CallStaysFresh(t, fs, events, a.batch, a.envs, a.clock);
    ChecksAgree(t, events, a.batch);
    var k := AttemptSurvives(t, fs, events, a);
  }

  lemma ChecksAgree(t: Setting, events: seq<Event>, batch: seq<Event>)
    requires Genuine(t) && Lined(t.rules, batch)
    ensures Taken(t.check, events, batch) == Taken(ListCheck(t.rules.validate), events, batch)
    ensures BatchError(t.check, events, batch) == BatchError(ListCheck(t.rules.validate), events, batch)
  {
    GenuineTurn(t);
    SameChecks(t.rules, events, batch);
  }

  /** Refinement. After any sequence of finished calls, rejected batches included and
      whatever the segment limits, the file log holds what the in-memory backend would, and
      expects the same next sequence number. */
  lemma {:induction false} RunRefinesMemory(t: Setting, fs: FileSystem, events: seq<Event>, run: seq<Attempt>)
    requires Genuine(t) && Durable(t.rules, t.g, t.limits, fs, events) && Fresh(t.limits, fs) && Uninterrupted(t, run)
    ensures Load(AfterRun(t, fs, run)) == Ok(MemoryAfter(t.rules, events, run))
    ensures TailMetadata(AfterRun(t, fs, run)).Ok?
    ensures TailMetadata(AfterRun(t, fs, run)).value.nextSeq == NextSeq(MemoryAfter(t.rules, events, run))
    decreases |run|
  {
    if run == [] {
      DurableLoads(t.rules, t.g, t.limits, fs, events);
    } else {
      assert [run[0]][0] == run[0];
      CallRefines(t, fs, events, run[0]);
      forall i | 0 <= i < |run[1..]|
        ensures run[1..][i].crashAfter.None? && Lined(t.rules, run[1..][i].batch)
        ensures t.g.Bounded? ==> Short(t.rules, t.g.lineMax, run[1..][i].batch)
      {
        assert run[1..][i] == run[i + 1];
      }
      var k := Taken(ListCheck(t.rules.validate), events, run[0].batch);
      RunRefinesMemory(t, AfterAttempt(t, fs, run[0]), events + run[0].batch[..k], run[1..]);
    }
  }

  // ---------------------------------------------------------------------------
  // Which batches are taken.
  // ---------------------------------------------------------------------------

  /** Exactly when a list with one more batch is still chained and can be written down. */
  lemma AcceptedIffChained(rules: Rules, events: seq<Event>, batch: seq<Event>)
    requires Chained(rules.validate, events)
    ensures BatchError(FileCheck(rules), events, batch).None? <==>
              Chained(rules.validate, events + batch) && Lined(rules, batch)
    ensures BatchError(FileCheck(rules), events, batch).None? ==> Taken(FileCheck(rules), events, batch) == |batch|
  {
    var check := FileCheck(rules);
    TakenIsFirstRejection(check, events, batch);
    if BatchError(check, events, batch).None? {
      AllAccepted(rules, events, batch);
    }
    if Chained(rules.validate, events + batch) && Lined(rules, batch) {
      ChainedIsTaken(rules.validate, events, batch);
      SameChecks(rules, events, batch);
    }
  }

  lemma AcceptedAt(rules: Rules, events: seq<Event>, batch: seq<Event>, i: nat)
    requires Appended(rules.validate, events) && i < |events + batch|
    requires i >= |events| ==> FileAccept(rules, events + batch[..i - |events|], batch[i - |events|]).Ok?
    ensures Accept(rules.validate, (events + batch)[..i], (events + batch)[i]).Ok?
  {
    var all := events + batch;
    if i < |events| {
      assert all[..i] == events[..i] && all[i] == events[i];
    } else {
      assert all[..i] == events + batch[..i - |events|] && all[i] == batch[i - |events|];
    }
  }

  lemma AllAccepted(rules: Rules, events: seq<Event>, batch: seq<Event>)
    requires Chained(rules.validate, events)
    requires forall i :: 0 <= i < |batch| ==> FileAccept(rules, events + batch[..i], batch[i]).Ok?
    ensures Chained(rules.validate, events + batch) && Lined(rules, batch)
  {
    var all := events + batch;
    AppendedIffChained(rules.validate, events);
    forall i | 0 <= i < |all| ensures Accept(rules.validate, all[..i], all[i]).Ok? {
      AcceptedAt(rules, events, batch, i);
    }
    AppendedIffChained(rules.validate, all);
  }

  lemma CheckedIffChained(t: Setting, events: seq<Event>, batch: seq<Event>)
    requires Genuine(t) && Chained(t.rules.validate, events)
    ensures BatchError(t.check, events, batch).None? <==>
              Chained(t.rules.validate, events + batch) && Lined(t.rules, batch)
    ensures BatchError(t.check, events, batch).None? ==> Taken(t.check, events, batch) == |batch|
  {
    GenuineTurn(t);
    AcceptedIffChained(t.rules, events, batch);
  }

  lemma TakenIsLoaded(t: Setting, fs: FileSystem, events: seq<Event>, batch: seq<Event>)
    requires HoldsFirst(t, fs, events + batch, |events| + |batch|)
    ensures Load(fs) == Ok(events + batch)
  {
    EndSurvives(t, fs, events, batch, |batch|);
    assert batch[..|batch|] == batch;
    DurableLoads(t.rules, t.g, t.limits, fs, events + batch);
  }

  /** On a chained log that is not stuck a call succeeds if and only if the batch continues
      the chain and every event has a canonical line. */
  lemma CallSucceedsIff(t: Setting, fs: FileSystem, events: seq<Event>, batch: seq<Event>, envs: nat -> Env,
                        clock: nat -> u64)
    returns (out: Outcome)
    requires Genuine(t) && Durable(t.rules, t.g, t.limits, fs, events) && Chained(t.rules.validate, events)
    requires !WillStick(t.rules, t.limits, fs, batch) && (t.g.Bounded? ==> Short(t.rules, t.g.lineMax, batch))
    ensures out == Call(t, fs, batch, envs, clock)
    ensures out.error.None? <==> Chained(t.rules.validate, events + batch) && Lined(t.rules, batch)
    ensures out.error.None? ==> Load(out.fs) == Ok(events + batch)
  {
    out := CallSafe(t, fs, events, batch, envs, clock);
    CheckedIffChained(t, events, batch);
    if out.error.None? {
      TakenIsLoaded(t, out.fs, events, batch);
    }
  }
}
