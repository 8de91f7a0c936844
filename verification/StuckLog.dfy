/** The one way to break a log: a crash leaves an empty first segment, and the next event
    does not fit in it. This module follows one append call write by write.
    src/event_log.rs. */
module StuckLog {
  import opened Prelude
  import opened Events
  import opened Segments
  import opened LogInvariant
  import opened LogWrites
  import opened AppendSafety
  import opened AppendSteps
  import opened AppendResult

  /** Two segments start at 0. */
  predicate Broken(c: Catalog) {
    |c.segments| >= 2 && c.segments[0].seqStart == 0 && c.segments[1].seqStart == 0
  }

  predicate BrokenDisk(fs: FileSystem) {
    fs.catalog.Some? && Broken(fs.catalog.value)
  }

  /** The trace starts with `head`, and every state after that is broken. */
  predicate BrokenAfter(trace: seq<FileSystem>, head: seq<FileSystem>) {
    head <= trace && forall j :: |head| <= j < |trace| ==> BrokenDisk(trace[j])
  }

  predicate BrokenSession(s: Session, head: seq<FileSystem>) {
    Broken(s.catalog) && BrokenDisk(s.fs) && BrokenAfter(s.trace, head)
  }

  lemma FrontStays(a: SegmentEntry, rest: seq<SegmentEntry>)
    requires a.seqStart == 0
    ensures InsertByStart(a, rest) == [a] + rest
  {
  }

  /** A broken log does not open. */
  lemma BrokenNeverLoads(fs: FileSystem)
    requires BrokenDisk(fs)
    ensures Load(fs).Err?
  {
    var c := fs.catalog.value;
    if Reconcile(fs.segments, c).Ok? {
      var r := Reconcile(fs.segments, c).value;
      ReconcileBroken(fs.segments, c);
      var a, b := r.segments[0], r.segments[1];
      var tail := SortByStart(r.segments[1..][1..]);
      FrontStays(b, tail);
      FrontStays(a, [b] + tail);
      assert SortByStart(r.segments) == [a] + ([b] + tail);
      assert SortByStart(r.segments)[0 + 1].seqStart <= SortByStart(r.segments)[0].seqEnd;
    }
  }

  lemma ReconcileBroken(files: map<string, seq<Line>>, c: Catalog)
    requires Broken(c) && Reconcile(files, c).Ok?
    ensures Broken(Reconcile(files, c).value)
  {
  }

  // ---------------------------------------------------------------------------
  // Every further write keeps a broken log broken.
  // ---------------------------------------------------------------------------

  lemma VisitBroken(s: Session, fs: FileSystem, head: seq<FileSystem>)
    requires BrokenSession(s, head) && BrokenDisk(fs)
    ensures BrokenSession(Visit(s, fs), head)
  {
    assert head <= s.trace + [fs];
  }

  lemma {:induction false} SpillBroken(s: Session, n: nat, head: seq<FileSystem>)
    requires BrokenSession(s, head)
    ensures BrokenSession(Spill(s, n), head)
    decreases n
  {
    if n != 0 && s.writer.Some? && s.writer.value.pending != [] {
      VisitBroken(s, SpillOne(s).fs, head);
      SpillBroken(SpillOne(s), n - 1, head);
    }
  }

  lemma FlushBroken(s: Session, head: seq<FileSystem>)
    requires BrokenSession(s, head)
    ensures BrokenSession(Flush(s), head)
  {
    if s.writer.Some? {
      SpillBroken(s, |s.writer.value.pending|, head);
    }
  }

  lemma AfterRollBroken(s: Session, head: seq<FileSystem>)
    requires BrokenSession(s, head)
    ensures BrokenSession(AfterRoll(s), head)
  {
    FlushBroken(s, head);
    FlushCatalog(s);
    VisitBroken(Flush(s).(writer := None), AfterRoll(s).fs, head);
  }

  lemma RollBroken(rules: Rules, s: Session, e: Event, createdAt: u64, head: seq<FileSystem>)
    requires BrokenSession(s, head) && Roll(rules, s, e, createdAt).Ok?
    ensures BrokenSession(Roll(rules, s, e, createdAt).value, head)
  {
    VisitBroken(s, Roll(rules, s, e, createdAt).value.fs, head);
  }

  lemma EnsureBroken(rules: Rules, s: Session, e: Event, bytes: nat, env: Env, head: seq<FileSystem>)
    requires BrokenSession(s, head)
    ensures EnsureSegment(rules, s, e, bytes, env).Ok? ==>
              BrokenSession(EnsureSegment(rules, s, e, bytes, env).value, head)
  {
    if NeedsSegment(s.catalog, bytes) && Roll(rules, s, e, env.createdAt).Ok? {
      RollBroken(rules, s, e, env.createdAt, head);
      AfterRollBroken(Roll(rules, s, e, env.createdAt).value, head);
    }
  }

  lemma OpenBroken(s: Session, file: string, head: seq<FileSystem>)
    requires BrokenSession(s, head)
    ensures BrokenSession(OpenWriter(s, file), head) && OpenWriter(s, file).writer.Some?
  {
    FlushBroken(s, head);
    VisitBroken(Flush(s), WithFile(Flush(s).fs, file, FileLines(Flush(s).fs, file)), head);
  }

  lemma WriteBroken(s: Session, e: Event, bytes: nat, env: Env, head: seq<FileSystem>)
    requires BrokenSession(s, head)
    ensures BrokenSession(WriteEvent(s, e, bytes, env).session, head)
  {
    var i := ActiveIndex(s.catalog);
    if i < |s.catalog.segments| {
      OpenBroken(s, s.catalog.segments[i].fileName, head);
      SpillBroken(Buffer(OpenWriter(s, s.catalog.segments[i].fileName), EventLine(e, bytes)), env.spill, head);
    }
  }

  lemma TurnBroken(rules: Rules, s: Session, e: Event, env: Env, head: seq<FileSystem>)
    requires BrokenSession(s, head)
    ensures BrokenSession(AppendOne(rules, s, e, env).session, head)
  {
    var bytes := LineLength(rules, e);
    EnsureBroken(rules, s, e, bytes, env, head);
    if EnsureSegment(rules, s, e, bytes, env).Ok? {
      WriteBroken(EnsureSegment(rules, s, e, bytes, env).value, e, bytes, env, head);
    }
  }

  ghost predicate KeepsBroken(turn: Turn, s: Session, e: Event, env: Env, head: seq<FileSystem>) {
    BrokenSession(s, head) ==> BrokenSession(turn(s, e, env).session, head)
  }

  lemma {:induction false} LoopBroken(turn: Turn, s: Session, batch: seq<Event>, envs: nat -> Env, at: nat,
                                      head: seq<FileSystem>)
    requires BrokenSession(s, head) && forall s, e, env :: KeepsBroken(turn, s, e, env, head)
    ensures BrokenSession(AppendEvents(turn, s, batch, envs, at).session, head)
    decreases |batch|
  {
    if batch != [] {
      assert KeepsBroken(turn, s, batch[0], envs(at), head);
      var p := turn(s, batch[0], envs(at));
      if p.error.None? {
        LoopBroken(turn, p.session, batch[1..], envs, at + 1, head);
      }
    }
  }

  lemma CloseBroken(p: Progress, head: seq<FileSystem>)
    requires BrokenSession(p.session, head)
    ensures BrokenDisk(Close(p).fs) && BrokenAfter(Close(p).trace, head)
  {
    FlushBroken(p.session, head);
    FlushCatalog(p.session);
    VisitBroken(Flush(p.session), SaveCatalog(Flush(p.session)).fs, head);
  }

  lemma TurnsKeepBroken(t: Setting, head: seq<FileSystem>)
    requires Genuine(t)
    ensures forall s, e, env :: KeepsBroken(t.turn, s, e, env, head)
  {
    GenuineTurn(t);
    forall s: Session, e: Event, env: Env ensures KeepsBroken(t.turn, s, e, env, head) {
      if BrokenSession(s, head) {
        TurnBroken(t.rules, s, e, env, head);
      }
    }
  }

  /** On a broken log every state of an append call is broken. */
  lemma SegmentedBroken(t: Setting, fs: FileSystem, batch: seq<Event>, envs: nat -> Env)
    requires Genuine(t) && BrokenDisk(fs)
    ensures var out := AppendSegmented(t.turn, t.limits, fs, batch, envs);
            BrokenDisk(out.fs) && BrokenAfter(out.trace, [])
  {
    if View(fs, t.limits).Ok? {
      ReconcileBroken(fs.segments, fs.catalog.value);
      TurnsKeepBroken(t, []);
      var s := Session(fs, View(fs, t.limits).value, None, false, []);
      LoopBroken(t.turn, s, batch, envs, 0, []);
      CloseBroken(AppendEvents(t.turn, s, batch, envs, 0), []);
    }
  }

  // ---------------------------------------------------------------------------
  // A stuck call: one harmless write, then the catalog that breaks the log.
  // ---------------------------------------------------------------------------

  /** A stuck catalog is a lone empty segment at 0. */
  lemma StuckShape(t: Setting, c: Catalog, events: seq<Event>, bytes: nat)
    requires Describes(t.rules, t.g, c, events) && Stuck(c, bytes)
    ensures events == [] && |c.segments| == 1 && c.segments[0].seqStart == 0
  {
    assert EntryOk(t.rules, t.g, c, 0, events);
  }

  /** The disk after the first write of a call that rolls: the header of a new segment. */
  function WithHeader(rules: Rules, fs: FileSystem, c: Catalog, e: Event, createdAt: u64): FileSystem {
    match PrevSegment(rules, SealActive(c))
    case Err(_) => fs
    case Ok(prev) =>
      var entry := NewEntry(c, e, prev, createdAt);
      WithFile(fs, entry.fileName, [HeaderLine(HeaderOf(entry))])
  }

  lemma RollBreaks(t: Setting, s: Session, events: seq<Event>, e: Event, env: Env)
    requires HeadersPrint(t.rules) && Describes(t.rules, t.g, s.catalog, events)
    requires Stuck(s.catalog, LineLength(t.rules, e))
    requires e.seqNo == 0 && s.writer.None? && s.trace == []
    ensures var ready := EnsureSegment(t.rules, s, e, LineLength(t.rules, e), env);
            ready.Ok? && BrokenSession(ready.value, [WithHeader(t.rules, s.fs, s.catalog, e, env.createdAt)])
  {
    StuckShape(t, s.catalog, events, LineLength(t.rules, e));
    var prev := PrevSegment(t.rules, SealActive(s.catalog)).value;
    RolledEntries(t.rules, t.g, s.catalog, events, NewEntry(s.catalog, e, prev, env.createdAt));
    NewNameIsFresh(t.rules, t.g, s.catalog, events, e.seqNo, |s.catalog.segments| - 1);
  }

  lemma FirstTurnBreaks(t: Setting, s: Session, events: seq<Event>, e: Event, env: Env)
    requires HeadersPrint(t.rules) && Describes(t.rules, t.g, s.catalog, events)
    requires Stuck(s.catalog, LineLength(t.rules, e))
    requires FileAccept(t.rules, [], e).Ok? && s.writer.None? && s.trace == []
    ensures BrokenSession(AppendOne(t.rules, s, e, env).session,
                          [WithHeader(t.rules, s.fs, s.catalog, e, env.createdAt)])
  {
    StuckShape(t, s.catalog, events, LineLength(t.rules, e));
    SameVerdict(t, s.catalog, events, e);
    AcceptedOne(t.rules, s, events, e, env);
    RollBreaks(t, s, events, e, env);
    WriteBroken(EnsureSegment(t.rules, s, e, LineLength(t.rules, e), env).value, e, LineLength(t.rules, e), env,
                [WithHeader(t.rules, s.fs, s.catalog, e, env.createdAt)]);
  }

  lemma GenuineFirst(t: Setting, s: Session, events: seq<Event>, e: Event, env: Env)
    requires Genuine(t) && Describes(t.rules, t.g, s.catalog, events) && Stuck(s.catalog, LineLength(t.rules, e))
    requires FileAccept(t.rules, [], e).Ok? && s.writer.None? && s.trace == []
    ensures BrokenSession(t.turn(s, e, env).session, [WithHeader(t.rules, s.fs, s.catalog, e, env.createdAt)])
  {
    GenuineTurn(t);
    FirstTurnBreaks(t, s, events, e, env);
  }

  /** The header alone does no harm: the log still holds what it held, nothing. */
  lemma HeaderAloneIsSafe(t: Setting, fs: FileSystem, c: Catalog, events: seq<Event>, e: Event, createdAt: u64)
    requires HeadersPrint(t.rules) && Durable(t.rules, t.g, t.limits, fs, events) && fs.catalog.Some?
    requires View(fs, t.limits) == Ok(c)
    ensures Durable(t.rules, t.g, t.limits, WithHeader(t.rules, fs, c, e, createdAt), events)
  {
    if PrevSegment(t.rules, SealActive(c)).Ok? {
      var entry := NewEntry(c, e, PrevSegment(t.rules, SealActive(c)).value, createdAt);
      assert events[..|events|] == events;
      DurableIs(t.rules, t.g, t.limits, fs, events);
      DiskOkHolds(t, fs, c, events, |events|);
      DiskKeepsHeader(t, fs, c, events, |events|, e.seqNo, [HeaderLine(HeaderOf(entry))]);
      DiskOkHolds(t, WithHeader(t.rules, fs, c, e, createdAt), c, events, |events|);
    }
  }

  lemma StuckLoop(t: Setting, s: Session, events: seq<Event>, batch: seq<Event>, envs: nat -> Env)
    requires Genuine(t) && Describes(t.rules, t.g, s.catalog, events) && s.writer.None? && s.trace == []
    requires batch != [] && FileAccept(t.rules, [], batch[0]).Ok? && Stuck(s.catalog, LineLength(t.rules, batch[0]))
    ensures BrokenSession(AppendEvents(t.turn, s, batch, envs, 0).session,
                          [WithHeader(t.rules, s.fs, s.catalog, batch[0], envs(0).createdAt)])
  {
    var head := [WithHeader(t.rules, s.fs, s.catalog, batch[0], envs(0).createdAt)];
    GenuineFirst(t, s, events, batch[0], envs(0));
    TurnsKeepBroken(t, head);
    var p := t.turn(s, batch[0], envs(0));
    if p.error.None? {
      LoopBroken(t.turn, p.session, batch[1..], envs, 1, head);
    }
  }

  /** A stuck call, write by write: after the first write the log still opens and is empty,
      after every later one it is broken. */
  lemma StuckSegmented(t: Setting, fs: FileSystem, events: seq<Event>, batch: seq<Event>, envs: nat -> Env)
    returns (out: Outcome)
    requires Genuine(t) && Durable(t.rules, t.g, t.limits, fs, events) && WillStick(t.rules, t.limits, fs, batch)
    ensures events == [] && fs.catalog.Some?
    ensures out == AppendSegmented(t.turn, t.limits, fs, batch, envs) && BrokenDisk(out.fs)
    ensures out.trace != [] && Durable(t.rules, t.g, t.limits, out.trace[0], [])
    ensures forall j :: 1 <= j < |out.trace| ==> BrokenDisk(out.trace[j])
  {
    out := AppendSegmented(t.turn, t.limits, fs, batch, envs);
    DurableIs(t.rules, t.g, t.limits, fs, events);
    var c := View(fs, t.limits).value;
    var s := Session(fs, c, None, false, []);
    StuckShape(t, c, events, LineLength(t.rules, batch[0]));
    var head := [WithHeader(t.rules, fs, c, batch[0], envs(0).createdAt)];
    StuckLoop(t, s, events, batch, envs);
    CloseBroken(AppendEvents(t.turn, s, batch, envs, 0), head);
    HeadersOfGenuine(t);
    HeaderAloneIsSafe(t, fs, c, events, batch[0], envs(0).createdAt);
    assert head[0] == out.trace[0];
  }

  lemma HeadersOfGenuine(t: Setting)
    requires Genuine(t)
    ensures HeadersPrint(t.rules)
  {
    GenuineTurn(t);
  }
}
