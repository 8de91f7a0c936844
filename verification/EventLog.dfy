/** The log as the program runs it: a disk changed write by write, a catalog and a buffered
    writer changed in place, and loops over lines, segments and events. Every method is
    proved to do what the functions of `Segments` and `Migration` say, including the order
    of the writes. src/event_log.rs. */
module EventLog {
  import opened Prelude
  import opened Backend
  import opened Digests
  import opened Events
  import opened Segments
  import opened LogInvariant
  import opened AppendSafety
  import opened Migration
  import opened LogRuns
  import AppendSteps

  lemma LinesSplit(lines: seq<Line>, i: nat)
    requires i < |lines|
    ensures EventsIn(lines[i..]) == (if lines[i].EventLine? then [lines[i].event] else []) + EventsIn(lines[i + 1..])
    ensures BytesIn(lines[i..]) == (if lines[i].EventLine? then lines[i].bytes else 0) + BytesIn(lines[i + 1..])
  {
    assert lines[i..][1..] == lines[i + 1..];
  }

  /** What a scan of a segment file finds. */
  datatype SegmentTail = SegmentTail(lastEvent: Option<Event>, eventCount: nat, sizeBytes: nat)

  method ScanSegmentTail(lines: seq<Line>) returns (tail: SegmentTail)
    ensures tail.eventCount == |EventsIn(lines)| && tail.sizeBytes == BytesIn(lines)
    ensures tail.lastEvent == if EventsIn(lines) == [] then None else Some(EventsIn(lines)[|EventsIn(lines)| - 1])
  {
    var last: Option<Event>, count, size := None, 0, 0;
    ghost var seen: seq<Event> := [];
    assert lines[0..] == lines;
    for i := 0 to |lines|
      invariant EventsIn(lines) == seen + EventsIn(lines[i..]) && BytesIn(lines) == size + BytesIn(lines[i..])
      invariant count == |seen| && last == if seen == [] then None else Some(seen[|seen| - 1])
    {
      LinesSplit(lines, i);
      if lines[i].EventLine? {
        ghost var before := seen;
        seen := seen + [lines[i].event];
        assert seen + EventsIn(lines[i + 1..]) == before + ([lines[i].event] + EventsIn(lines[i + 1..]));
        count := count + 1;
        size := size + lines[i].bytes;
        last := Some(lines[i].event);
      } else {
        assert [] + EventsIn(lines[i + 1..]) == EventsIn(lines[i + 1..]);
      }
    }
    tail := SegmentTail(last, count, size);
  }

  method ReadEvents(lines: seq<Line>) returns (events: seq<Event>)
    ensures events == EventsIn(lines)
  {
    events := [];
    assert lines[0..] == lines;
    for i := 0 to |lines|
      invariant EventsIn(lines) == events + EventsIn(lines[i..])
    {
      LinesSplit(lines, i);
      if lines[i].EventLine? {
        ghost var before := events;
        events := events + [lines[i].event];
        assert events + EventsIn(lines[i + 1..]) == before + ([lines[i].event] + EventsIn(lines[i + 1..]));
      } else {
        assert [] + EventsIn(lines[i + 1..]) == EventsIn(lines[i + 1..]);
      }
    }
    assert lines[|lines|..] == [];
  }

  /** Segments in order of their start; two that overlap are refused. */
  method OrderedSegments(c: Catalog) returns (r: Result<seq<SegmentEntry>, LogError>)
    ensures r == Ordered(c)
    ensures r.Ok? ==> multiset(r.value) == multiset(c.segments) && ByStart(r.value)
    ensures r.Ok? ==> forall j :: 0 <= j < |r.value| - 1 ==> r.value[j].seqEnd < r.value[j + 1].seqStart
  {
    var sorted := SortByStart(c.segments);
    SortIsStable(c.segments);
    var i := 0;
    while i + 1 < |sorted|
      invariant 0 <= i
      invariant forall j :: 0 <= j < i && j < |sorted| - 1 ==> sorted[j + 1].seqStart > sorted[j].seqEnd
    {
      if sorted[i + 1].seqStart <= sorted[i].seqEnd {
        return Err(OverlappingSegments);
      }
      i := i + 1;
    }
    return Ok(sorted);
  }

  lemma LoadSplit(files: map<string, seq<Line>>, segments: seq<SegmentEntry>, i: nat)
    requires i < |segments|
    ensures segments[i].fileName !in files ==> LoadSegments(files, segments[i..]) == Err(MissingFile)
    ensures segments[i].fileName in files ==>
              LoadSegments(files, segments[i..])
              == match LoadSegments(files, segments[i + 1..])
                 case Err(e) => Err(e)
                 case Ok(rest) => Ok(EventsIn(files[segments[i].fileName]) + rest)
  {
    assert segments[i..][0] == segments[i] && segments[i..][1..] == segments[i + 1..];
  }

  /** `after` has one segment more than `c`: empty, open, active, and starting with `e`. */
  predicate Opened(c: Catalog, after: Catalog, e: Event, createdAt: u64) {
    && |after.segments| == |c.segments| + 1
    && (forall i :: 0 <= i < |c.segments| ==>
          after.segments[i] == c.segments[i] || after.segments[i] == c.segments[i].(sealed := true))
    && var entry := after.segments[|c.segments|];
       && after.active == Some(entry.segmentId) && entry.fileName == entry.segmentId + ".jsonl"
       && entry.namespace == e.namespace && entry.seqStart == e.seqNo && entry.firstDigest == e.digest
       && entry.lastDigest == c.headDigest && entry.createdAt == createdAt && entry.protocolVer == "1.0.0"
       && !entry.sealed && entry.eventCount == 0 && entry.sizeBytes == 0
  }

  /** `error` is the first thing wrong with the event, seen from the catalog. */
  predicate Judged(rules: Rules, c: Catalog, e: Event, error: Option<AppendError>) {
    if e.seqNo < c.nextSeq then error == Some(SequenceCollision)
    else if e.seqNo > c.nextSeq then error == Some(SequenceGap)
    else if e.prevDigest != c.headDigest then error == Some(Rejected(PrevDigestMismatch))
    else if rules.validate(e).Err? then error == Some(Rejected(rules.validate(e).error))
    else if c.namespace.Some? && c.namespace.value != e.namespace then error == Some(NamespaceBreach)
    else if rules.lineBytes(e).None? then error == Some(LineNotCanonical)
    else error == None || error == Some(Storage)
  }

  lemma EnsureOk(rules: Rules, s: Session, e: Event, bytes: nat, env: Env)
    requires HeadersPrint(rules)
    ensures EnsureSegment(rules, s, e, bytes, env).Ok?
  {
  }

  lemma EnsuredIsActive(rules: Rules, s: Session, e: Event, bytes: nat, env: Env) returns (ready: Session)
    requires EnsureSegment(rules, s, e, bytes, env).Ok?
    ensures EnsureSegment(rules, s, e, bytes, env) == Ok(ready) && ready.catalog.namespace == s.catalog.namespace
    ensures ActiveIndex(ready.catalog) < |ready.catalog.segments|
  {
    ready := EnsureSegment(rules, s, e, bytes, env).value;
    if NeedsSegment(s.catalog, bytes) {
      var rolled := Roll(rules, s, e, env.createdAt).value;
      assert rolled.catalog.active == Some(rolled.catalog.segments[|rolled.catalog.segments| - 1].segmentId);
      AppendSteps.FlushCatalog(rolled);
    }
  }

  /** One turn of the append loop judges the event as it should, and after accepting it the
      catalog speaks of that event. */
  lemma TurnJudges(rules: Rules, s: Session, e: Event, env: Env)
    ensures var p := AppendOne(rules, s, e, env);
            && Judged(rules, s.catalog, e, p.error)
            && (HeadersPrint(rules) ==> p.error != Some(Storage))
            && (p.error.None? ==> p.session.catalog.nextSeq == e.seqNo + 1 && p.session.catalog.headDigest == e.digest
                                  && p.session.catalog.namespace == Some(e.namespace))
            && (p.error.Some? ==> p.session == s)
  {
    if rules.lineBytes(e).Some? {
      var bytes := rules.lineBytes(e).value;
      if HeadersPrint(rules) {
        EnsureOk(rules, s, e, bytes, env);
      }
      if EnsureSegment(rules, s, e, bytes, env).Ok? {
        var ready := EnsuredIsActive(rules, s, e, bytes, env);
      }
    }
  }

  function Prepended(done: seq<Event>, rest: Result<seq<Event>, LogError>): Result<seq<Event>, LogError> {
    match rest
    case Err(e) => Err(e)
    case Ok(events) => Ok(done + events)
  }

  lemma PrependAll(done: seq<Event>, some: seq<Event>, rest: Result<seq<Event>, LogError>)
    ensures Prepended(done, Prepended(some, rest)) == Prepended(done + some, rest)
  {
    if rest.Ok? {
      assert done + (some + rest.value) == (done + some) + rest.value;
    }
  }

  lemma PrependNothing(rest: Result<seq<Event>, LogError>)
    ensures Prepended([], rest) == rest
  {
    if rest.Ok? {
      assert [] + rest.value == rest.value;
    }
  }

  lemma TurnIs(t: Setting, s: Session, e: Event, env: Env)
    requires Genuine(t)
    ensures t.turn(s, e, env) == AppendOne(t.rules, s, e, env)
  {
    GenuineTurn(t);
  }

  lemma LoopSplit(turn: Turn, s: Session, batch: seq<Event>, envs: nat -> Env, i: nat)
    requires i < |batch|
    ensures var p := turn(s, batch[i], envs(i));
            AppendEvents(turn, s, batch[i..], envs, i)
            == if p.error.Some? then p else AppendEvents(turn, p.session, batch[i + 1..], envs, i + 1)
  {
    assert batch[i..][0] == batch[i] && batch[i..][1..] == batch[i + 1..];
  }

  lemma LoopEnds(turn: Turn, s: Session, batch: seq<Event>, envs: nat -> Env)
    ensures AppendEvents(turn, s, batch[|batch|..], envs, |batch|) == Progress(s, None)
  {
  }

  lemma MoveSplit(rules: Rules, m: Moving, events: seq<Event>, clock: nat -> u64, i: nat)
    requires i < |events|
    ensures var next := MoveEvent(rules, m, events[i], clock(i));
            MoveEvents(rules, m, events[i..], clock, i)
            == if next.error.Some? then next else MoveEvents(rules, next, events[i + 1..], clock, i + 1)
  {
    assert events[i..][0] == events[i] && events[i..][1..] == events[i + 1..];
  }

  class AppendOnlyEventLog {
    const limits: Limits
    var disk: FileSystem
    /** The states of the disk since the current call began. */
    ghost var visited: seq<FileSystem>

    constructor (limits: Limits, disk: FileSystem)
      ensures this.limits == limits && this.disk == disk && visited == []
    {
      this.limits := limits;
      this.disk := disk;
      visited := [];
    }

    // -------------------------------------------------------------------------
    // Reading.
    // -------------------------------------------------------------------------

    method ReadCatalogReconciled(c: Catalog) returns (r: Result<Catalog, LogError>)
      ensures r == Reconcile(disk.segments, c)
    {
      if c.active.None? {
        return Ok(c);
      }
      var i := ActiveIndex(c);
      if i == |c.segments| {
        return Err(MissingActiveSegment);
      }
      if c.segments[i].fileName !in disk.segments {
        return Err(MissingFile);
      }
      var tail := ScanSegmentTail(disk.segments[c.segments[i].fileName]);
      if tail.eventCount == 0 {
        return Ok(c.(nextSeq := c.segments[i].seqStart));
      }
      var last := tail.lastEvent.value;
      var entry := c.segments[i];
      entry := entry.(seqEnd := last.seqNo);
      entry := entry.(lastDigest := last.digest);
      entry := entry.(eventCount := tail.eventCount);
      entry := entry.(sizeBytes := tail.sizeBytes);
      var reconciled := c.(segments := c.segments[i := entry]);
      reconciled := reconciled.(namespace := Some(last.namespace));
      reconciled := reconciled.(nextSeq := last.seqNo + 1);
      reconciled := reconciled.(headDigest := last.digest);
      return Ok(reconciled);
    }

    method LoadAll(segments: seq<SegmentEntry>) returns (r: Result<seq<Event>, LogError>)
      ensures r == LoadSegments(disk.segments, segments)
    {
      var events: seq<Event> := [];
      assert segments[0..] == segments;
      PrependNothing(LoadSegments(disk.segments, segments));
      for i := 0 to |segments|
        invariant LoadSegments(disk.segments, segments) == Prepended(events, LoadSegments(disk.segments, segments[i..]))
      {
        LoadSplit(disk.segments, segments, i);
        if segments[i].fileName !in disk.segments {
          return Err(MissingFile);
        }
        var more := ReadEvents(disk.segments[segments[i].fileName]);
        PrependAll(events, more, LoadSegments(disk.segments, segments[i + 1..]));
        events := events + more;
      }
      assert segments[|segments|..] == [] && events + [] == events;
      return Ok(events);
    }

    method Load() returns (r: Result<seq<Event>, LogError>)
      ensures r == Segments.Load(disk)
    {
      if disk.catalog.Some? {
        var catalog := ReadCatalogReconciled(disk.catalog.value);
        if catalog.Err? {
          return Err(catalog.error);
        }
        var segments := OrderedSegments(catalog.value);
        if segments.Err? {
          return Err(segments.error);
        }
        r := LoadAll(segments.value);
        return;
      }
      var events := ReadEvents(if disk.legacy.Some? then disk.legacy.value else []);
      return Ok(events);
    }

    method TailMetadata() returns (r: Result<Tail, LogError>)
      ensures r == Segments.TailMetadata(disk)
    {
      if disk.catalog.Some? {
        var catalog := ReadCatalogReconciled(disk.catalog.value);
        if catalog.Err? {
          return Err(catalog.error);
        }
        return Ok(Tail(catalog.value.nextSeq, catalog.value.headDigest, catalog.value.namespace));
      }
      var tail := ScanSegmentTail(if disk.legacy.Some? then disk.legacy.value else []);
      if tail.lastEvent.None? {
        return Ok(Tail(0, ZERO_DIGEST_HEX, None));
      }
      var last := tail.lastEvent.value;
      return Ok(Tail(last.seqNo + 1, last.digest, Some(last.namespace)));
    }

    // -------------------------------------------------------------------------
    // Writing. `Now` is the state of an append call in progress.
    // -------------------------------------------------------------------------

    ghost function Now(catalog: Catalog, writer: Option<Writer>, dirty: bool): Session
      reads this
    {
      Session(disk, catalog, writer, dirty, visited)
    }

    method WriteFile(file: string, lines: seq<Line>)
      modifies this
      ensures disk == WithFile(old(disk), file, lines) && visited == old(visited) + [disk]
    {
      disk := disk.(segments := disk.segments[file := lines]);
      visited := visited + [disk];
    }

    method WriteCatalog(c: Catalog)
      modifies this
      ensures disk == old(disk).(catalog := Some(c)) && visited == old(visited) + [disk]
    {
      disk := disk.(catalog := Some(c));
      visited := visited + [disk];
    }

    /** Hands over up to `n` buffered lines, oldest first. */
    method HandOver(writer: Option<Writer>, n: nat, ghost catalog: Catalog, ghost dirty: bool)
      returns (w: Option<Writer>)
      modifies this
      ensures Now(catalog, w, dirty) == Spill(old(Now(catalog, writer, dirty)), n)
    {
      w := writer;
      var left := n;
      while left > 0 && w.Some? && w.value.pending != []
        invariant Spill(Now(catalog, w, dirty), left) == Spill(old(Now(catalog, writer, dirty)), n)
        decreases left
      {
        var lines := if w.value.file in disk.segments then disk.segments[w.value.file] else [];
        WriteFile(w.value.file, lines + [w.value.pending[0]]);
        w := Some(Writer(w.value.file, w.value.pending[1..]));
        left := left - 1;
      }
    }

    method FlushWriter(writer: Option<Writer>, ghost catalog: Catalog, ghost dirty: bool) returns (w: Option<Writer>)
      modifies this
      ensures Now(catalog, w, dirty) == Flush(old(Now(catalog, writer, dirty)))
    {
      w := writer;
      if w.Some? {
        w := HandOver(w, |w.value.pending|, catalog, dirty);
      }
    }

    /** The digest of the last header, when there is a segment before. */
    method LinkDigest(rules: Rules, segments: seq<SegmentEntry>) returns (r: Result<Option<string>, AppendError>)
      ensures r == PrevSegment(rules, segments)
    {
      if segments == [] {
        return Ok(None);
      }
      var digest := rules.headerDigest(HeaderOf(segments[|segments| - 1]));
      return if digest.None? then Err(Storage) else Ok(digest);
    }

    method SealActiveSegment(c: Catalog) returns (segments: seq<SegmentEntry>)
      ensures segments == SealActive(c)
    {
      segments := c.segments;
      var i := ActiveIndex(c);
      if i < |segments| {
        segments := segments[i := segments[i].(sealed := true)];
      }
    }

    method RollSegmentIfNeeded(rules: Rules, c: Catalog, e: Event, bytes: nat, createdAt: u64,
                               ghost writer: Option<Writer>, ghost dirty: bool)
      returns (r: Result<Catalog, AppendError>)
      modifies this
      ensures !NeedsSegment(c, bytes) ==> r == Ok(c) && disk == old(disk) && visited == old(visited)
      ensures NeedsSegment(c, bytes) ==>
                match Roll(rules, old(Now(c, writer, dirty)), e, createdAt)
                case Err(err) => r == Err(err) && disk == old(disk) && visited == old(visited)
                case Ok(s) => r.Ok? && Now(r.value, writer, dirty) == s
      ensures HasSpace(c, bytes) ==> r == Ok(c) && disk == old(disk)
      ensures !HasSpace(c, bytes) && r.Ok? ==> Opened(c, r.value, e, createdAt)
    {
      NeedsSegmentIff(c, bytes);
      var i := ActiveIndex(c);
      if i < |c.segments| && c.segments[i].eventCount < c.maxEvents && c.segments[i].sizeBytes + bytes <= c.maxBytes {
        return Ok(c);
      }
      var segments := SealActiveSegment(c);
      var prev := LinkDigest(rules, segments);
      if prev.Err? {
        return Err(prev.error);
      }
      var entry := NewEntry(c, e, prev.value, createdAt);
      WriteFile(entry.fileName, [HeaderLine(HeaderOf(entry))]);
      return Ok(c.(active := Some(entry.segmentId), segments := segments + [entry]));
    }

    /** A new segment is made visible: old lines first, then the catalog. */
    method GoLive(rolled: Catalog, writer: Option<Writer>, ghost dirty: bool)
      modifies this
      ensures Now(rolled, None, dirty) == AfterRoll(old(Now(rolled, writer, dirty)))
    {
      var w := FlushWriter(writer, rolled, dirty);
      WriteCatalog(rolled);
    }

    method OpenSegment(writer: Option<Writer>, file: string, ghost catalog: Catalog, ghost dirty: bool)
      returns (w: Option<Writer>)
      modifies this
      ensures Now(catalog, w, dirty) == OpenWriter(old(Now(catalog, writer, dirty)), file) && w.Some?
    {
      w := writer;
      if w.None? || w.value.file != file {
        w := FlushWriter(w, catalog, dirty);
        WriteFile(file, if file in disk.segments then disk.segments[file] else []);
        w := Some(Writer(file, []));
      }
    }

    /** Buffers the line of an accepted event and records it in the catalog. */
    method WriteLine(c: Catalog, writer: Option<Writer>, ghost dirty: bool, e: Event, bytes: nat, env: Env)
      returns (catalog: Catalog, w: Option<Writer>, error: Option<AppendError>)
      modifies this
      ensures Progress(Now(catalog, w, dirty || error.None?), error)
              == WriteEvent(old(Now(c, writer, dirty)), e, bytes, env)
    {
      catalog, w, error := c, writer, None;
      var i := ActiveIndex(catalog);
      if i == |catalog.segments| {
        error := Some(Storage);
        return;
      }
      w := OpenSegment(w, catalog.segments[i].fileName, c, dirty);
      w := Some(Writer(w.value.file, w.value.pending + [EventLine(e, bytes)]));
      w := HandOver(w, env.spill, c, dirty);
      var entry := catalog.segments[i];
      entry := entry.(seqEnd := e.seqNo);
      entry := entry.(lastDigest := e.digest);
      entry := entry.(eventCount := entry.eventCount + 1);
      entry := entry.(sizeBytes := entry.sizeBytes + bytes);
      catalog := catalog.(segments := catalog.segments[i := entry]);
      if catalog.namespace.None? {
        catalog := catalog.(namespace := Some(e.namespace));
      }
      catalog := catalog.(nextSeq := e.seqNo + 1);
      catalog := catalog.(headDigest := e.digest);
    }

    /** A segment for the next line: the active one, or a new one gone live. */
    method PrepareSegment(rules: Rules, c: Catalog, writer: Option<Writer>, ghost dirty: bool, e: Event, bytes: nat,
                          env: Env)
      returns (r: Result<Catalog, AppendError>, w: Option<Writer>)
      modifies this
      ensures match EnsureSegment(rules, old(Now(c, writer, dirty)), e, bytes, env)
              case Err(err) => r == Err(err) && w == writer && disk == old(disk) && visited == old(visited)
              case Ok(s) => r.Ok? && Now(r.value, w, dirty) == s
    {
      w := writer;
      r := RollSegmentIfNeeded(rules, c, e, bytes, env.createdAt, writer, dirty);
      if r.Err? {
        return;
      }
      if r.value.active != c.active {
        GoLive(r.value, writer, dirty);
        w := None;
      }
    }

    /** One turn of the append loop. */
    method AppendEvent(rules: Rules, c: Catalog, writer: Option<Writer>, wasDirty: bool, e: Event, env: Env)
      returns (catalog: Catalog, w: Option<Writer>, dirty: bool, error: Option<AppendError>)
      modifies this
      ensures Progress(Now(catalog, w, dirty), error) == AppendOne(rules, old(Now(c, writer, wasDirty)), e, env)
      ensures Judged(rules, c, e, error) && (HeadersPrint(rules) ==> error != Some(Storage))
      ensures error.Some? ==> catalog == c && disk == old(disk)
      ensures error.None? ==>
                && catalog.nextSeq == e.seqNo + 1 && catalog.headDigest == e.digest
                && catalog.namespace == Some(e.namespace)
    {
      TurnJudges(rules, Now(c, writer, wasDirty), e, env);
      catalog, w, dirty, error := c, writer, wasDirty, None;
      if e.seqNo != catalog.nextSeq {
        error := Some(if e.seqNo < catalog.nextSeq then SequenceCollision else SequenceGap);
        return;
      }
      if ValidatePrevDigest(e, catalog.headDigest).Err? {
        error := Some(Rejected(PrevDigestMismatch));
        return;
      }
      var validated := rules.validate(e);
      if validated.Err? {
        error := Some(Rejected(validated.error));
        return;
      }
      if catalog.namespace.Some? && catalog.namespace.value != e.namespace {
        error := Some(NamespaceBreach);
        return;
      }
      var line := rules.lineBytes(e);
      if line.None? {
        error := Some(LineNotCanonical);
        return;
      }
      var prepared;
      prepared, w := PrepareSegment(rules, c, writer, wasDirty, e, line.value, env);
      if prepared.Err? {
        error := Some(prepared.error);
        return;
      }
      catalog, w, error := WriteLine(prepared.value, w, wasDirty, e, line.value, env);
      dirty := wasDirty || error.None?;
    }

    /** The append loop over a batch, and its end: the writer is flushed in any case, the
        catalog written only when every event was taken. */
    method AppendSegmentedUnderLock(rules: Rules, batch: seq<Event>, envs: nat -> Env, ghost t: Setting)
      returns (error: Option<AppendError>)
      requires Genuine(t) && t.rules == rules
      modifies this
      ensures Outcome(disk, visited, error) == AppendSegmented(t.turn, limits, old(disk), batch, envs)
    {
      visited := [];
      var catalog := NewCatalog(limits);
      if disk.catalog.Some? {
        var reconciled := ReadCatalogReconciled(disk.catalog.value);
        if reconciled.Err? {
          return Some(Storage);
        }
        catalog := reconciled.value;
      }
      var writer: Option<Writer>, dirty := None, false;
      error := None;
      ghost var start := Now(catalog, writer, dirty);
      assert batch[0..] == batch;
      for i := 0 to |batch|
        invariant error.None?
        invariant AppendEvents(t.turn, start, batch, envs, 0)
                  == AppendEvents(t.turn, Now(catalog, writer, dirty), batch[i..], envs, i)
      {
        LoopSplit(t.turn, Now(catalog, writer, dirty), batch, envs, i);
        TurnIs(t, Now(catalog, writer, dirty), batch[i], envs(i));
        catalog, writer, dirty, error := AppendEvent(rules, catalog, writer, dirty, batch[i], envs(i));
        if error.Some? {
          writer := FlushWriter(writer, catalog, dirty);
          return;
        }
      }
      LoopEnds(t.turn, Now(catalog, writer, dirty), batch, envs);
      writer := FlushWriter(writer, catalog, dirty);
      if dirty {
        WriteCatalog(catalog);
      }
    }

    // -------------------------------------------------------------------------
    // Migration of the old single file.
    // -------------------------------------------------------------------------

    method WriteMoved(file: string, lines: seq<Line>)
      modifies this
      ensures disk == WithMoved(old(disk), file, lines) && visited == old(visited) + [disk]
    {
      disk := disk.(migratingSegments := disk.migratingSegments[file := lines]);
      visited := visited + [disk];
    }

    method RollMovedSegment(rules: Rules, c: Catalog, e: Event, bytes: nat, createdAt: u64)
      returns (catalog: Catalog, error: Option<AppendError>)
      modifies this
      ensures Moving(disk, catalog, visited, error)
           == RollMoved(rules, Moving(old(disk), c, old(visited), None), e, bytes, createdAt)
    {
      catalog, error := c, None;
      var i := ActiveIndex(c);
      if i < |c.segments| && c.segments[i].eventCount < c.maxEvents && c.segments[i].sizeBytes + bytes <= c.maxBytes {
        return;
      }
      var segments := SealActiveSegment(c);
      var prev := LinkDigest(rules, segments);
      if prev.Err? {
        error := Some(prev.error);
        return;
      }
      var entry := NewEntry(c, e, prev.value, createdAt);
      WriteMoved(entry.fileName, [HeaderLine(HeaderOf(entry))]);
      catalog := c.(active := Some(entry.segmentId), segments := segments + [entry]);
    }

    method MoveOne(rules: Rules, c: Catalog, e: Event, createdAt: u64)
      returns (catalog: Catalog, error: Option<AppendError>)
      modifies this
      ensures Moving(disk, catalog, visited, error)
              == MoveEvent(rules, Moving(old(disk), c, old(visited), None), e, createdAt)
    {
      catalog, error := c, None;
      var line := rules.lineBytes(e);
      if line.None? {
        error := Some(LineNotCanonical);
        return;
      }
      catalog, error := RollMovedSegment(rules, catalog, e, line.value, createdAt);
      if error.Some? {
        return;
      }
      var i := ActiveIndex(catalog);
      if i == |catalog.segments| {
        error := Some(Storage);
        return;
      }
      var entry := catalog.segments[i];
      var lines := if entry.fileName in disk.migratingSegments then disk.migratingSegments[entry.fileName] else [];
      WriteMoved(entry.fileName, lines + [EventLine(e, line.value)]);
      entry := entry.(seqEnd := e.seqNo);
      entry := entry.(lastDigest := e.digest);
      entry := entry.(eventCount := entry.eventCount + 1);
      entry := entry.(sizeBytes := entry.sizeBytes + line.value);
      catalog := catalog.(segments := catalog.segments[i := entry]);
      catalog := catalog.(namespace := Some(e.namespace));
      catalog := catalog.(nextSeq := e.seqNo + 1);
      catalog := catalog.(headDigest := e.digest);
    }

    method PublishMoved(c: Catalog)
      modifies this
      ensures Moving(disk, c, visited, None) == Publish(Moving(old(disk), c, old(visited), None))
    {
      disk := disk.(migratingCatalog := Some(c));
      visited := visited + [disk];
      disk := disk.(segments := map[]);
      visited := visited + [disk];
      disk := disk.(segments := disk.migratingSegments, migratingSegments := map[]);
      visited := visited + [disk];
      disk := disk.(catalog := disk.migratingCatalog, migratingCatalog := None);
      visited := visited + [disk];
      if disk.legacy.Some? {
        disk := disk.(legacy := None, legacyBackup := disk.legacy);
      }
      visited := visited + [disk];
    }

    method RemoveScratch()
      requires visited == []
      modifies this
      ensures Moving(disk, NewCatalog(limits), visited, None) == ClearScratch(limits, old(disk))
    {
      disk := disk.(migratingSegments := map[]);
      visited := visited + [disk];
      disk := disk.(migratingCatalog := None);
      visited := visited + [disk];
    }

    method MigrateLegacyLogUnderLock(rules: Rules, clock: nat -> u64)
      returns (catalog: Catalog, error: Option<AppendError>)
      modifies this
      ensures Moving(disk, catalog, visited, error) == Migrate(rules, limits, old(disk), clock)
    {
      visited := [];
      catalog, error := NewCatalog(limits), None;
      if disk.catalog.Some? {
        return;
      }
      var events := ReadEvents(if disk.legacy.Some? then disk.legacy.value else []);
      RemoveScratch();
      ghost var start := Moving(disk, catalog, visited, None);
      assert events[0..] == events;
      for i := 0 to |events|
        invariant error.None?
        invariant MoveEvents(rules, start, events, clock, 0)
                  == MoveEvents(rules, Moving(disk, catalog, visited, None), events[i..], clock, i)
      {
        MoveSplit(rules, Moving(disk, catalog, visited, None), events, clock, i);
        catalog, error := MoveOne(rules, catalog, events[i], clock(i));
        if error.Some? {
          return;
        }
      }
      PublishMoved(catalog);
    }

    // -------------------------------------------------------------------------
    // The whole call.
    // -------------------------------------------------------------------------

    method AppendBatch(rules: Rules, batch: seq<Event>, envs: nat -> Env, clock: nat -> u64, ghost t: Setting)
      returns (error: Option<AppendError>)
      requires Genuine(t) && t.rules == rules && t.limits == limits
      modifies this
      ensures Outcome(disk, visited, error) == Call(t, old(disk), batch, envs, clock)
    {
      visited := [];
      if batch == [] {
        return None;
      }
      if disk.catalog.None? && disk.legacy.Some? && disk.legacy.value != [] {
        var catalog;
        catalog, error := MigrateLegacyLogUnderLock(rules, clock);
        if error.Some? {
          return;
        }
        ghost var moved := visited;
        error := AppendSegmentedUnderLock(rules, batch, envs, t);
        visited := moved + visited;
        return;
      }
      error := AppendSegmentedUnderLock(rules, batch, envs, t);
    }
  }
}
