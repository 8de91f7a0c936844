/** Moving a log from its old single file into segments, step by step:
    `migrate_legacy_log_under_lock` in src/event_log.rs. */
module Migration {
  import opened Prelude
  import opened Backend
  import opened Events
  import opened Segments
  import opened LogInvariant
  import opened LogWrites
  import opened AppendSafety

  /** A migration in progress, and the error that ended it if there was one. */
  datatype Moving = Moving(fs: FileSystem, catalog: Catalog, trace: seq<FileSystem>, error: Option<AppendError>)

  function Seen(m: Moving, fs: FileSystem): Moving {
    m.(fs := fs, trace := m.trace + [fs])
  }

  function WithMoved(fs: FileSystem, file: string, lines: seq<Line>): FileSystem {
    fs.(migratingSegments := fs.migratingSegments[file := lines])
  }

  /** `roll_segment_if_needed_for_dir`. */
  function RollMoved(rules: Rules, m: Moving, e: Event, bytes: nat, createdAt: u64): Moving {
    if !NeedsSegment(m.catalog, bytes) then m
    else
      match PrevSegment(rules, SealActive(m.catalog))
      case Err(err) => m.(error := Some(err))
      case Ok(prev) =>
        var entry := NewEntry(m.catalog, e, prev, createdAt);
        Seen(m, WithMoved(m.fs, entry.fileName, [HeaderLine(HeaderOf(entry))])).(catalog := Rolled(m.catalog, entry))
  }

  function PutLine(m: Moving, e: Event, bytes: nat): Moving {
    var i := ActiveIndex(m.catalog);
    if i == |m.catalog.segments| then m.(error := Some(Storage))
    else
      var file := m.catalog.segments[i].fileName;
      var fs := m.fs.(migratingSegments := WithLine(m.fs.migratingSegments, file, EventLine(e, bytes)));
      Seen(m, fs).(catalog := Record(m.catalog, i, e, bytes).(namespace := Some(e.namespace)))
  }

  function MoveEvent(rules: Rules, m: Moving, e: Event, createdAt: u64): Moving {
    match rules.lineBytes(e)
    case None => m.(error := Some(LineNotCanonical))
    case Some(bytes) =>
      var rolled := RollMoved(rules, m, e, bytes, createdAt);
      if rolled.error.Some? then rolled else PutLine(rolled, e, bytes)
  }

  function MoveEvents(rules: Rules, m: Moving, events: seq<Event>, clock: nat -> u64, at: nat): Moving
    decreases |events|
  {
    if events == [] then m
    else
      var next := MoveEvent(rules, m, events[0], clock(at));
      if next.error.Some? then next else MoveEvents(rules, next, events[1..], clock, at + 1)
  }

  /** Leftovers of an earlier attempt go first. */
  function ClearScratch(limits: Limits, fs: FileSystem): Moving {
    var fs1 := fs.(migratingSegments := map[]);
    var fs2 := fs1.(migratingCatalog := None);
    Moving(fs2, NewCatalog(limits), [fs1, fs2], None)
  }

  /** The moved segments take the place of the segments directory, the moved catalog that of
      the catalog, and the old file is put aside. */
  function Publish(m: Moving): Moving {
    var fs1 := m.fs.(migratingCatalog := Some(m.catalog));
    var fs2 := fs1.(segments := map[]);
    var fs3 := fs2.(segments := fs1.migratingSegments, migratingSegments := map[]);
    var fs4 := fs3.(catalog := fs3.migratingCatalog, migratingCatalog := None);
    var fs5 := if fs4.legacy.None? then fs4 else fs4.(legacy := None, legacyBackup := fs4.legacy);
    m.(fs := fs5, trace := m.trace + [fs1, fs2, fs3, fs4, fs5])
  }

  function Migrate(rules: Rules, limits: Limits, fs: FileSystem, clock: nat -> u64): Moving {
    if fs.catalog.Some? then Moving(fs, NewCatalog(limits), [], None)
    else
      var moved := MoveEvents(rules, ClearScratch(limits, fs), EventsIn(LegacyLines(fs)), clock, 0);
      if moved.error.Some? then moved else Publish(moved)
  }

  // ---------------------------------------------------------------------------
  // Until the catalog is in place the old file is what counts.
  // ---------------------------------------------------------------------------

  ghost predicate AllDurable(t: Setting, trace: seq<FileSystem>, events: seq<Event>) {
    forall j :: 0 <= j < |trace| ==> HoldsFirst(t, trace[j], events, |events|)
  }

  /** The first `n` events have been moved, and nothing else has been touched. */
  ghost predicate Moved(t: Setting, m: Moving, legacy: Option<seq<Line>>, events: seq<Event>, n: nat) {
    && n <= |events| && m.error.None?
    && m.fs.catalog.None? && m.fs.legacy == legacy
    && Exact(t.rules, t.g, m.fs.migratingSegments, m.catalog, events[..n])
    && (n == 0 ==> m.catalog.segments == [])
    && AllDurable(t, m.trace, events)
  }

  /** The old file holds exactly these events, numbered from 0. */
  ghost predicate LegacyHolds(t: Setting, legacy: Option<seq<Line>>, events: seq<Event>) {
    && EventsIn(if legacy.Some? then legacy.value else []) == events
    && Sequenced(events) && Lined(t.rules, events)
    && (t.g.Bounded? ==>
          1 <= t.limits.maxEvents && t.g.lineMax <= t.limits.maxBytes && Short(t.rules, t.g.lineMax, events))
  }

  lemma LegacyCounts(t: Setting, fs: FileSystem, events: seq<Event>)
    requires fs.catalog.None? && LegacyHolds(t, fs.legacy, events)
    ensures HoldsFirst(t, fs, events, |events|)
  {
    HoldsFirstIs(t, fs, events, |events|);
    assert events[..|events|] == events;
  }

  lemma RollMovedKeeps(t: Setting, m: Moving, legacy: Option<seq<Line>>, events: seq<Event>, n: nat, createdAt: u64)
    requires HeadersPrint(t.rules) && LegacyHolds(t, legacy, events) && Moved(t, m, legacy, events, n) && n < |events|
    ensures var bytes := LineLength(t.rules, events[n]);
            var r := RollMoved(t.rules, m, events[n], bytes, createdAt);
            && r.error.None? && r.fs.catalog.None? && r.fs.legacy == legacy
            && Exact(t.rules, t.g, r.fs.migratingSegments, r.catalog, events[..n])
            && HasRoom(t.g, r.catalog, bytes) && AllDurable(t, r.trace, events)
  {
    var bytes := LineLength(t.rules, events[n]);
    var done := events[..n];
    ActiveIsLast(t.rules, t.g, m.catalog, done);
    if NeedsSegment(m.catalog, bytes) {
      var prev := PrevSegment(t.rules, SealActive(m.catalog)).value;
      MovedMayRoll(t, m.catalog, events, n);
      MovedRolls(t, m.fs.migratingSegments, m.catalog, done, events[n], prev, createdAt);
      LegacyCounts(t, RollMoved(t.rules, m, events[n], bytes, createdAt).fs, events);
    }
  }

  lemma MovedMayRoll(t: Setting, c: Catalog, events: seq<Event>, n: nat)
    requires n < |events| && Describes(t.rules, t.g, c, events[..n]) && (n == 0 ==> c.segments == [])
    requires NeedsSegment(c, LineLength(t.rules, events[n]))
    requires t.g.Bounded? ==> LineLength(t.rules, events[n]) <= t.g.lineMax
    ensures MayRoll(t.g, c, events[..n])
  {
    if c.segments != [] {
      ActiveIsLast(t.rules, t.g, c, events[..n]);
      assert EntryOk(t.rules, t.g, c, |c.segments| - 1, events[..n]);
      assert Slice(events[..n], n, n) == [];
    }
  }

  lemma MovedRolls(t: Setting, files: map<string, seq<Line>>, c: Catalog, done: seq<Event>, e: Event,
                   prev: Option<string>, createdAt: u64)
    requires Exact(t.rules, t.g, files, c, done) && e.seqNo == |done| && MayRoll(t.g, c, done)
    requires PrevSegment(t.rules, SealActive(c)) == Ok(prev)
    requires t.g.Bounded? ==> LineLength(t.rules, e) <= t.g.lineMax
    ensures var entry := NewEntry(c, e, prev, createdAt);
            && Exact(t.rules, t.g, files[entry.fileName := [HeaderLine(HeaderOf(entry))]], Rolled(c, entry), done)
            && HasRoom(t.g, Rolled(c, entry), LineLength(t.rules, e))
  {
    var entry := NewEntry(c, e, prev, createdAt);
    HeaderKeeps(t.rules, t.g, files, c, done, e.seqNo, [HeaderLine(HeaderOf(entry))]);
    RollKeeps(t.rules, t.g, c, done, e, prev, createdAt);
    RolledStored(t.rules, t.g, files[entry.fileName := [HeaderLine(HeaderOf(entry))]], c, done, entry);
    RolledEntries(t.rules, t.g, c, done, entry);
  }

  lemma LineMoves(t: Setting, files: map<string, seq<Line>>, c: Catalog, events: seq<Event>, n: nat)
    requires n < |events| && Exact(t.rules, t.g, files, c, events[..n]) && events[n].seqNo == n
    requires t.rules.lineBytes(events[n]).Some? && HasRoom(t.g, c, LineLength(t.rules, events[n]))
    ensures ActiveIndex(c) == |c.segments| - 1
    ensures var bytes := LineLength(t.rules, events[n]);
            Exact(t.rules, t.g, WithLine(files, ActiveFile(c), EventLine(events[n], bytes)),
                  Recorded(c, events[n], bytes).(namespace := Some(events[n].namespace)), events[..n + 1])
  {
    assert events[..n + 1] == events[..n] + [events[n]];
    ActiveIsLast(t.rules, t.g, c, events[..n]);
    StoredGrows(t.rules, t.g, files, c, events[..n], events[n]);
    RecordWithNamespace(t.rules, t.g, c, events[..n], events[n]);
  }

  /** One event moves from the old file into the segments being built. */
  lemma MoveKeeps(t: Setting, m: Moving, legacy: Option<seq<Line>>, events: seq<Event>, n: nat, createdAt: u64)
    requires HeadersPrint(t.rules) && LegacyHolds(t, legacy, events) && Moved(t, m, legacy, events, n) && n < |events|
    ensures Moved(t, MoveEvent(t.rules, m, events[n], createdAt), legacy, events, n + 1)
  {
    RollMovedKeeps(t, m, legacy, events, n, createdAt);
    var bytes := LineLength(t.rules, events[n]);
    var r := RollMoved(t.rules, m, events[n], bytes, createdAt);
    LineMoves(t, r.fs.migratingSegments, r.catalog, events, n);
    LegacyCounts(t, PutLine(r, events[n], bytes).fs, events);
  }

  lemma {:induction false} MoveAll(t: Setting, m: Moving, legacy: Option<seq<Line>>, events: seq<Event>, n: nat,
                                   clock: nat -> u64, at: nat)
    requires HeadersPrint(t.rules) && LegacyHolds(t, legacy, events) && Moved(t, m, legacy, events, n)
    ensures Moved(t, MoveEvents(t.rules, m, events[n..], clock, at), legacy, events, |events|)
    decreases |events| - n
  {
    if n < |events| {
      assert events[n..][0] == events[n] && events[n..][1..] == events[n + 1..];
      MoveKeeps(t, m, legacy, events, n, clock(at));
      MoveAll(t, MoveEvent(t.rules, m, events[n], clock(at)), legacy, events, n + 1, clock, at + 1);
    }
  }

  lemma PublishKeeps(t: Setting, m: Moving, events: seq<Event>)
    requires LegacyHolds(t, m.fs.legacy, events) && Moved(t, m, m.fs.legacy, events, |events|)
    ensures var p := Publish(m);
            && p.error.None? && AllDurable(t, p.trace, events)
            && p.fs.catalog == Some(m.catalog) && p.fs.legacy.None?
            && Exact(t.rules, t.g, p.fs.segments, m.catalog, events)
            && p.catalog == m.catalog
  {
    assert events[..|events|] == events;
    ReconcileExact(t.rules, t.g, m.fs.migratingSegments, m.catalog, events);
    var fs1 := m.fs.(migratingCatalog := Some(m.catalog));
    var fs2 := fs1.(segments := map[]);
    var fs3 := fs2.(segments := fs1.migratingSegments, migratingSegments := map[]);
    LegacyCounts(t, fs1, events);
    LegacyCounts(t, fs2, events);
    LegacyCounts(t, fs3, events);
    var fs4 := fs3.(catalog := fs3.migratingCatalog, migratingCatalog := None);
    HoldsFirstIs(t, fs4, events, |events|);
    HoldsFirstIs(t, Publish(m).fs, events, |events|);
  }

  /** Migration keeps the content and is safe to interrupt: after each of its steps the log
      holds exactly the old events, and the finished catalog is exact for them. */
  lemma MigrationSafe(t: Setting, fs: FileSystem, events: seq<Event>, clock: nat -> u64)
    requires HeadersPrint(t.rules) && fs.catalog.None? && Durable(t.rules, t.g, t.limits, fs, events)
    ensures var m := Migrate(t.rules, t.limits, fs, clock);
            && m.error.None? && AllDurable(t, m.trace, events)
            && m.fs.catalog == Some(m.catalog) && m.fs.legacy.None?
            && Exact(t.rules, t.g, m.fs.segments, m.catalog, events)
            && (events == [] ==> m.catalog.segments == [])
  {
    DurableIs(t.rules, t.g, t.limits, fs, events);
    var start := ClearScratch(t.limits, fs);
    LegacyCounts(t, start.trace[0], events);
    LegacyCounts(t, start.fs, events);
    assert events[..0] == [] && events[0..] == events;
    MoveAll(t, start, fs.legacy, events, 0, clock, 0);
    PublishKeeps(t, MoveEvents(t.rules, start, events, clock, 0), events);
  }
}
