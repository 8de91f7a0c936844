/** The turns of the append loop and the end of the call, each kept safe.
    `append_segmented_under_lock` and `roll_segment_if_needed` in src/event_log.rs. */
module AppendSteps {
  import opened Prelude
  import opened Events
  import opened Segments
  import opened LogInvariant
  import opened LogWrites
  import opened AppendSafety

  /** The catalog holds nothing but an empty first segment, and the next line does not fit
      in it: a second segment would have to start at 0 as well. */
  predicate Stuck(c: Catalog, bytes: nat) {
    c.nextSeq == 0 && c.segments != [] && NeedsSegment(c, bytes)
  }

  // ---------------------------------------------------------------------------
  // Starting a segment.
  // ---------------------------------------------------------------------------

  lemma SameCount(rules: Rules, r: Catalog, events: seq<Event>)
    ensures |CatchUp(rules, r, events).segments| == |r.segments|
  {
    if r.segments != [] {
      CatchUpGrows(rules, r, events);
    }
  }

  lemma DiskKeepsHeader(t: Setting, fs: FileSystem, r: Catalog, all: seq<Event>, d: nat, start: nat, lines: seq<Line>)
    requires DiskOk(t, fs, r, all, d)
    ensures DiskOk(t, WithFile(fs, FileName(SegmentId(start, |r.segments|)), lines), r, all, d)
  {
    DiskOkHolds(t, fs, r, all, d);
    HeaderKeeps(t.rules, t.g, fs.segments, r, all[..d], start, lines);
    if fs.catalog.Some? {
      ReconcileShape(fs.segments, fs.catalog.value);
      HeaderUnread(t.rules, t.g, fs.segments, fs.catalog.value, all[..d], start, lines);
    }
    HoldsFirstIs(t, fs, all, d);
    HoldsFirstIs(t, WithFile(fs, FileName(SegmentId(start, |r.segments|)), lines), all, d);
    DiskOkHolds(t, WithFile(fs, FileName(SegmentId(start, |r.segments|)), lines), r, all, d);
  }

  /** Writing the header of the next segment changes nothing the catalog on disk can see. */
  lemma HeaderVisitKeeps(t: Setting, s: Session, mem: Catalog, r: Catalog, all: seq<Event>, lo: nat, d: nat, n: nat,
                         start: nat, lines: seq<Line>)
    requires Tracks(t, s, mem, r, all, lo, d, n)
    ensures Tracks(t, Visit(s, WithFile(s.fs, FileName(SegmentId(start, |mem.segments|)), lines)),
                   mem, r, all, lo, d, n)
  {
    SameCount(t.rules, r, all[d..n]);
    DiskKeepsHeader(t, s.fs, r, all, d, start, lines);
    DiskOkHolds(t, WithFile(s.fs, FileName(SegmentId(start, |mem.segments|)), lines), r, all, d);
    AddVisit(t, s.trace, WithFile(s.fs, FileName(SegmentId(start, |mem.segments|)), lines), all, lo, d, d);
  }

  lemma AnyCatalog(t: Setting, s: Session, c: Catalog, mem: Catalog, r: Catalog, all: seq<Event>, lo: nat, d: nat,
                   n: nat)
    requires Tracks(t, s, mem, r, all, lo, d, n)
    ensures Tracks(t, s.(catalog := c), mem, r, all, lo, d, n)
  {
  }

  lemma DiskSaved(t: Setting, fs: FileSystem, c: Catalog, all: seq<Event>, n: nat)
    requires n <= |all| && Exact(t.rules, t.g, fs.segments, c, all[..n])
    ensures DiskOk(t, fs.(catalog := Some(c)), c, all, n)
  {
    ReconcileExact(t.rules, t.g, fs.segments, c, all[..n]);
    HoldsFirstIs(t, fs.(catalog := Some(c)), all, n);
    DiskOkHolds(t, fs.(catalog := Some(c)), c, all, n);
  }

  /** Replacing the catalog once everything it accounts for is on disk. */
  lemma SaveKeeps(t: Setting, s: Session, c: Catalog, all: seq<Event>, lo: nat, n: nat)
    requires lo <= n <= |all| && AllSurvive(t, s.trace, all, lo, n) && WriterOk(t.rules, s.writer, c, all, n, n)
    requires Exact(t.rules, t.g, s.fs.segments, c, all[..n])
    ensures Tracks(t, Visit(s, s.fs.(catalog := Some(c))), c, c, all, lo, n, n)
  {
    DiskSaved(t, s.fs, c, all, n);
    DiskOkHolds(t, s.fs.(catalog := Some(c)), c, all, n);
    AddVisit(t, s.trace, s.fs.(catalog := Some(c)), all, lo, n, n);
    assert all[n..n] == [];
  }

  lemma FlushLeavesFile(t: Setting, s: Session, mem: Catalog, r: Catalog, all: seq<Event>, lo: nat, d: nat, n: nat,
                        start: nat, lines: seq<Line>)
    requires Tracks(t, s, mem, r, all, lo, d, n)
    requires FileName(SegmentId(start, |mem.segments|)) in s.fs.segments
    requires s.fs.segments[FileName(SegmentId(start, |mem.segments|))] == lines
    ensures var f := FileName(SegmentId(start, |mem.segments|));
            f in Flush(s).fs.segments && Flush(s).fs.segments[f] == lines
  {
    if s.writer.Some? {
      SameCount(t.rules, r, all[d..n]);
      DiskOkHolds(t, s.fs, r, all, d);
      NewNameIsFresh(t.rules, t.g, r, all[..d], start, |r.segments| - 1);
      SpillFrame(s, |s.writer.value.pending|);
    }
  }

  /** A new segment goes live: header, old lines, catalog, in this order. */
  lemma RollingKeeps(t: Setting, s: Session, mem: Catalog, r: Catalog, all: seq<Event>, lo: nat, d: nat, n: nat,
                     prev: Option<string>, createdAt: u64)
    requires Tracks(t, s, mem, r, all, lo, d, n) && n < |all| && FollowsAt(t.rules, all, n)
    requires MayRoll(t.g, mem, all[..n]) && PrevSegment(t.rules, SealActive(mem)) == Ok(prev)
    ensures var entry := NewEntry(mem, all[n], prev, createdAt);
            var header := [HeaderLine(HeaderOf(entry))];
            var s1 := Visit(s, WithFile(s.fs, entry.fileName, header)).(catalog := Rolled(mem, entry));
            Tracks(t, AfterRoll(s1), Rolled(mem, entry), Rolled(mem, entry), all, lo, n, n)
  {
    var entry := NewEntry(mem, all[n], prev, createdAt);
    var lines := [HeaderLine(HeaderOf(entry))];
    var s1 := Visit(s, WithFile(s.fs, entry.fileName, lines)).(catalog := Rolled(mem, entry));
    HeaderVisitKeeps(t, s, mem, r, all, lo, d, n, all[n].seqNo, lines);
    AnyCatalog(t, Visit(s, WithFile(s.fs, entry.fileName, lines)), Rolled(mem, entry), mem, r, all, lo, d, n);
    FlushLeavesFile(t, s1, mem, r, all, lo, d, n, all[n].seqNo, lines);
    FlushKeeps(t, s1, mem, r, all, lo, d, n);
    FlushCatalog(s1);
    RolledIsExact(t, Flush(s1).fs, mem, all, n, prev, createdAt);
    SaveKeeps(t, Flush(s1).(writer := None), Rolled(mem, entry), all, lo, n);
  }

  lemma FlushCatalog(s: Session)
    ensures Flush(s).catalog == s.catalog && Flush(s).dirty == s.dirty
  {
    if s.writer.Some? {
      SpillFrame(s, |s.writer.value.pending|);
    }
  }

  lemma RolledIsExact(t: Setting, fs: FileSystem, mem: Catalog, all: seq<Event>, n: nat, prev: Option<string>,
                      createdAt: u64)
    requires DiskOk(t, fs, mem, all, n) && n < |all| && FollowsAt(t.rules, all, n)
    requires MayRoll(t.g, mem, all[..n]) && PrevSegment(t.rules, SealActive(mem)) == Ok(prev)
    requires var entry := NewEntry(mem, all[n], prev, createdAt);
             entry.fileName in fs.segments && fs.segments[entry.fileName] == [HeaderLine(HeaderOf(entry))]
    ensures Exact(t.rules, t.g, fs.segments, Rolled(mem, NewEntry(mem, all[n], prev, createdAt)), all[..n])
  {
    DiskOkHolds(t, fs, mem, all, n);
    RollKeeps(t.rules, t.g, mem, all[..n], all[n], prev, createdAt);
    RolledStored(t.rules, t.g, fs.segments, mem, all[..n], NewEntry(mem, all[n], prev, createdAt));
  }

  lemma RollAllowed(t: Setting, mem: Catalog, events: seq<Event>, bytes: nat)
    requires Describes(t.rules, t.g, mem, events) && NeedsSegment(mem, bytes) && !Stuck(mem, bytes)
    requires t.g.Bounded? ==> bytes <= t.g.lineMax
    ensures MayRoll(t.g, mem, events)
  {
    if mem.segments != [] {
      ActiveIsLast(t.rules, t.g, mem, events);
      var i := |mem.segments| - 1;
      assert EntryOk(t.rules, t.g, mem, i, events);
      assert Slice(events, |events|, |events|) == [];
    }
  }

  lemma RoomWithoutRoll(t: Setting, mem: Catalog, events: seq<Event>, bytes: nat)
    requires Describes(t.rules, t.g, mem, events) && !NeedsSegment(mem, bytes)
    ensures HasRoom(t.g, mem, bytes)
  {
    ActiveIsLast(t.rules, t.g, mem, events);
  }

  lemma RoomAfterRoll(t: Setting, mem: Catalog, events: seq<Event>, e: Event, prev: Option<string>, createdAt: u64,
                      bytes: nat)
    requires Describes(t.rules, t.g, mem, events) && (t.g.Bounded? ==> bytes <= t.g.lineMax)
    ensures HasRoom(t.g, Rolled(mem, NewEntry(mem, e, prev, createdAt)), bytes)
    ensures Rolled(mem, NewEntry(mem, e, prev, createdAt)).active != mem.active
  {
    RolledEntries(t.rules, t.g, mem, events, NewEntry(mem, e, prev, createdAt));
    if mem.segments != [] {
      NewNameIsFresh(t.rules, t.g, mem, events, e.seqNo, |mem.segments| - 1);
    }
  }

  lemma EnsureKeeps(t: Setting, s: Session, r: Catalog, all: seq<Event>, lo: nat, d: nat, n: nat, env: Env)
    returns (r': Catalog, d': nat)
    requires HeadersPrint(t.rules) && Tracks(t, s, s.catalog, r, all, lo, d, n)
    requires n < |all| && FollowsAt(t.rules, all, n)
    requires var bytes := LineLength(t.rules, all[n]);
             !Stuck(s.catalog, bytes) && (t.g.Bounded? ==> bytes <= t.g.lineMax)
    ensures var bytes := LineLength(t.rules, all[n]);
            var ready := EnsureSegment(t.rules, s, all[n], bytes, env);
            ready.Ok? && Tracks(t, ready.value, ready.value.catalog, r', all, lo, d', n)
            && HasRoom(t.g, ready.value.catalog, bytes) && ready.value.dirty == s.dirty
  {
    var bytes := LineLength(t.rules, all[n]);
    var mem := s.catalog;
    if !NeedsSegment(mem, bytes) {
      RoomWithoutRoll(t, mem, all[..n], bytes);
      r', d' := r, d;
    } else {
      RollAllowed(t, mem, all[..n], bytes);
      var prev := PrevSegment(t.rules, SealActive(mem)).value;
      RollingKeeps(t, s, mem, r, all, lo, d, n, prev, env.createdAt);
      RoomAfterRoll(t, mem, all[..n], all[n], prev, env.createdAt, bytes);
      r', d' := Rolled(mem, NewEntry(mem, all[n], prev, env.createdAt)), n;
      FlushCatalog(Roll(t.rules, s, all[n], env.createdAt).value);
    }
  }

  // ---------------------------------------------------------------------------
  // Writing an event.
  // ---------------------------------------------------------------------------

  lemma OpenKeeps(t: Setting, s: Session, mem: Catalog, r: Catalog, all: seq<Event>, lo: nat, d: nat, n: nat)
    requires Tracks(t, s, mem, r, all, lo, d, n) && mem.segments != []
    ensures Tracks(t, OpenWriter(s, ActiveFile(mem)), mem, r, all, lo, d, n)
    ensures OpenWriter(s, ActiveFile(mem)).writer.Some?
    ensures r.segments != [] && ActiveFile(r) == ActiveFile(mem)
  {
    SameCount(t.rules, r, all[d..n]);
    CatchUpGrows(t.rules, r, all[d..n]);
    if s.writer.None? {
      var last := |r.segments| - 1;
      DiskOkHolds(t, s.fs, r, all, d);
      assert FileOk(t.rules, s.fs.segments, r.segments, last, all[..d]);
      var f := ActiveFile(r);
      assert s.fs.segments[f := s.fs.segments[f]] == s.fs.segments;
      assert WithFile(s.fs, f, FileLines(s.fs, f)) == s.fs;
      AddVisit(t, s.trace, s.fs, all, lo, d, d);
    }
  }

  lemma PendingGrows(rules: Rules, all: seq<Event>, d: nat, n: nat)
    requires d <= n < |all|
    ensures LinesOf(rules, all[d..n + 1]) == LinesOf(rules, all[d..n]) + [EventLine(all[n], LineLength(rules, all[n]))]
  {
    assert all[d..n + 1] == all[d..n] + [all[n]];
    OneMore(rules, all[d..n], all[n]);
  }

  lemma CatchUpNext(rules: Rules, r: Catalog, all: seq<Event>, d: nat, n: nat)
    requires d <= n < |all| && r.segments != []
    ensures CatchUp(rules, r, all[d..n]).segments != []
    ensures CatchUp(rules, r, all[d..n + 1])
            == Recorded(CatchUp(rules, r, all[d..n]), all[n], LineLength(rules, all[n]))
  {
    assert all[d..n + 1] == all[d..n] + [all[n]];
    CatchUpAppend(rules, r, all[d..n], all[n]);
  }

  /** Buffering a line while the catalog in memory records its event. */
  lemma BufferKeeps(t: Setting, s: Session, mem: Catalog, r: Catalog, all: seq<Event>, lo: nat, d: nat, n: nat)
    requires Tracks(t, s, mem, r, all, lo, d, n) && mem.segments != [] && s.writer.Some? && n < |all|
    requires FollowsAt(t.rules, all, n) && HasRoom(t.g, mem, LineLength(t.rules, all[n]))
    ensures var bytes := LineLength(t.rules, all[n]);
            Tracks(t, Buffer(s, EventLine(all[n], bytes)), Recorded(mem, all[n], bytes), r, all, lo, d, n + 1)
  {
    PendingGrows(t.rules, all, d, n);
    CatchUpNext(t.rules, r, all, d, n);
    RecordNext(t, mem, all, n);
  }

  lemma RecordNext(t: Setting, mem: Catalog, all: seq<Event>, n: nat)
    requires n < |all| && Describes(t.rules, t.g, mem, all[..n]) && mem.segments != []
    requires FollowsAt(t.rules, all, n) && HasRoom(t.g, mem, LineLength(t.rules, all[n]))
    ensures Describes(t.rules, t.g, Recorded(mem, all[n], LineLength(t.rules, all[n])), all[..n + 1])
  {
    assert all[..n + 1] == all[..n] + [all[n]];
    RecordKeeps(t.rules, t.g, mem, all[..n], all[n]);
  }

  function Buffered(s: Session, e: Event, bytes: nat): Session
    requires s.catalog.segments != []
  {
    var ready := OpenWriter(s, ActiveFile(s.catalog));
    if ready.writer.None? then ready else Buffer(ready, EventLine(e, bytes))
  }

  lemma BufferedKeeps(t: Setting, s: Session, r: Catalog, all: seq<Event>, lo: nat, d: nat, n: nat)
    requires Tracks(t, s, s.catalog, r, all, lo, d, n) && n < |all| && FollowsAt(t.rules, all, n)
    requires HasRoom(t.g, s.catalog, LineLength(t.rules, all[n]))
    ensures var bytes := LineLength(t.rules, all[n]);
            Tracks(t, Buffered(s, all[n], bytes), Recorded(s.catalog, all[n], bytes), r, all, lo, d, n + 1)
  {
    OpenKeeps(t, s, s.catalog, r, all, lo, d, n);
    BufferKeeps(t, OpenWriter(s, ActiveFile(s.catalog)), s.catalog, r, all, lo, d, n);
  }

  lemma WriteUnfold(s: Session, e: Event, bytes: nat, env: Env)
    requires s.catalog.segments != [] && ActiveIndex(s.catalog) == |s.catalog.segments| - 1
    ensures WriteEvent(s, e, bytes, env)
            == Progress(Spill(Buffered(s, e, bytes), env.spill)
                        .(catalog := Recorded(s.catalog, e, bytes), dirty := true), None)
  {
  }

  lemma Relabel(t: Setting, s: Session, mem: Catalog, r: Catalog, all: seq<Event>, lo: nat, d: nat, n: nat)
    requires Tracks(t, s, mem, r, all, lo, d, n)
    ensures Tracks(t, s.(catalog := mem, dirty := true), mem, r, all, lo, d, n)
  {
  }

  lemma WriteKeeps(t: Setting, s: Session, r: Catalog, all: seq<Event>, lo: nat, d: nat, n: nat, env: Env)
    returns (r': Catalog, d': nat)
    requires Tracks(t, s, s.catalog, r, all, lo, d, n) && n < |all| && FollowsAt(t.rules, all, n)
    requires HasRoom(t.g, s.catalog, LineLength(t.rules, all[n]))
    ensures var p := WriteEvent(s, all[n], LineLength(t.rules, all[n]), env);
            p.error.None? && p.session.dirty && Tracks(t, p.session, p.session.catalog, r', all, lo, d', n + 1)
  {
    var bytes := LineLength(t.rules, all[n]);
    var next := Recorded(s.catalog, all[n], bytes);
    ActiveIsLast(t.rules, t.g, s.catalog, all[..n]);
    BufferedKeeps(t, s, r, all, lo, d, n);
    r', d' := SpillKeeps(t, Buffered(s, all[n], bytes), env.spill, next, r, all, lo, d, n + 1);
    WriteUnfold(s, all[n], bytes, env);
    Relabel(t, Spill(Buffered(s, all[n], bytes), env.spill), next, r', all, lo, d', n + 1);
  }
}
