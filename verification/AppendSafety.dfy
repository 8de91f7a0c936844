/** One append call, write by write: whatever the disk looks like after any of its writes,
    reopening the log gives the old events and a prefix of the batch.
    `append_segmented_under_lock` in src/event_log.rs. */
module AppendSafety {
  import opened Prelude
  import opened Backend
  import opened Events
  import opened Segments
  import opened LogInvariant
  import opened LogWrites

  /** A log's rules, the limits it was opened with and what is known of both, with the turn
      of its append loop and the check it makes as functions. */
  datatype Setting = Setting(rules: Rules, g: Regime, limits: Limits, turn: Turn, check: Check)

  /** Every segment header has a digest. */
  ghost predicate HeadersPrint(rules: Rules) {
    forall h :: rules.headerDigest(h).Some?
  }

  predicate UnfoldGenuine(t: Setting, key: int) {
    true
  }

  /** The turn and the check are those of the rules. Behind a trigger, so that a proof looks
      inside only where it names `UnfoldGenuine`. */
  ghost predicate Genuine(t: Setting) {
    forall key: int {:trigger UnfoldGenuine(t, key)} :: UnfoldGenuine(t, key) ==>
      HeadersPrint(t.rules) && t.turn == TurnOf(t.rules) && t.check == FileCheck(t.rules)
  }

  function SettingOf(rules: Rules, g: Regime, limits: Limits): Setting {
    Setting(rules, g, limits, TurnOf(rules), FileCheck(rules))
  }

  lemma GenuineTurn(t: Setting)
    requires Genuine(t)
    ensures HeadersPrint(t.rules) && t.turn == TurnOf(t.rules) && t.check == FileCheck(t.rules)
  {
    assert UnfoldGenuine(t, 0);
  }

  lemma SettingIsGenuine(rules: Rules, g: Regime, limits: Limits)
    requires HeadersPrint(rules)
    ensures Genuine(SettingOf(rules, g, limits))
  {
  }

  /** The disk holds the first `k` events. */
  ghost predicate HoldsFirst(t: Setting, fs: FileSystem, all: seq<Event>, k: nat) {
    k <= |all| && Durable(t.rules, t.g, t.limits, fs, all[..k])
  }

  lemma HoldsFirstIs(t: Setting, fs: FileSystem, all: seq<Event>, k: nat)
    requires k <= |all|
    ensures HoldsFirst(t, fs, all, k) <==> DiskIs(t.rules, t.g, t.limits, fs, all[..k])
  {
    DurableIs(t.rules, t.g, t.limits, fs, all[..k]);
  }

  /** The disk holds some prefix of `all`, between `lo` and `hi` events long. */
  ghost predicate Survives(t: Setting, fs: FileSystem, all: seq<Event>, lo: nat, hi: nat) {
    exists k: nat :: lo <= k <= hi && HoldsFirst(t, fs, all, k)
  }

  ghost predicate AllSurvive(t: Setting, trace: seq<FileSystem>, all: seq<Event>, lo: nat, hi: nat) {
    forall j :: 0 <= j < |trace| ==> Survives(t, trace[j], all, lo, hi)
  }

  /** The checks of the file log: those of every backend, and that the line canonicalises. */
  function FileAccept(rules: Rules, log: seq<Event>, e: Event): Result<(), AppendError> {
    match Accept(rules.validate, log, e)
    case Err(err) => Err(err)
    case Ok(_) => if rules.lineBytes(e).None? then Err(LineNotCanonical) else Ok(())
  }

  function FileCheck(rules: Rules): Check {
    (log, e) => FileAccept(rules, log, e)
  }

  // ---------------------------------------------------------------------------
  // The catalog in memory runs ahead of the disk by the buffered lines.
  // ---------------------------------------------------------------------------

  function CatchUp(rules: Rules, c: Catalog, events: seq<Event>): Catalog
    decreases |events|
  {
    if events == [] || c.segments == [] then c
    else CatchUp(rules, Recorded(c, events[0], LineLength(rules, events[0])), events[1..])
  }

  lemma {:induction false} CatchUpAppend(rules: Rules, c: Catalog, events: seq<Event>, e: Event)
    requires c.segments != []
    ensures CatchUp(rules, c, events).segments != []
    ensures CatchUp(rules, c, events + [e]) == Recorded(CatchUp(rules, c, events), e, LineLength(rules, e))
    decreases |events|
  {
    if events == [] {
      assert [] + [e] == [e];
      assert [e][1..] == [];
    } else {
      assert (events + [e])[1..] == events[1..] + [e];
      CatchUpAppend(rules, Recorded(c, events[0], LineLength(rules, events[0])), events[1..], e);
    }
  }

  /** Recording only adds to the active segment. */
  lemma {:induction false} CatchUpGrows(rules: Rules, c: Catalog, events: seq<Event>)
    requires c.segments != []
    ensures var d := CatchUp(rules, c, events);
            |d.segments| == |c.segments| && d.maxEvents == c.maxEvents && d.maxBytes == c.maxBytes
            && c.segments[|c.segments| - 1].eventCount <= d.segments[|c.segments| - 1].eventCount
            && c.segments[|c.segments| - 1].sizeBytes <= d.segments[|c.segments| - 1].sizeBytes
            && ActiveFile(c) == ActiveFile(d)
    decreases |events|
  {
    if events != [] {
      CatchUpGrows(rules, Recorded(c, events[0], LineLength(rules, events[0])), events[1..]);
    }
  }

  predicate FollowsAt(rules: Rules, all: seq<Event>, k: nat)
    requires k < |all|
  {
    Follows(rules, all[..k], all[k])
  }

  /** The events after the first `d`, up to the first `n`, continue the log. */
  ghost predicate AllFollow(rules: Rules, all: seq<Event>, d: nat, n: nat) {
    n <= |all| && forall k :: d <= k < n ==> FollowsAt(rules, all, k)
  }

  ghost predicate WriterOk(rules: Rules, w: Option<Writer>, r: Catalog, all: seq<Event>, d: nat, n: nat)
    requires d <= n <= |all|
  {
    match w
    case None => d == n
    case Some(w) => r.segments != [] && w.file == ActiveFile(r) && w.pending == LinesOf(rules, all[d..n])
  }

  /** The disk alone: reopened, it would hold the first `d` events, described by `r`. */
  ghost predicate DiskHolds(t: Setting, fs: FileSystem, r: Catalog, all: seq<Event>, d: nat) {
    && d <= |all|
    && View(fs, t.limits) == Ok(r)
    && Exact(t.rules, t.g, fs.segments, r, all[..d])
    && HoldsFirst(t, fs, all, d)
    && (fs.catalog.None? ==> d == 0 && r.segments == [])
  }

  predicate UnfoldDisk(fs: FileSystem, d: nat, key: int) {
    true
  }

  /** `DiskHolds`, behind a trigger like `Genuine`. */
  ghost predicate DiskOk(t: Setting, fs: FileSystem, r: Catalog, all: seq<Event>, d: nat) {
    forall key: int {:trigger UnfoldDisk(fs, d, key)} :: UnfoldDisk(fs, d, key) ==> DiskHolds(t, fs, r, all, d)
  }

  lemma DiskOkHolds(t: Setting, fs: FileSystem, r: Catalog, all: seq<Event>, d: nat)
    ensures DiskOk(t, fs, r, all, d) <==> DiskHolds(t, fs, r, all, d)
  {
    assert UnfoldDisk(fs, d, 0);
  }

  /** An append call whose catalog in memory, `mem`, accounts for the first `n` events while
      the disk has the first `d`; the rest is in the writer's buffer. */
  ghost predicate Tracks(t: Setting, s: Session, mem: Catalog, r: Catalog, all: seq<Event>, lo: nat, d: nat, n: nat) {
    && lo <= d <= n
    && AllFollow(t.rules, all, d, n)
    && DiskOk(t, s.fs, r, all, d)
    && WriterOk(t.rules, s.writer, r, all, d, n)
    && mem == CatchUp(t.rules, r, all[d..n])
    && Describes(t.rules, t.g, mem, all[..n])
    && AllSurvive(t, s.trace, all, lo, d)
  }

  lemma AddVisit(t: Setting, trace: seq<FileSystem>, fs: FileSystem, all: seq<Event>, lo: nat, d: nat, e: nat)
    requires AllSurvive(t, trace, all, lo, d) && lo <= d <= e && HoldsFirst(t, fs, all, e)
    ensures AllSurvive(t, trace + [fs], all, lo, e)
  {
    forall j | 0 <= j < |trace + [fs]| ensures Survives(t, (trace + [fs])[j], all, lo, e) {
      if j < |trace| {
        assert Survives(t, trace[j], all, lo, d);
      }
    }
  }

  // ---------------------------------------------------------------------------
  // Handing lines over.
  // ---------------------------------------------------------------------------

  lemma LastWithin(t: Setting, c: Catalog, events: seq<Event>)
    requires Describes(t.rules, t.g, c, events) && c.segments != []
    ensures t.g.Bounded? ==> WithinLimits(c, c.segments[|c.segments| - 1])
  {
    assert EntryOk(t.rules, t.g, c, |c.segments| - 1, events);
  }

  lemma CatchUpStep(rules: Rules, r: Catalog, all: seq<Event>, d: nat, n: nat)
    requires d < n <= |all| && r.segments != []
    ensures CatchUp(rules, r, all[d..n])
         == CatchUp(rules, Recorded(r, all[d], LineLength(rules, all[d])), all[d + 1..n])
  {
    assert all[d..n][0] == all[d] && all[d..n][1..] == all[d + 1..n];
  }

  lemma RoomBelow(t: Setting, mem: Catalog, r: Catalog, next: Catalog, rest: seq<Event>, e: Event)
    requires r.segments != [] && next == Recorded(r, e, LineLength(t.rules, e)) && mem == CatchUp(t.rules, next, rest)
    requires mem.segments != [] && t.g.Bounded? ==> WithinLimits(mem, mem.segments[|mem.segments| - 1])
    ensures HasRoom(t.g, r, LineLength(t.rules, e))
  {
    CatchUpGrows(t.rules, next, rest);
  }

  lemma RoomForPending(t: Setting, mem: Catalog, r: Catalog, all: seq<Event>, d: nat, n: nat)
    requires d < n <= |all| && r.segments != [] && mem == CatchUp(t.rules, r, all[d..n])
    requires mem.segments != [] && t.g.Bounded? ==> WithinLimits(mem, mem.segments[|mem.segments| - 1])
    ensures HasRoom(t.g, r, LineLength(t.rules, all[d]))
    ensures mem == CatchUp(t.rules, Recorded(r, all[d], LineLength(t.rules, all[d])), all[d + 1..n])
  {
    CatchUpStep(t.rules, r, all, d, n);
    RoomBelow(t, mem, r, Recorded(r, all[d], LineLength(t.rules, all[d])), all[d + 1..n], all[d]);
  }

  /** One line reaches the active file. */
  lemma DiskTakesLine(t: Setting, fs: FileSystem, r: Catalog, all: seq<Event>, d: nat)
    requires DiskOk(t, fs, r, all, d) && r.segments != [] && d < |all|
    requires FollowsAt(t.rules, all, d) && HasRoom(t.g, r, LineLength(t.rules, all[d]))
    ensures var line := EventLine(all[d], LineLength(t.rules, all[d]));
            var fs' := WithFile(fs, ActiveFile(r), FileLines(fs, ActiveFile(r)) + [line]);
            DiskOk(t, fs', Recorded(r, all[d], LineLength(t.rules, all[d])), all, d + 1)
  {
    DiskOkHolds(t, fs, r, all, d);
    var c := fs.catalog.value;
    var events := all[..d];
    assert all[..d + 1] == events + [all[d]];
    ReconcileShape(fs.segments, c);
    LineIsRecorded(t.rules, t.g, fs.segments, c, events, all[d]);
    StoredGrows(t.rules, t.g, fs.segments, r, events, all[d]);
    RecordKeeps(t.rules, t.g, r, events, all[d]);
    var line := EventLine(all[d], LineLength(t.rules, all[d]));
    var fs' := WithFile(fs, ActiveFile(r), FileLines(fs, ActiveFile(r)) + [line]);
    HoldsFirstIs(t, fs', all, d + 1);
    DiskOkHolds(t, fs', Recorded(r, all[d], LineLength(t.rules, all[d])), all, d + 1);
  }

  function SpillOne(s: Session): Session
    requires s.writer.Some? && s.writer.value.pending != []
  {
    var w := s.writer.value;
    var fs := WithFile(s.fs, w.file, FileLines(s.fs, w.file) + [w.pending[0]]);
    Visit(s, fs).(writer := Some(Writer(w.file, w.pending[1..])))
  }

  lemma PendingHead(rules: Rules, all: seq<Event>, d: nat, n: nat)
    requires d <= n <= |all| && LinesOf(rules, all[d..n]) != []
    ensures d < n
    ensures LinesOf(rules, all[d..n])[0] == EventLine(all[d], LineLength(rules, all[d]))
    ensures LinesOf(rules, all[d..n])[1..] == LinesOf(rules, all[d + 1..n])
  {
    assert all[d..n][0] == all[d] && all[d..n][1..] == all[d + 1..n];
  }

  lemma SpillOneKeeps(t: Setting, s: Session, mem: Catalog, r: Catalog, all: seq<Event>, lo: nat, d: nat, n: nat)
    requires Tracks(t, s, mem, r, all, lo, d, n) && s.writer.Some? && s.writer.value.pending != []
    ensures d < n && r.segments != []
    ensures Tracks(t, SpillOne(s), mem, Recorded(r, all[d], LineLength(t.rules, all[d])), all, lo, d + 1, n)
  {
    PendingHead(t.rules, all, d, n);
    if mem.segments != [] {
      LastWithin(t, mem, all[..n]);
    }
    RoomForPending(t, mem, r, all, d, n);
    DiskTakesLine(t, s.fs, r, all, d);
    DiskOkHolds(t, SpillOne(s).fs, Recorded(r, all[d], LineLength(t.rules, all[d])), all, d + 1);
    AddVisit(t, s.trace, SpillOne(s).fs, all, lo, d, d + 1);
  }

  predicate HasPending(s: Session) {
    s.writer.Some? && s.writer.value.pending != []
  }

  ghost predicate KeptBySpill(p: (Session, Catalog, nat) -> bool, next: (Catalog, nat) -> Catalog, s: Session,
                              r: Catalog, d: nat)
  {
    p(s, r, d) && HasPending(s) ==> p(SpillOne(s), next(r, d), d + 1)
  }

  /** Whatever one handed-over line keeps, any number of them keeps. */
  lemma {:induction false} SpillInduction(p: (Session, Catalog, nat) -> bool, next: (Catalog, nat) -> Catalog,
                                          s: Session, count: nat, r: Catalog, d: nat)
    returns (r': Catalog, d': nat)
    requires p(s, r, d) && forall s, r, d :: KeptBySpill(p, next, s, r, d)
    ensures p(Spill(s, count), r', d')
    ensures HasPending(s) && count >= |s.writer.value.pending| ==> !HasPending(Spill(s, count))
    decreases count
  {
    if count == 0 || !HasPending(s) {
      r', d' := r, d;
    } else {
      assert KeptBySpill(p, next, s, r, d);
      r', d' := SpillInduction(p, next, SpillOne(s), count - 1, next(r, d), d + 1);
    }
  }

  ghost function TracksWith(t: Setting, mem: Catalog, all: seq<Event>, lo: nat, n: nat): (Session, Catalog, nat) -> bool
  {
    (s: Session, r: Catalog, d: nat) => Tracks(t, s, mem, r, all, lo, d, n)
  }

  ghost function NextOf(rules: Rules, all: seq<Event>): (Catalog, nat) -> Catalog {
    (r: Catalog, d: nat) =>
      if r.segments == [] || d >= |all| then r else Recorded(r, all[d], LineLength(rules, all[d]))
  }

  lemma SpillKept(t: Setting, mem: Catalog, all: seq<Event>, lo: nat, n: nat, s: Session, r: Catalog, d: nat)
    ensures KeptBySpill(TracksWith(t, mem, all, lo, n), NextOf(t.rules, all), s, r, d)
  {
    if Tracks(t, s, mem, r, all, lo, d, n) && HasPending(s) {
      SpillOneKeeps(t, s, mem, r, all, lo, d, n);
    }
  }

  lemma SpillKeeps(t: Setting, s: Session, count: nat, mem: Catalog, r: Catalog, all: seq<Event>, lo: nat, d: nat,
                   n: nat)
    returns (r': Catalog, d': nat)
    requires Tracks(t, s, mem, r, all, lo, d, n)
    ensures Tracks(t, Spill(s, count), mem, r', all, lo, d', n)
    ensures s.writer.Some? && count >= |s.writer.value.pending| ==> !HasPending(Spill(s, count))
  {
    var p, next := TracksWith(t, mem, all, lo, n), NextOf(t.rules, all);
    forall s: Session, r: Catalog, d: nat ensures KeptBySpill(p, next, s, r, d) {
      SpillKept(t, mem, all, lo, n, s, r, d);
    }
    r', d' := SpillInduction(p, next, s, count, r, d);
  }

  /** Handing lines over changes one file and nothing else. */
  lemma {:induction false} SpillFrame(s: Session, count: nat)
    ensures var s' := Spill(s, count);
            && s'.catalog == s.catalog && s'.dirty == s.dirty && s'.fs.catalog == s.fs.catalog
            && s'.writer.Some? == s.writer.Some?
            && (s.writer.Some? ==> s'.writer.value.file == s.writer.value.file)
            && forall f :: f in s.fs.segments && (s.writer.Some? ==> f != s.writer.value.file) ==>
                 f in s'.fs.segments && s'.fs.segments[f] == s.fs.segments[f]
    decreases count
  {
    if count != 0 && s.writer.Some? && s.writer.value.pending != [] {
      SpillFrame(SpillOne(s), count - 1);
    }
  }

  lemma NoPending(t: Setting, s: Session, mem: Catalog, r: Catalog, all: seq<Event>, lo: nat, d: nat, n: nat)
    requires Tracks(t, s, mem, r, all, lo, d, n) && !HasPending(s)
    ensures d == n && r == mem
  {
    assert all[n..n] == [];
  }

  /** After a flush the disk holds everything the catalog in memory accounts for. */
  lemma FlushKeeps(t: Setting, s: Session, mem: Catalog, r: Catalog, all: seq<Event>, lo: nat, d: nat, n: nat)
    requires Tracks(t, s, mem, r, all, lo, d, n)
    ensures Tracks(t, Flush(s), mem, mem, all, lo, n, n) && !HasPending(Flush(s))
  {
    if s.writer.Some? {
      var r', d' := SpillKeeps(t, s, |s.writer.value.pending|, mem, r, all, lo, d, n);
      NoPending(t, Flush(s), mem, r', all, lo, d', n);
    } else {
      NoPending(t, s, mem, r, all, lo, d, n);
    }
  }
}
