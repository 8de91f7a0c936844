/** The single writes of the log and what each keeps: recording an event, handing a line to
    the active file, starting a segment, and replacing the catalog. src/event_log.rs. */
module LogWrites {
  import opened Prelude
  import opened Events
  import opened Segments
  import opened LogInvariant

  /** The next event of the log, as far as its place and namespace go. */
  predicate Follows(rules: Rules, events: seq<Event>, e: Event) {
    && e.seqNo == |events| && rules.lineBytes(e).Some?
    && (events != [] ==> e.namespace == events[|events| - 1].namespace)
  }

  /** The active segment has room for one more line. */
  predicate HasRoom(g: Regime, c: Catalog, bytes: nat) {
    c.segments != []
    && (g.Bounded? ==>
          c.segments[|c.segments| - 1].eventCount + 1 <= c.maxEvents
          && c.segments[|c.segments| - 1].sizeBytes + bytes <= c.maxBytes)
  }

  function Recorded(c: Catalog, e: Event, bytes: nat): Catalog
    requires c.segments != []
  {
    Record(c, |c.segments| - 1, e, bytes)
  }

  lemma SliceGrows(events: seq<Event>, e: Event, a: nat, b: nat)
    requires b <= |events|
    ensures Slice(events + [e], a, b) == Slice(events, a, b)
  {
    if a <= b {
      assert (events + [e])[a..b] == events[a..b];
    }
  }

  lemma EarlierEntryKept(rules: Rules, g: Regime, c: Catalog, d: Catalog, events: seq<Event>, e: Event, i: nat)
    requires i + 1 < |c.segments| && |d.segments| == |c.segments| && EntryOk(rules, g, c, i, events)
    requires d.segments[i] == c.segments[i] && d.segments[i + 1].seqStart == c.segments[i + 1].seqStart
    requires i > 0 ==> d.segments[i - 1] == c.segments[i - 1]
    requires d.maxEvents == c.maxEvents && d.maxBytes == c.maxBytes
    ensures EntryOk(rules, g, d, i, events + [e])
  {
    var b := End(c.segments, i, |events|);
    SliceGrows(events, e, 0, b);
    SliceGrows(events, e, c.segments[i].seqStart, b);
  }

  lemma SliceWithNext(rules: Rules, events: seq<Event>, e: Event, a: nat)
    requires a <= |events|
    ensures LinesOf(rules, Slice(events + [e], a, |events| + 1))
            == LinesOf(rules, Slice(events, a, |events|)) + [EventLine(e, LineLength(rules, e))]
    ensures BytesIn(LinesOf(rules, Slice(events + [e], a, |events| + 1)))
            == BytesIn(LinesOf(rules, Slice(events, a, |events|))) + LineLength(rules, e)
  {
    assert Slice(events + [e], a, |events| + 1) == Slice(events, a, |events|) + [e];
    OneMore(rules, Slice(events, a, |events|), e);
  }

  lemma LastEntryRecorded(rules: Rules, g: Regime, c: Catalog, events: seq<Event>, e: Event)
    requires c.segments != [] && EntryOk(rules, g, c, |c.segments| - 1, events) && e.seqNo == |events|
    requires HasRoom(g, c, LineLength(rules, e))
    ensures EntryOk(rules, g, Recorded(c, e, LineLength(rules, e)), |c.segments| - 1, events + [e])
  {
    SliceWithNext(rules, events, e, c.segments[|c.segments| - 1].seqStart);
    assert Slice(events + [e], 0, |events| + 1) == events + [e];
  }

  /** Recording an event with the next sequence number keeps the catalog exact, once the
      namespace is the event's. */
  lemma RecordWithNamespace(rules: Rules, g: Regime, c: Catalog, events: seq<Event>, e: Event)
    requires Describes(rules, g, c, events) && e.seqNo == |events| && rules.lineBytes(e).Some?
    requires HasRoom(g, c, LineLength(rules, e))
    ensures Describes(rules, g, Recorded(c, e, LineLength(rules, e)).(namespace := Some(e.namespace)), events + [e])
  {
    var d := Recorded(c, e, LineLength(rules, e)).(namespace := Some(e.namespace));
    forall i | 0 <= i < |d.segments| ensures EntryOk(rules, g, d, i, events + [e]) {
      assert EntryOk(rules, g, c, i, events);
      EntryAfterRecord(rules, g, c, d, events, e, i);
    }
  }

  lemma EntryAfterRecord(rules: Rules, g: Regime, c: Catalog, d: Catalog, events: seq<Event>, e: Event, i: nat)
    requires i < |c.segments| && EntryOk(rules, g, c, i, events) && EntryOk(rules, g, c, |c.segments| - 1, events)
    requires e.seqNo == |events| && HasRoom(g, c, LineLength(rules, e))
    requires d == Recorded(c, e, LineLength(rules, e)).(namespace := Some(e.namespace))
    ensures EntryOk(rules, g, d, i, events + [e])
  {
    var r := RecordedShape(c, e, LineLength(rules, e));
    if i == |c.segments| - 1 {
      LastEntryRecorded(rules, g, c, events, e);
      SameEntries(rules, g, r, d, i, events + [e]);
    } else {
      EarlierEntryKept(rules, g, c, d, events, e, i);
    }
  }

  /** Recording touches the last entry only, and not where it starts. */
  lemma RecordedShape(c: Catalog, e: Event, bytes: nat) returns (r: Catalog)
    requires c.segments != []
    ensures r == Recorded(c, e, bytes) && |r.segments| == |c.segments|
    ensures r.maxEvents == c.maxEvents && r.maxBytes == c.maxBytes
    ensures forall j :: 0 <= j < |c.segments| - 1 ==> r.segments[j] == c.segments[j]
    ensures r.segments[|c.segments| - 1].seqStart == c.segments[|c.segments| - 1].seqStart
  {
    r := Recorded(c, e, bytes);
  }

  lemma SameEntries(rules: Rules, g: Regime, c: Catalog, d: Catalog, i: nat, events: seq<Event>)
    requires i < |c.segments| && EntryOk(rules, g, c, i, events)
    requires d.segments == c.segments && d.maxEvents == c.maxEvents && d.maxBytes == c.maxBytes
    ensures EntryOk(rules, g, d, i, events)
  {
  }

  /** Recording the next event keeps the catalog exact. */
  lemma RecordKeeps(rules: Rules, g: Regime, c: Catalog, events: seq<Event>, e: Event)
    requires Describes(rules, g, c, events) && Follows(rules, events, e)
    requires HasRoom(g, c, LineLength(rules, e))
    ensures Describes(rules, g, Recorded(c, e, LineLength(rules, e)), events + [e])
  {
    RecordWithNamespace(rules, g, c, events, e);
    var d := Recorded(c, e, LineLength(rules, e));
    assert d.(namespace := Some(e.namespace)) == d;
  }

  // ---------------------------------------------------------------------------
  // Lines.
  // ---------------------------------------------------------------------------

  function ActiveFile(c: Catalog): string
    requires c.segments != []
  {
    c.segments[|c.segments| - 1].fileName
  }

  function WithLine(files: map<string, seq<Line>>, file: string, line: Line): map<string, seq<Line>> {
    files[file := (if file in files then files[file] else []) + [line]]
  }

  lemma OtherFileKept(rules: Rules, files: map<string, seq<Line>>, c: Catalog, d: Catalog, events: seq<Event>, e: Event,
                      file: string, line: Line, i: nat)
    requires i + 1 < |c.segments| && |d.segments| == |c.segments| && FileOk(rules, files, c.segments, i, events)
    requires d.segments[i] == c.segments[i] && d.segments[i + 1].seqStart == c.segments[i + 1].seqStart
    requires c.segments[i].fileName != file && c.segments[i + 1].seqStart <= |events|
    ensures FileOk(rules, WithLine(files, file, line), d.segments, i, events + [e])
  {
    SliceGrows(events, e, c.segments[i].seqStart, c.segments[i + 1].seqStart);
  }

  lemma Regroup(a: seq<Line>, b: seq<Line>, c: seq<Line>)
    ensures (a + b) + c == a + (b + c)
  {
  }

  lemma ActiveFileGrows(rules: Rules, files: map<string, seq<Line>>, c: Catalog, events: seq<Event>, e: Event)
    requires c.segments != [] && FileOk(rules, files, c.segments, |c.segments| - 1, events)
    requires c.segments[|c.segments| - 1].seqStart <= |events|
    ensures var d := Recorded(c, e, LineLength(rules, e));
            var files' := WithLine(files, ActiveFile(c), EventLine(e, LineLength(rules, e)));
            FileOk(rules, files', d.segments, |d.segments| - 1, events + [e])
  {
    var a := c.segments[|c.segments| - 1].seqStart;
    SliceWithNext(rules, events, e, a);
    Regroup([HeaderLine(FirstHeader(c.segments[|c.segments| - 1]))], LinesOf(rules, Slice(events, a, |events|)),
            [EventLine(e, LineLength(rules, e))]);
  }

  lemma StoredGrows(rules: Rules, g: Regime, files: map<string, seq<Line>>, c: Catalog, events: seq<Event>, e: Event)
    requires Exact(rules, g, files, c, events) && c.segments != []
    ensures var d := Recorded(c, e, LineLength(rules, e));
            Stored(rules, WithLine(files, ActiveFile(c), EventLine(e, LineLength(rules, e))), d.segments, events + [e])
  {
    var d := Recorded(c, e, LineLength(rules, e));
    var line := EventLine(e, LineLength(rules, e));
    var last := |c.segments| - 1;
    assert EntryOk(rules, g, c, last, events);
    forall i | 0 <= i < |d.segments|
      ensures FileOk(rules, WithLine(files, ActiveFile(c), line), d.segments, i, events + [e])
    {
      assert FileOk(rules, files, c.segments, i, events);
      if i == last {
        ActiveFileGrows(rules, files, c, events, e);
      } else {
        NamesDiffer(rules, g, c, events, i, last);
        assert EntryOk(rules, g, c, i, events);
        OtherFileKept(rules, files, c, d, events, e, ActiveFile(c), line, i);
      }
    }
  }

  /** Catalogs that name the same segments. */
  predicate SameIds(c: Catalog, d: Catalog) {
    && c.active == d.active && |c.segments| == |d.segments|
    && forall i :: 0 <= i < |c.segments| ==> c.segments[i].segmentId == d.segments[i].segmentId
  }

  lemma FoundNoLater(a: seq<SegmentEntry>, b: seq<SegmentEntry>, id: string)
    requires |a| == |b| && forall i :: 0 <= i < |a| ==> a[i].segmentId == b[i].segmentId
    ensures Find(b, id) <= Find(a, id)
  {
    var i := Find(a, id);
    if i < |a| {
      assert b[i].segmentId == id;
    }
  }

  lemma SameActive(c: Catalog, d: Catalog)
    requires SameIds(c, d)
    ensures ActiveIndex(c) == ActiveIndex(d)
  {
    if c.active.Some? {
      FoundNoLater(c.segments, d.segments, c.active.value);
      FoundNoLater(d.segments, c.segments, c.active.value);
    }
  }

  /** Reconciling touches only the active entry and the tail fields. */
  lemma ReconcileShape(files: map<string, seq<Line>>, c: Catalog)
    requires Reconcile(files, c).Ok?
    ensures var r := Reconcile(files, c).value;
            SameIds(c, r) && ActiveIndex(r) == ActiveIndex(c)
            && r.maxEvents == c.maxEvents && r.maxBytes == c.maxBytes
  {
    var r := Reconcile(files, c).value;
    SameActive(c, r);
  }

  lemma TailWithLine(files: map<string, seq<Line>>, c: Catalog, r: Catalog, i: nat, e: Event, bytes: nat)
    requires Reconcile(files, c) == Ok(r) && i == ActiveIndex(c) < |c.segments| && i < |r.segments|
    requires c.segments[i].fileName in files
    requires r.segments[i].eventCount == |EventsIn(files[c.segments[i].fileName])|
    requires r.segments[i].sizeBytes == BytesIn(files[c.segments[i].fileName])
    requires r.namespace.Some? ==> r.namespace.value == e.namespace
    ensures Reconcile(WithLine(files, c.segments[i].fileName, EventLine(e, bytes)), c) == Ok(Record(r, i, e, bytes))
  {
    var lines := files[c.segments[i].fileName];
    var line := EventLine(e, bytes);
    LinesAppend(lines, [line]);
    assert [line][1..] == [];
    assert EventsIn(lines + [line]) == EventsIn(lines) + [e];
    ActiveEntry(files, c, i);
    var entry := Record(r, i, e, bytes).segments[i];
    SameUpdate(c.segments, r.segments, i, entry);
  }

  /** Recovery sees a line that reached the active file exactly as if its event had been
      recorded in the catalog. */
  lemma LineIsRecorded(rules: Rules, g: Regime, files: map<string, seq<Line>>, c: Catalog, events: seq<Event>, e: Event)
    requires Reconcile(files, c).Ok? && Exact(rules, g, files, Reconcile(files, c).value, events)
    requires c.segments != [] && Follows(rules, events, e)
    ensures var r := Reconcile(files, c).value;
            r.segments != []
            && Reconcile(WithLine(files, ActiveFile(r), EventLine(e, LineLength(rules, e))), c)
               == Ok(Recorded(r, e, LineLength(rules, e)))
  {
    var r := Reconcile(files, c).value;
    ReconcileShape(files, c);
    ActiveIsLast(rules, g, r, events);
    var i := |r.segments| - 1;
    ActiveEntry(files, c, i);
    ActiveTail(rules, g, files, r, events);
    TailWithLine(files, c, r, i, e, LineLength(rules, e));
  }

  lemma ActiveEntry(files: map<string, seq<Line>>, c: Catalog, i: nat)
    requires Reconcile(files, c).Ok? && i == ActiveIndex(c) < |c.segments|
    ensures var r := Reconcile(files, c).value;
            r.segments == c.segments[i := r.segments[i]]
            && r.segments[i] == c.segments[i].(seqEnd := r.segments[i].seqEnd, lastDigest := r.segments[i].lastDigest,
                                               eventCount := r.segments[i].eventCount,
                                               sizeBytes := r.segments[i].sizeBytes)
  {
    assert c.segments == c.segments[i := c.segments[i]];
  }

  lemma SameUpdate(a: seq<SegmentEntry>, b: seq<SegmentEntry>, i: nat, s: SegmentEntry)
    requires i < |a| && |b| == |a| && b == a[i := b[i]]
    ensures a[i := s] == b[i := s]
  {
    assert b[i := s] == a[i := b[i]][i := s];
  }

  // ---------------------------------------------------------------------------
  // New segments.
  // ---------------------------------------------------------------------------

  /** The catalog in memory once a segment starting with `e` has been added. */
  function Rolled(c: Catalog, entry: SegmentEntry): Catalog {
    c.(active := Some(entry.segmentId), segments := SealActive(c) + [entry])
  }

  /** A new segment may be added: only a log that holds events has one to seal, and under
      limits the sealed one is not empty. */
  predicate MayRoll(g: Regime, c: Catalog, events: seq<Event>) {
    c.segments != [] ==>
      events != [] && (g.Bounded? ==> 0 < c.segments[|c.segments| - 1].eventCount)
  }

  lemma RolledEntries(rules: Rules, g: Regime, c: Catalog, events: seq<Event>, entry: SegmentEntry)
    requires Describes(rules, g, c, events)
    ensures var d := Rolled(c, entry);
            |d.segments| == |c.segments| + 1 && d.segments[|c.segments|] == entry
            && forall i :: 0 <= i < |c.segments| ==>
                 d.segments[i] == if i == |c.segments| - 1 then c.segments[i].(sealed := true) else c.segments[i]
  {
    ActiveIsLast(rules, g, c, events);
  }

  lemma EntryCarried(rules: Rules, g: Regime, c: Catalog, d: Catalog, events: seq<Event>, i: nat)
    requires i + 1 < |c.segments| && i + 1 < |d.segments| && EntryOk(rules, g, c, i, events)
    requires d.segments[i] == c.segments[i] && d.segments[i + 1].seqStart == c.segments[i + 1].seqStart
    requires i > 0 ==> d.segments[i - 1] == c.segments[i - 1]
    requires d.maxEvents == c.maxEvents && d.maxBytes == c.maxBytes
    ensures EntryOk(rules, g, d, i, events)
  {
  }

  lemma EntrySealed(rules: Rules, g: Regime, c: Catalog, d: Catalog, events: seq<Event>, i: nat)
    requires i + 1 == |c.segments| && i + 2 == |d.segments| && EntryOk(rules, g, c, i, events)
    requires events != [] && (g.Bounded? ==> 0 < c.segments[i].eventCount)
    requires d.segments[i] == c.segments[i].(sealed := true) && d.segments[i + 1].seqStart == |events|
    requires i > 0 ==> d.segments[i - 1] == c.segments[i - 1]
    requires d.maxEvents == c.maxEvents && d.maxBytes == c.maxBytes
    ensures EntryOk(rules, g, d, i, events)
  {
  }

  lemma OldEntryKept(rules: Rules, g: Regime, c: Catalog, events: seq<Event>, entry: SegmentEntry, i: nat)
    requires Describes(rules, g, c, events) && MayRoll(g, c, events) && i < |c.segments|
    requires entry.seqStart == |events|
    ensures var d := Rolled(c, entry);
            i < |d.segments| && EntryOk(rules, g, d, i, events)
  {
    RolledEntries(rules, g, c, events, entry);
    var d := Rolled(c, entry);
    assert EntryOk(rules, g, c, i, events);
    if i + 1 < |c.segments| {
      EntryCarried(rules, g, c, d, events, i);
    } else {
      EntrySealed(rules, g, c, d, events, i);
    }
  }

  lemma NewEntryOk(rules: Rules, g: Regime, c: Catalog, events: seq<Event>, e: Event, prev: Option<string>,
                   createdAt: u64)
    requires Describes(rules, g, c, events) && e.seqNo == |events|
    requires PrevSegment(rules, SealActive(c)) == Ok(prev)
    ensures var d := Rolled(c, NewEntry(c, e, prev, createdAt));
            |d.segments| == |c.segments| + 1 && EntryOk(rules, g, d, |c.segments|, events)
  {
    RolledEntries(rules, g, c, events, NewEntry(c, e, prev, createdAt));
    assert Slice(events, 0, |events|) == events;
  }

  /** Starting a segment keeps the catalog exact. */
  lemma RollKeeps(rules: Rules, g: Regime, c: Catalog, events: seq<Event>, e: Event, prev: Option<string>,
                  createdAt: u64)
    requires Describes(rules, g, c, events) && e.seqNo == |events| && MayRoll(g, c, events)
    requires PrevSegment(rules, SealActive(c)) == Ok(prev)
    ensures Describes(rules, g, Rolled(c, NewEntry(c, e, prev, createdAt)), events)
  {
    var entry := NewEntry(c, e, prev, createdAt);
    var d := Rolled(c, entry);
    RolledEntries(rules, g, c, events, entry);
    forall i | 0 <= i < |d.segments| ensures EntryOk(rules, g, d, i, events) {
      if i == |c.segments| {
        NewEntryOk(rules, g, c, events, e, prev, createdAt);
      } else {
        OldEntryKept(rules, g, c, events, entry, i);
      }
    }
  }

  /** The header of a new segment, written over whatever file had that name, leaves every
      segment of the catalog as it was. */
  lemma HeaderKeeps(rules: Rules, g: Regime, files: map<string, seq<Line>>, c: Catalog, events: seq<Event>,
                    start: nat, lines: seq<Line>)
    requires Exact(rules, g, files, c, events)
    ensures Exact(rules, g, files[FileName(SegmentId(start, |c.segments|)) := lines], c, events)
  {
    var files' := files[FileName(SegmentId(start, |c.segments|)) := lines];
    forall i | 0 <= i < |c.segments| ensures FileOk(rules, files', c.segments, i, events) {
      assert FileOk(rules, files, c.segments, i, events);
      NewNameIsFresh(rules, g, c, events, start, i);
    }
  }

  lemma HeaderUnread(rules: Rules, g: Regime, files: map<string, seq<Line>>, c: Catalog, events: seq<Event>,
                     start: nat, lines: seq<Line>)
    requires Reconcile(files, c).Ok? && Exact(rules, g, files, Reconcile(files, c).value, events)
    ensures Reconcile(files[FileName(SegmentId(start, |c.segments|)) := lines], c) == Reconcile(files, c)
  {
    var r := Reconcile(files, c).value;
    ReconcileShape(files, c);
    ActiveIsLast(rules, g, r, events);
    if c.active.Some? {
      var i := ActiveIndex(c);
      ActiveEntry(files, c, i);
      NewNameIsFresh(rules, g, r, events, start, i);
    }
  }

  /** Once its header is in place, the new segment is stored: it holds no event yet. */
  lemma RolledStored(rules: Rules, g: Regime, files: map<string, seq<Line>>, c: Catalog, events: seq<Event>,
                     entry: SegmentEntry)
    requires Exact(rules, g, files, c, events)
    requires entry.seqStart == |events| && entry.seqEnd == Minus1(entry.seqStart)
    requires entry.fileName in files && files[entry.fileName] == [HeaderLine(HeaderOf(entry))]
    ensures Stored(rules, files, Rolled(c, entry).segments, events)
  {
    var d := Rolled(c, entry);
    RolledEntries(rules, g, c, events, entry);
    forall i | 0 <= i < |d.segments| ensures FileOk(rules, files, d.segments, i, events) {
      if i == |c.segments| {
        assert Slice(events, entry.seqStart, |events|) == [];
        assert [HeaderLine(HeaderOf(entry))] + [] == [HeaderLine(HeaderOf(entry))];
      } else {
        assert FileOk(rules, files, c.segments, i, events);
      }
    }
  }
}
