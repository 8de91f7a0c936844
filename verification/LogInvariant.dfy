/** What a catalog and its segment files say about the list of events they hold, and how
    each single write keeps it true. src/event_log.rs. */
module LogInvariant {
  import opened Prelude
  import opened Backend
  import opened Events
  import opened Segments
  import Decimal

  /** Bounded: every line is at most `lineMax` bytes, the limits leave room for one such
      line, and a segment holds at least one event. Loose: nothing is known of the limits. */
  datatype Regime = Loose | Bounded(lineMax: nat)

  function LineLength(rules: Rules, e: Event): nat {
    if rules.lineBytes(e).Some? then rules.lineBytes(e).value else 0
  }

  function LinesOf(rules: Rules, events: seq<Event>): (r: seq<Line>)
    ensures |r| == |events|
  {
    if events == [] then []
    else [EventLine(events[0], LineLength(rules, events[0]))] + LinesOf(rules, events[1..])
  }

  predicate Sequenced(events: seq<Event>) {
    forall i :: 0 <= i < |events| ==> events[i].seqNo == i
  }

  predicate Lined(rules: Rules, events: seq<Event>) {
    forall i :: 0 <= i < |events| ==> rules.lineBytes(events[i]).Some?
  }

  predicate Short(rules: Rules, lineMax: nat, events: seq<Event>) {
    forall i :: 0 <= i < |events| ==> LineLength(rules, events[i]) <= lineMax
  }

  /** The number of events before the end of segment `i`. */
  function End(segments: seq<SegmentEntry>, i: nat, total: nat): nat {
    if i + 1 < |segments| then segments[i + 1].seqStart else total
  }

  /** The digest of the final header of the segment before `i`. */
  function PrevHeader(rules: Rules, segments: seq<SegmentEntry>, i: nat): Option<string>
    requires i <= |segments|
  {
    if i == 0 then None else rules.headerDigest(HeaderOf(segments[i - 1]))
  }

  function Slice(events: seq<Event>, a: nat, b: nat): seq<Event> {
    if a <= b <= |events| then events[a..b] else []
  }

  predicate WithinLimits(c: Catalog, s: SegmentEntry) {
    s.eventCount <= c.maxEvents && s.sizeBytes <= c.maxBytes && (s.sealed ==> 0 < s.eventCount)
  }

  /** Segment `i` is described exactly: its place, name, counts, digests and seal. */
  predicate EntryOk(rules: Rules, g: Regime, c: Catalog, i: nat, events: seq<Event>)
    requires i < |c.segments|
  {
    var s := c.segments[i];
    var a, b := s.seqStart, End(c.segments, i, |events|);
    && a <= b <= |events|
    && s.segmentId == SegmentId(a, i) && s.fileName == FileName(s.segmentId)
    && s.seqEnd == (if a < b then b - 1 else Minus1(a))
    && s.lastDigest == Head(Slice(events, 0, b))
    && s.eventCount == b - a
    && s.sizeBytes == BytesIn(LinesOf(rules, Slice(events, a, b)))
    && s.sealed == (i + 1 < |c.segments|)
    && (s.sealed ==> 0 < b)
    && s.prevSegment == PrevHeader(rules, c.segments, i)
    && (g.Bounded? ==> WithinLimits(c, s))
  }

  /** The catalog is exact for this list of events. */
  ghost predicate Describes(rules: Rules, g: Regime, c: Catalog, events: seq<Event>) {
    && Sequenced(events) && Lined(rules, events)
    && c.nextSeq == |events| && c.headDigest == Head(events) && c.namespace == NamespaceOf(events)
    && (c.segments == [] ==> events == [] && c.active.None?)
    && (c.segments != [] ==>
          c.segments[0].seqStart == 0 && c.active == Some(c.segments[|c.segments| - 1].segmentId))
    && (forall i :: 0 <= i < |c.segments| ==> EntryOk(rules, g, c, i, events))
    && (g.Bounded? ==> 1 <= c.maxEvents && g.lineMax <= c.maxBytes)
  }

  /** The header written when the segment was empty. */
  function FirstHeader(s: SegmentEntry): SegmentHeader {
    HeaderOf(s).(seqEnd := Minus1(s.seqStart))
  }

  function FileOf(rules: Rules, segments: seq<SegmentEntry>, i: nat, events: seq<Event>): seq<Line>
    requires i < |segments|
  {
    [HeaderLine(FirstHeader(segments[i]))]
    + LinesOf(rules, Slice(events, segments[i].seqStart, End(segments, i, |events|)))
  }

  predicate FileOk(rules: Rules, files: map<string, seq<Line>>, segments: seq<SegmentEntry>, i: nat, events: seq<Event>)
    requires i < |segments|
  {
    segments[i].fileName in files && files[segments[i].fileName] == FileOf(rules, segments, i, events)
  }

  /** Each segment file holds its header and exactly the lines of its events. */
  ghost predicate Stored(rules: Rules, files: map<string, seq<Line>>, segments: seq<SegmentEntry>, events: seq<Event>) {
    forall i :: 0 <= i < |segments| ==> FileOk(rules, files, segments, i, events)
  }

  ghost predicate Exact(rules: Rules, g: Regime, files: map<string, seq<Line>>, c: Catalog, events: seq<Event>) {
    Describes(rules, g, c, events) && Stored(rules, files, c.segments, events)
  }

  /** What the disk has to satisfy for the log to hold exactly these events: the catalog,
      once reconciled, is exact; or there is no catalog yet and the old single file, which
      may be missing, holds them. */
  ghost predicate DiskIs(rules: Rules, g: Regime, limits: Limits, fs: FileSystem, events: seq<Event>) {
    match fs.catalog
    case None =>
      && EventsIn(LegacyLines(fs)) == events && Sequenced(events) && Lined(rules, events)
      && (g.Bounded? ==> 1 <= limits.maxEvents && g.lineMax <= limits.maxBytes && Short(rules, g.lineMax, events))
    case Some(c) =>
      Reconcile(fs.segments, c).Ok? && Exact(rules, g, fs.segments, Reconcile(fs.segments, c).value, events)
  }

  predicate UnfoldDurable(fs: FileSystem, n: nat, key: int) {
    true
  }

  /** `DiskIs`, behind a trivially true trigger, so that a proof looks inside only where it
      calls `DurableIs`. */
  ghost predicate Durable(rules: Rules, g: Regime, limits: Limits, fs: FileSystem, events: seq<Event>) {
    forall key: int {:trigger UnfoldDurable(fs, |events|, key)} :: UnfoldDurable(fs, |events|, key) ==>
      DiskIs(rules, g, limits, fs, events)
  }

  lemma DurableIs(rules: Rules, g: Regime, limits: Limits, fs: FileSystem, events: seq<Event>)
    ensures Durable(rules, g, limits, fs, events) <==> DiskIs(rules, g, limits, fs, events)
  {
    assert UnfoldDurable(fs, |events|, 0);
  }

  // ---------------------------------------------------------------------------
  // Lines.
  // ---------------------------------------------------------------------------

  lemma {:induction false} EventsAppend(a: seq<Line>, b: seq<Line>)
    ensures EventsIn(a + b) == EventsIn(a) + EventsIn(b)
  {
    if a == [] {
      assert a + b == b;
    } else {
      assert (a + b)[1..] == a[1..] + b;
      EventsAppend(a[1..], b);
      var first := if a[0].EventLine? then [a[0].event] else [];
      assert first + (EventsIn(a[1..]) + EventsIn(b)) == (first + EventsIn(a[1..])) + EventsIn(b);
    }
  }

  lemma {:induction false} BytesAppend(a: seq<Line>, b: seq<Line>)
    ensures BytesIn(a + b) == BytesIn(a) + BytesIn(b)
  {
    if a == [] {
      assert a + b == b;
    } else {
      assert (a + b)[1..] == a[1..] + b;
      BytesAppend(a[1..], b);
    }
  }

  lemma LinesAppend(a: seq<Line>, b: seq<Line>)
    ensures EventsIn(a + b) == EventsIn(a) + EventsIn(b)
    ensures BytesIn(a + b) == BytesIn(a) + BytesIn(b)
  {
    EventsAppend(a, b);
    BytesAppend(a, b);
  }

  lemma {:induction false} LinesOfAppend(rules: Rules, a: seq<Event>, b: seq<Event>)
    ensures LinesOf(rules, a + b) == LinesOf(rules, a) + LinesOf(rules, b)
  {
    if a == [] {
      assert a + b == b;
    } else {
      assert (a + b)[1..] == a[1..] + b;
      LinesOfAppend(rules, a[1..], b);
    }
  }

  lemma {:induction false} EventsOfLines(rules: Rules, events: seq<Event>)
    ensures EventsIn(LinesOf(rules, events)) == events
  {
    if events != [] {
      EventsOfLines(rules, events[1..]);
    }
  }

  lemma EventsOfFile(rules: Rules, h: SegmentHeader, events: seq<Event>)
    ensures EventsIn([HeaderLine(h)] + LinesOf(rules, events)) == events
    ensures BytesIn([HeaderLine(h)] + LinesOf(rules, events)) == BytesIn(LinesOf(rules, events))
  {
    LinesAppend([HeaderLine(h)], LinesOf(rules, events));
    EventsOfLines(rules, events);
    assert EventsIn([HeaderLine(h)]) == [] by {
      assert [HeaderLine(h)][1..] == [];
    }
  }

  lemma OneMore(rules: Rules, events: seq<Event>, e: Event)
    ensures LinesOf(rules, events + [e]) == LinesOf(rules, events) + [EventLine(e, LineLength(rules, e))]
    ensures BytesIn(LinesOf(rules, events + [e])) == BytesIn(LinesOf(rules, events)) + LineLength(rules, e)
  {
    var l := [EventLine(e, LineLength(rules, e))];
    LinesOfAppend(rules, events, [e]);
    assert LinesOf(rules, [e]) == l by {
      assert [e][1..] == [];
    }
    LinesAppend(LinesOf(rules, events), l);
    assert BytesIn(l) == LineLength(rules, e) by {
      assert l[1..] == [];
    }
  }

  // ---------------------------------------------------------------------------
  // Segment ids.
  // ---------------------------------------------------------------------------

  lemma SameAround(before: string, x: string, y: string, after: string)
    requires before + x + after == before + y + after
    ensures x == y
  {
    var s := before + x + after;
    assert |x| == |y|;
    assert x == s[|before|..|before| + |x|];
    assert y == (before + y + after)[|before|..|before| + |y|];
  }

  predicate NoDash(s: string) {
    forall k :: 0 <= k < |s| ==> s[k] != '-'
  }

  lemma NatTextNoDash(n: nat)
    ensures NoDash(Decimal.NatText(n))
  {
    Decimal.NatTextValue(n);
    var s := Decimal.NatText(n);
    assert forall k :: 0 <= k < |s| ==> Decimal.IsDigit(s[k]);
  }

  lemma DashAt(a: string, n: string, b: string, m: string)
    requires a + "-" + n == b + "-" + m && NoDash(a) && NoDash(b)
    ensures a == b && n == m
  {
    var s := a + "-" + n;
    assert s[|a|] == '-' && s[|b|] == '-';
    assert forall k :: 0 <= k < |a| ==> s[k] == a[k];
    assert forall k :: 0 <= k < |b| ==> s[k] == b[k];
    assert |a| == |b|;
    assert a == s[..|a|] && b == s[..|b|];
    assert n == s[|a| + 1..] && m == s[|b| + 1..];
  }

  lemma SameNumber(n: nat, m: nat)
    requires Decimal.NatText(n) == Decimal.NatText(m)
    ensures n == m
  {
    Decimal.NatTextValue(n);
    Decimal.NatTextValue(m);
  }

  lemma IdParts(a: nat, n: nat)
    ensures FileName(SegmentId(a, n)) == "seg-" + (Decimal.NatText(a) + "-" + Decimal.NatText(n)) + ".jsonl"
  {
  }

  /** Segment ids, and so file names, tell apart both start and position. */
  lemma SegmentIdInjective(a: nat, n: nat, b: nat, m: nat)
    requires FileName(SegmentId(a, n)) == FileName(SegmentId(b, m))
    ensures a == b && n == m
  {
    var s, t := Decimal.NatText(a), Decimal.NatText(b);
    var u, v := Decimal.NatText(n), Decimal.NatText(m);
    IdParts(a, n);
    IdParts(b, m);
    SameAround("seg-", s + "-" + u, t + "-" + v, ".jsonl");
    NatTextNoDash(a);
    NatTextNoDash(b);
    DashAt(s, u, t, v);
    SameNumber(a, b);
    SameNumber(n, m);
  }

  lemma NamesDiffer(rules: Rules, g: Regime, c: Catalog, events: seq<Event>, i: nat, j: nat)
    requires Describes(rules, g, c, events) && i < j < |c.segments|
    ensures c.segments[i].segmentId != c.segments[j].segmentId
    ensures c.segments[i].fileName != c.segments[j].fileName
  {
    assert EntryOk(rules, g, c, i, events) && EntryOk(rules, g, c, j, events);
    if c.segments[i].fileName == c.segments[j].fileName {
      SegmentIdInjective(c.segments[i].seqStart, i, c.segments[j].seqStart, j);
    }
  }

  /** A new segment never takes the name of one in the catalog. */
  lemma NewNameIsFresh(rules: Rules, g: Regime, c: Catalog, events: seq<Event>, start: nat, i: nat)
    requires Describes(rules, g, c, events) && i < |c.segments|
    ensures c.segments[i].fileName != FileName(SegmentId(start, |c.segments|))
    ensures c.segments[i].segmentId != SegmentId(start, |c.segments|)
  {
    assert EntryOk(rules, g, c, i, events);
    if c.segments[i].fileName == FileName(SegmentId(start, |c.segments|)) {
      SegmentIdInjective(c.segments[i].seqStart, i, start, |c.segments|);
    }
  }

  lemma FindUnique(segments: seq<SegmentEntry>, id: string, i: nat)
    requires i < |segments| && segments[i].segmentId == id
    requires forall j :: 0 <= j < i ==> segments[j].segmentId != id
    ensures Find(segments, id) == i
  {
  }

  lemma ActiveIsLast(rules: Rules, g: Regime, c: Catalog, events: seq<Event>)
    requires Describes(rules, g, c, events)
    ensures c.segments == [] ==> ActiveIndex(c) == 0
    ensures c.segments != [] ==> ActiveIndex(c) == |c.segments| - 1
  {
    if c.segments != [] {
      var last := |c.segments| - 1;
      forall j | 0 <= j < last ensures c.segments[j].segmentId != c.segments[last].segmentId {
        NamesDiffer(rules, g, c, events, j, last);
      }
      FindUnique(c.segments, c.segments[last].segmentId, last);
    }
  }

  // ---------------------------------------------------------------------------
  // Reading an exact catalog.
  // ---------------------------------------------------------------------------

  /** The catalog with another tail recorded for its active segment. */
  function WithTail(c: Catalog, s: SegmentEntry, nextSeq: nat, headDigest: string, namespace: Option<string>): Catalog
    requires ActiveIndex(c) < |c.segments|
  {
    var tail := c.segments[ActiveIndex(c)].(
      seqEnd := s.seqEnd, lastDigest := s.lastDigest, eventCount := s.eventCount, sizeBytes := s.sizeBytes);
    c.(segments := c.segments[ActiveIndex(c) := tail],
       nextSeq := nextSeq, headDigest := headDigest, namespace := namespace)
  }

  lemma TailKeepsActive(c: Catalog, s: SegmentEntry, nextSeq: nat, headDigest: string, namespace: Option<string>)
    requires c.active.Some? && ActiveIndex(c) < |c.segments|
    ensures ActiveIndex(WithTail(c, s, nextSeq, headDigest, namespace)) == ActiveIndex(c)
  {
    var d := WithTail(c, s, nextSeq, headDigest, namespace);
    var i := ActiveIndex(c);
    assert d.segments[i].segmentId == c.active.value;
    forall k | 0 <= k < i ensures d.segments[k].segmentId != c.active.value {
    }
  }

  lemma UpdateTwice(segments: seq<SegmentEntry>, i: nat, a: SegmentEntry, b: SegmentEntry)
    requires i < |segments|
    ensures segments[i := a][i := b] == segments[i := b]
  {
  }

  /** A catalog left behind by a crash: whatever tail it records for the active segment,
      reconciling gives what the events in the file say. While the file has none, that goes
      for the next number alone. */
  lemma StaleTailForgotten(files: map<string, seq<Line>>, c: Catalog, s: SegmentEntry, nextSeq: nat,
                           headDigest: string, namespace: Option<string>)
    requires c.active.Some? && ActiveIndex(c) < |c.segments| && c.segments[ActiveIndex(c)].fileName in files
    requires var entry := c.segments[ActiveIndex(c)];
             EventsIn(files[entry.fileName]) != []
             || (s == entry && headDigest == c.headDigest && namespace == c.namespace)
    ensures Reconcile(files, WithTail(c, s, nextSeq, headDigest, namespace)) == Reconcile(files, c)
  {
    TailKeepsActive(c, s, nextSeq, headDigest, namespace);
    var i := ActiveIndex(c);
    var d := WithTail(c, s, nextSeq, headDigest, namespace);
    var events := EventsIn(files[c.segments[i].fileName]);
    if events == [] {
      assert c.segments[i := c.segments[i]] == c.segments;
    } else {
      UpdateTwice(c.segments, i, d.segments[i], Reconcile(files, c).value.segments[i]);
    }
  }

  /** Reconciling changes nothing when the catalog is exact already. */
  lemma ReconcileExact(rules: Rules, g: Regime, files: map<string, seq<Line>>, c: Catalog, events: seq<Event>)
    requires Exact(rules, g, files, c, events)
    ensures Reconcile(files, c) == Ok(c)
  {
    if c.segments != [] {
      ActiveIsLast(rules, g, c, events);
      ActiveTail(rules, g, files, c, events);
      var i := |c.segments| - 1;
      assert c.segments[i := c.segments[i]] == c.segments;
    }
  }

  /** What a scan of the active file finds. */
  lemma ActiveTail(rules: Rules, g: Regime, files: map<string, seq<Line>>, c: Catalog, events: seq<Event>)
    requires Exact(rules, g, files, c, events) && c.segments != []
    ensures var s := c.segments[|c.segments| - 1];
            s.seqStart <= |events| && s.fileName in files
            && EventsIn(files[s.fileName]) == events[s.seqStart..] && BytesIn(files[s.fileName]) == s.sizeBytes
            && s.eventCount == |events| - s.seqStart
            && (s.seqStart < |events| ==> s.seqEnd == |events| - 1 && s.lastDigest == Head(events))
  {
    var i := |c.segments| - 1;
    var s := c.segments[i];
    assert EntryOk(rules, g, c, i, events) && FileOk(rules, files, c.segments, i, events);
    assert Slice(events, s.seqStart, |events|) == events[s.seqStart..] && Slice(events, 0, |events|) == events;
    EventsOfFile(rules, FirstHeader(s), events[s.seqStart..]);
  }

  /** The segments that start at `k`, in the order given. */
  function StartingAt(segments: seq<SegmentEntry>, k: nat): seq<SegmentEntry> {
    if segments == [] then []
    else (if segments[0].seqStart == k then [segments[0]] else []) + StartingAt(segments[1..], k)
  }

  predicate ByStart(segments: seq<SegmentEntry>) {
    forall i, j :: 0 <= i < j < |segments| ==> segments[i].seqStart <= segments[j].seqStart
  }

  lemma {:induction false} InsertPermutes(s: SegmentEntry, sorted: seq<SegmentEntry>)
    ensures multiset(InsertByStart(s, sorted)) == multiset{s} + multiset(sorted)
  {
    if sorted != [] && s.seqStart > sorted[0].seqStart {
      InsertPermutes(s, sorted[1..]);
      assert sorted == [sorted[0]] + sorted[1..];
    }
  }

  predicate StartsFrom(segments: seq<SegmentEntry>, k: nat) {
    forall i :: 0 <= i < |segments| ==> k <= segments[i].seqStart
  }

  lemma {:induction false} InsertSorts(s: SegmentEntry, sorted: seq<SegmentEntry>, k: nat)
    requires ByStart(sorted) && StartsFrom(sorted, k) && k <= s.seqStart
    ensures ByStart(InsertByStart(s, sorted)) && StartsFrom(InsertByStart(s, sorted), k)
  {
    if sorted != [] && s.seqStart > sorted[0].seqStart {
      InsertSorts(s, sorted[1..], sorted[0].seqStart);
    }
  }

  lemma {:induction false} InsertStable(s: SegmentEntry, sorted: seq<SegmentEntry>, k: nat)
    requires ByStart(sorted)
    ensures StartingAt(InsertByStart(s, sorted), k) == StartingAt([s] + sorted, k)
  {
    assert ([s] + sorted)[1..] == sorted;
    if sorted != [] && s.seqStart > sorted[0].seqStart {
      InsertStable(s, sorted[1..], k);
      assert ([s] + sorted[1..])[1..] == sorted[1..];
    }
  }

  /** `SortByStart` is a stable sort: ascending, a permutation, and segments with one start
      keep their order. */
  lemma {:induction false} SortIsStable(segments: seq<SegmentEntry>)
    ensures ByStart(SortByStart(segments)) && multiset(SortByStart(segments)) == multiset(segments)
    ensures forall k: nat :: StartingAt(SortByStart(segments), k) == StartingAt(segments, k)
  {
    if segments != [] {
      var rest := SortByStart(segments[1..]);
      SortIsStable(segments[1..]);
      InsertSorts(segments[0], rest, 0);
      InsertPermutes(segments[0], rest);
      assert segments == [segments[0]] + segments[1..];
      forall k: nat ensures StartingAt(SortByStart(segments), k) == StartingAt(segments, k) {
        InsertStable(segments[0], rest, k);
        assert ([segments[0]] + rest)[1..] == rest;
      }
    }
  }

  lemma {:induction false} SortKeeps(segments: seq<SegmentEntry>)
    requires forall i :: 0 <= i < |segments| - 1 ==> segments[i].seqStart <= segments[i + 1].seqStart
    ensures SortByStart(segments) == segments
  {
    if segments != [] {
      var rest := segments[1..];
      forall i | 0 <= i < |rest| - 1 ensures rest[i].seqStart <= rest[i + 1].seqStart {
        assert rest[i] == segments[i + 1] && rest[i + 1] == segments[i + 2];
        assert segments[i + 1].seqStart <= segments[(i + 1) + 1].seqStart;
      }
      SortKeeps(rest);
      if rest != [] {
        assert segments[0].seqStart <= segments[0 + 1].seqStart;
      }
      assert segments == [segments[0]] + rest;
    }
  }

  lemma OrderedExact(rules: Rules, g: Regime, c: Catalog, events: seq<Event>)
    requires Describes(rules, g, c, events)
    ensures Ordered(c) == Ok(c.segments)
  {
    forall i | 0 <= i < |c.segments| - 1
      ensures c.segments[i].seqStart <= c.segments[i + 1].seqStart
      ensures c.segments[i].seqEnd < c.segments[i + 1].seqStart
    {
      assert EntryOk(rules, g, c, i, events);
    }
    SortKeeps(c.segments);
  }

  lemma {:induction false} LoadSuffix(rules: Rules, g: Regime, files: map<string, seq<Line>>, c: Catalog,
                                      events: seq<Event>, i: nat)
    requires Exact(rules, g, files, c, events) && i <= |c.segments|
    ensures var from := if i < |c.segments| then c.segments[i].seqStart else |events|;
            from <= |events| && LoadSegments(files, c.segments[i..]) == Ok(events[from..])
    decreases |c.segments| - i
  {
    if i < |c.segments| {
      LoadSuffix(rules, g, files, c, events, i + 1);
      assert EntryOk(rules, g, c, i, events) && FileOk(rules, files, c.segments, i, events);
      var s := c.segments[i];
      var b := End(c.segments, i, |events|);
      EventsOfFile(rules, FirstHeader(s), events[s.seqStart..b]);
      assert Slice(events, s.seqStart, b) == events[s.seqStart..b];
      assert c.segments[i..][0] == s && c.segments[i..][1..] == c.segments[i + 1..];
      assert events[s.seqStart..] == events[s.seqStart..b] + events[b..];
    } else {
      assert c.segments[i..] == [] && events[|events|..] == [];
    }
  }

  lemma LoadExact(rules: Rules, g: Regime, files: map<string, seq<Line>>, c: Catalog, events: seq<Event>)
    requires Exact(rules, g, files, c, events)
    ensures Ordered(c).Ok? && LoadSegments(files, Ordered(c).value) == Ok(events)
  {
    OrderedExact(rules, g, c, events);
    LoadSuffix(rules, g, files, c, events, 0);
    assert c.segments[0..] == c.segments && events[0..] == events;
  }

  /** Opening the log gives the events back, and the tail matches the last of them. */
  lemma DurableLoads(rules: Rules, g: Regime, limits: Limits, fs: FileSystem, events: seq<Event>)
    requires Durable(rules, g, limits, fs, events)
    ensures Load(fs) == Ok(events)
    ensures TailMetadata(fs) == Ok(Tail(NextSeq(events), Head(events), NamespaceOf(events)))
  {
    DurableIs(rules, g, limits, fs, events);
    if fs.catalog.Some? {
      var r := Reconcile(fs.segments, fs.catalog.value).value;
      LoadExact(rules, g, fs.segments, r, events);
      assert NextSeq(events) == |events|;
    }
  }
}
