/** The segmented log on disk: catalog, segment files and the operations on them.
    src/event_log.rs.

    A line of a file is an event together with its length in bytes. Each disk write is a
    step of its own, and the states of the disk after every step are recorded, since any
    of them may be what a crash leaves behind. */
module Segments {
  import opened Prelude
  import opened Backend
  import opened CanonicalJson
  import opened Digests
  import opened Events
  import opened Records
  import Decimal
  import Utf8

  const PROTOCOL_VERSION: string := "1.0.0"

  datatype SegmentHeader = SegmentHeader(
    segmentId: string,
    namespace: string,
    seqStart: u64,
    seqEnd: u64,
    firstDigest: string,
    prevSegment: Option<string>,
    createdAt: u64,
    protocolVer: string)

  datatype SegmentEntry = SegmentEntry(
    segmentId: string,
    fileName: string,
    namespace: string,
    seqStart: u64,
    seqEnd: u64,
    firstDigest: string,
    lastDigest: string,
    prevSegment: Option<string>,
    createdAt: u64,
    protocolVer: string,
    sealed: bool,
    eventCount: nat,
    sizeBytes: nat)

  datatype Catalog = Catalog(
    namespace: Option<string>,
    nextSeq: nat,
    headDigest: string,
    active: Option<string>,
    maxEvents: nat,
    maxBytes: nat,
    segments: seq<SegmentEntry>)

  datatype Line = HeaderLine(header: SegmentHeader) | BlankLine | EventLine(event: Event, bytes: nat)

  /** The files of one log. A missing segments directory is an empty map. */
  datatype FileSystem = FileSystem(
    catalog: Option<Catalog>,
    segments: map<string, seq<Line>>,
    legacy: Option<seq<Line>>,
    migratingSegments: map<string, seq<Line>>,
    migratingCatalog: Option<Catalog>,
    legacyBackup: Option<seq<Line>>)

  datatype LogError = MissingActiveSegment | MissingFile | OverlappingSegments

  /** What the log computes but does not decide: digest validity, the length of an event's
      canonical line, and the digest of a segment header. */
  datatype Rules = Rules(
    validate: Validator,
    lineBytes: Event -> Option<nat>,
    headerDigest: SegmentHeader -> Option<string>)

  function HeaderFields(h: SegmentHeader): seq<Field> {
    [ Field("segment_id", Some(JString(h.segmentId))),
      Field("namespace", Some(JString(h.namespace))),
      Field("seq_start", Some(JNumber(Integer(h.seqStart)))),
      Field("seq_end", Some(JNumber(Integer(h.seqEnd)))),
      Field("first_digest", Some(JString(h.firstDigest))),
      Field("prev_segment", Some(if h.prevSegment.None? then JNull else JString(h.prevSegment.value))),
      Field("created_at", Some(JNumber(Integer(h.createdAt)))),
      Field("protocol_ver", Some(JString(h.protocolVer))) ]
  }

  /** `SegmentHeader::digest_hex`. */
  function HeaderDigest(sha: Hash, h: SegmentHeader): Option<string> {
    match Print(JObject(Present(HeaderFields(h))))
    case Ok(text) => Some(HexDigest(sha, Utf8.Encode(text)))
    case Err(_) => None
  }

  /** The length of an event's line: its canonical JSON and a newline. */
  function LineBytes(e: Event): Option<nat> {
    match Print(EventJson(e))
    case Ok(text) => Some(|Utf8.Encode(text)| + 1)
    case Err(_) => None
  }

  function ShaRules(sha: Hash): Rules {
    Rules(ShaValidator(sha), e => LineBytes(e), h => HeaderDigest(sha, h))
  }

  function HeaderOf(s: SegmentEntry): SegmentHeader {
    SegmentHeader(s.segmentId, s.namespace, s.seqStart, s.seqEnd, s.firstDigest, s.prevSegment,
                  s.createdAt, s.protocolVer)
  }

  function NewCatalog(limits: Limits): Catalog {
    Catalog(None, 0, ZERO_DIGEST_HEX, None, limits.maxEvents, limits.maxBytes, [])
  }

  function SegmentId(seqStart: nat, count: nat): string {
    "seg-" + Decimal.NatText(seqStart) + "-" + Decimal.NatText(count)
  }

  function FileName(segmentId: string): string {
    segmentId + ".jsonl"
  }

  // ---------------------------------------------------------------------------
  // Reading.
  // ---------------------------------------------------------------------------

  function EventsIn(lines: seq<Line>): seq<Event> {
    if lines == [] then []
    else (if lines[0].EventLine? then [lines[0].event] else []) + EventsIn(lines[1..])
  }

  function BytesIn(lines: seq<Line>): nat {
    if lines == [] then 0
    else (if lines[0].EventLine? then lines[0].bytes else 0) + BytesIn(lines[1..])
  }

  /** Position of the first segment with the given id. */
  function Find(segments: seq<SegmentEntry>, id: string): (i: nat)
    ensures i <= |segments|
    ensures i < |segments| ==> segments[i].segmentId == id
    ensures forall j :: 0 <= j < i ==> segments[j].segmentId != id
  {
    if segments == [] || segments[0].segmentId == id then 0 else 1 + Find(segments[1..], id)
  }

  /** Position of the active segment, or the number of segments. */
  function ActiveIndex(c: Catalog): (i: nat)
    ensures i <= |c.segments|
  {
    if c.active.None? then |c.segments| else Find(c.segments, c.active.value)
  }

  /** `reconcile_catalog_tail`: the tail of the active segment file overrides the catalog. */
  function Reconcile(files: map<string, seq<Line>>, c: Catalog): Result<Catalog, LogError> {
    if c.active.None? then Ok(c)
    else
      var i := ActiveIndex(c);
      if i == |c.segments| then Err(MissingActiveSegment)
      else if c.segments[i].fileName !in files then Err(MissingFile)
      else
        var lines := files[c.segments[i].fileName];
        var events := EventsIn(lines);
        if events == [] then Ok(c.(nextSeq := c.segments[i].seqStart))
        else
          var last := events[|events| - 1];
          var entry := c.segments[i].(seqEnd := last.seqNo, lastDigest := last.digest,
                                      eventCount := |events|, sizeBytes := BytesIn(lines));
          Ok(c.(segments := c.segments[i := entry], namespace := Some(last.namespace),
                nextSeq := last.seqNo + 1, headDigest := last.digest))
  }

  /** A stable sort by first sequence number. */
  function InsertByStart(s: SegmentEntry, sorted: seq<SegmentEntry>): seq<SegmentEntry> {
    if sorted == [] || s.seqStart <= sorted[0].seqStart then [s] + sorted
    else [sorted[0]] + InsertByStart(s, sorted[1..])
  }

  function SortByStart(segments: seq<SegmentEntry>): seq<SegmentEntry> {
    if segments == [] then [] else InsertByStart(segments[0], SortByStart(segments[1..]))
  }

  /** `ordered_segments`. */
  function Ordered(c: Catalog): Result<seq<SegmentEntry>, LogError> {
    var sorted := SortByStart(c.segments);
    if exists i :: 0 <= i < |sorted| - 1 && sorted[i + 1].seqStart <= sorted[i].seqEnd
    then Err(OverlappingSegments)
    else Ok(sorted)
  }

  function LoadSegments(files: map<string, seq<Line>>, segments: seq<SegmentEntry>): Result<seq<Event>, LogError> {
    if segments == [] then Ok([])
    else if segments[0].fileName !in files then Err(MissingFile)
    else
      match LoadSegments(files, segments[1..])
      case Err(e) => Err(e)
      case Ok(rest) => Ok(EventsIn(files[segments[0].fileName]) + rest)
  }

  function LegacyLines(fs: FileSystem): seq<Line> {
    if fs.legacy.Some? then fs.legacy.value else []
  }

  /** `load`. */
  function Load(fs: FileSystem): Result<seq<Event>, LogError> {
    match fs.catalog
    case None => Ok(EventsIn(LegacyLines(fs)))
    case Some(c) =>
      match Reconcile(fs.segments, c)
      case Err(e) => Err(e)
      case Ok(reconciled) =>
        match Ordered(reconciled)
        case Err(e) => Err(e)
        case Ok(segments) => LoadSegments(fs.segments, segments)
  }

  datatype Limits = Limits(maxEvents: nat, maxBytes: nat)

  /** The catalog an append starts from: the reconciled one, or a new one. */
  function View(fs: FileSystem, limits: Limits): Result<Catalog, LogError> {
    match fs.catalog
    case None => Ok(NewCatalog(limits))
    case Some(c) => Reconcile(fs.segments, c)
  }

  datatype Tail = Tail(nextSeq: nat, prevDigest: string, namespace: Option<string>)

  /** `tail_metadata`. */
  function TailMetadata(fs: FileSystem): Result<Tail, LogError> {
    match fs.catalog
    case None =>
      var events := EventsIn(LegacyLines(fs));
      Ok(Tail(NextSeq(events), Head(events), NamespaceOf(events)))
    case Some(c) =>
      match Reconcile(fs.segments, c)
      case Err(e) => Err(e)
      case Ok(r) => Ok(Tail(r.nextSeq, r.headDigest, r.namespace))
  }

  // ---------------------------------------------------------------------------
  // Appending, in memory and on disk.
  // ---------------------------------------------------------------------------

  /** The open buffered writer: lines not yet handed to the file. */
  datatype Writer = Writer(file: string, pending: seq<Line>)

  /** One append call in progress: the disk, the catalog in memory, the writer, and every
      state the disk has gone through. */
  datatype Session = Session(
    fs: FileSystem,
    catalog: Catalog,
    writer: Option<Writer>,
    dirty: bool,
    trace: seq<FileSystem>)

  /** What the surroundings decide for one event: the clock, and how many buffered lines
      the writer hands over early. */
  datatype Env = Env(createdAt: u64, spill: nat)

  function Visit(s: Session, fs: FileSystem): Session {
    s.(fs := fs, trace := s.trace + [fs])
  }

  function WithFile(fs: FileSystem, file: string, lines: seq<Line>): FileSystem {
    fs.(segments := fs.segments[file := lines])
  }

  function FileLines(fs: FileSystem, file: string): seq<Line> {
    if file in fs.segments then fs.segments[file] else []
  }

  /** The first `n` pending lines reach the file, one after the other. */
  function Spill(s: Session, n: nat): Session
    decreases n
  {
    if n == 0 || s.writer.None? || s.writer.value.pending == [] then s
    else
      var w := s.writer.value;
      var fs := WithFile(s.fs, w.file, FileLines(s.fs, w.file) + [w.pending[0]]);
      Spill(Visit(s, fs).(writer := Some(Writer(w.file, w.pending[1..]))), n - 1)
  }

  function Flush(s: Session): Session {
    if s.writer.None? then s else Spill(s, |s.writer.value.pending|)
  }

  /** The catalog is replaced as a whole, by renaming a finished file over it. */
  function SaveCatalog(s: Session): Session {
    Visit(s, s.fs.(catalog := Some(s.catalog)))
  }

  function NeedsSegment(c: Catalog, bytes: nat): bool {
    var i := ActiveIndex(c);
    i == |c.segments|
    || c.segments[i].eventCount >= c.maxEvents
    || c.segments[i].sizeBytes + bytes > c.maxBytes
  }

  /** The active segment, the first one with the active id, can take one more line of so many
      bytes. */
  predicate HasSpace(c: Catalog, bytes: nat) {
    exists i :: 0 <= i < |c.segments|
                && c.active == Some(c.segments[i].segmentId)
                && (forall j :: 0 <= j < i ==> c.segments[j].segmentId != c.segments[i].segmentId)
                && c.segments[i].eventCount + 1 <= c.maxEvents && c.segments[i].sizeBytes + bytes <= c.maxBytes
  }

  lemma NeedsSegmentIff(c: Catalog, bytes: nat)
    ensures NeedsSegment(c, bytes) <==> !HasSpace(c, bytes)
  {
    if HasSpace(c, bytes) {
      var i :| 0 <= i < |c.segments| && c.active == Some(c.segments[i].segmentId)
               && (forall j :: 0 <= j < i ==> c.segments[j].segmentId != c.segments[i].segmentId)
               && c.segments[i].eventCount + 1 <= c.maxEvents && c.segments[i].sizeBytes + bytes <= c.maxBytes;
      assert ActiveIndex(c) == i;
    }
  }

  function Minus1(n: u64): u64 {
    if n == 0 then 0 else n - 1
  }

  /** The entry of a segment that starts with `e`. */
  function NewEntry(c: Catalog, e: Event, prevSegment: Option<string>, createdAt: u64): SegmentEntry {
    var id := SegmentId(e.seqNo, |c.segments|);
    SegmentEntry(id, FileName(id), e.namespace, e.seqNo, Minus1(e.seqNo), e.digest, c.headDigest,
                 prevSegment, createdAt, PROTOCOL_VERSION, false, 0, 0)
  }

  function SealActive(c: Catalog): seq<SegmentEntry> {
    var i := ActiveIndex(c);
    if i == |c.segments| then c.segments else c.segments[i := c.segments[i].(sealed := true)]
  }

  /** The digest of the last header, when there is a segment before. */
  function PrevSegment(rules: Rules, segments: seq<SegmentEntry>): Result<Option<string>, AppendError> {
    if segments == [] then Ok(None)
    else
      match rules.headerDigest(HeaderOf(segments[|segments| - 1]))
      case None => Err(Storage)
      case Some(d) => Ok(Some(d))
  }

  /** `roll_segment_if_needed` where a segment is needed: seal the active one, write the
      header of the new one, and make it the active one in memory. */
  function Roll(rules: Rules, s: Session, e: Event, createdAt: u64): Result<Session, AppendError> {
    var segments := SealActive(s.catalog);
    match PrevSegment(rules, segments)
    case Err(err) => Err(err)
    case Ok(prev) =>
      var entry := NewEntry(s.catalog, e, prev, createdAt);
      var visited := Visit(s, WithFile(s.fs, entry.fileName, [HeaderLine(HeaderOf(entry))]));
      Ok(visited.(catalog := s.catalog.(active := Some(entry.segmentId), segments := segments + [entry])))
  }

  /** The old writer is flushed and the catalog written before any line enters the new
      segment. */
  function AfterRoll(s: Session): Session {
    SaveCatalog(Flush(s).(writer := None))
  }

  function OpenWriter(s: Session, file: string): Session {
    if s.writer.Some? && s.writer.value.file == file then s
    else
      var flushed := Flush(s);
      Visit(flushed, WithFile(flushed.fs, file, FileLines(flushed.fs, file))).(writer := Some(Writer(file, [])))
  }

  function Buffer(s: Session, line: Line): Session
    requires s.writer.Some?
  {
    s.(writer := Some(Writer(s.writer.value.file, s.writer.value.pending + [line])))
  }

  /** The catalog in memory once `e` has been written. */
  function Record(c: Catalog, i: nat, e: Event, bytes: nat): Catalog
    requires i < |c.segments|
  {
    var entry := c.segments[i].(seqEnd := e.seqNo, lastDigest := e.digest,
                                eventCount := c.segments[i].eventCount + 1,
                                sizeBytes := c.segments[i].sizeBytes + bytes);
    c.(segments := c.segments[i := entry],
       namespace := if c.namespace.None? then Some(e.namespace) else c.namespace,
       nextSeq := e.seqNo + 1,
       headDigest := e.digest)
  }

  /** A session, and the error that ended it if there was one. */
  datatype Progress = Progress(session: Session, error: Option<AppendError>)

  function WriteEvent(s: Session, e: Event, bytes: nat, env: Env): Progress {
    var i := ActiveIndex(s.catalog);
    if i == |s.catalog.segments| then Progress(s, Some(Storage))
    else
      var ready := OpenWriter(s, s.catalog.segments[i].fileName);
      var buffered := Buffer(ready, EventLine(e, bytes));
      Progress(Spill(buffered, env.spill).(catalog := Record(s.catalog, i, e, bytes), dirty := true), None)
  }

  function EnsureSegment(rules: Rules, s: Session, e: Event, bytes: nat, env: Env): Result<Session, AppendError> {
    if !NeedsSegment(s.catalog, bytes) then Ok(s)
    else
      match Roll(rules, s, e, env.createdAt)
      case Err(err) => Err(err)
      case Ok(rolled) => Ok(if rolled.catalog.active != s.catalog.active then AfterRoll(rolled) else rolled)
  }

  /** One turn of the append loop. */
  function AppendOne(rules: Rules, s: Session, e: Event, env: Env): Progress {
    match Admit(rules.validate, s.catalog.nextSeq, s.catalog.headDigest, s.catalog.namespace, e)
    case Err(err) => Progress(s, Some(err))
    case Ok(_) =>
      match rules.lineBytes(e)
      case None => Progress(s, Some(LineNotCanonical))
      case Some(bytes) =>
        match EnsureSegment(rules, s, e, bytes, env)
        case Err(err) => Progress(s, Some(err))
        case Ok(ready) => WriteEvent(ready, e, bytes, env)
  }

  type Turn = (Session, Event, Env) -> Progress

  function TurnOf(rules: Rules): Turn {
    (s, e, env) => AppendOne(rules, s, e, env)
  }

  /** The append loop: one turn for each event, up to the first error. */
  function AppendEvents(turn: Turn, s: Session, batch: seq<Event>, envs: nat -> Env, at: nat): Progress
    decreases |batch|
  {
    if batch == [] then Progress(s, None)
    else
      var p := turn(s, batch[0], envs(at));
      if p.error.Some? then p else AppendEvents(turn, p.session, batch[1..], envs, at + 1)
  }

  /** The end of an append call. On success the writer is flushed and the catalog saved; on
      an error the writer is dropped, which still hands over what it holds, and the catalog
      on disk stays as it was. */
  function Close(p: Progress): Session {
    var flushed := Flush(p.session);
    if p.error.None? && p.session.dirty then SaveCatalog(flushed) else flushed
  }

  /** What an append call leaves behind: the disk, every state it went through, and the
      error that ended it. */
  datatype Outcome = Outcome(fs: FileSystem, trace: seq<FileSystem>, error: Option<AppendError>)

  function Ended(p: Progress): Outcome {
    var closed := Close(p);
    Outcome(closed.fs, closed.trace, p.error)
  }

  /** `append_segmented_under_lock`. */
  function AppendSegmented(turn: Turn, limits: Limits, fs: FileSystem, batch: seq<Event>, envs: nat -> Env): Outcome {
    match View(fs, limits)
    case Err(_) => Outcome(fs, [], Some(Storage))
    case Ok(c) =>
      var p := AppendEvents(turn, Session(fs, c, None, false, []), batch, envs, 0);
      Ended(p)
  }
}
