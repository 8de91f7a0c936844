/** What a whole append call does to the log. src/event_log.rs. */
module AppendResult {
  import opened Prelude
  import opened Backend
  import opened Events
  import opened Segments
  import opened LogInvariant
  import opened LogWrites
  import opened AppendSafety
  import opened AppendSteps

  lemma AcceptedFollows(t: Setting, c: Catalog, all: seq<Event>, n: nat)
    requires n < |all| && Describes(t.rules, t.g, c, all[..n]) && FileAccept(t.rules, all[..n], all[n]).Ok?
    ensures FollowsAt(t.rules, all, n)
  {
  }

  /** The catalog answers the checks as the list of events would. */
  lemma SameVerdict(t: Setting, c: Catalog, log: seq<Event>, e: Event)
    requires Describes(t.rules, t.g, c, log)
    ensures Admit(t.rules.validate, c.nextSeq, c.headDigest, c.namespace, e) == Accept(t.rules.validate, log, e)
  {
  }

  lemma AcceptedOne(rules: Rules, s: Session, log: seq<Event>, e: Event, env: Env)
    requires Admit(rules.validate, s.catalog.nextSeq, s.catalog.headDigest, s.catalog.namespace, e)
          == Accept(rules.validate, log, e)
    ensures FileAccept(rules, log, e).Err? ==>
              AppendOne(rules, s, e, env) == Progress(s, Some(FileAccept(rules, log, e).error))
    ensures FileAccept(rules, log, e).Ok? && EnsureSegment(rules, s, e, LineLength(rules, e), env).Ok? ==>
              AppendOne(rules, s, e, env)
              == WriteEvent(EnsureSegment(rules, s, e, LineLength(rules, e), env).value, e, LineLength(rules, e), env)
  {
  }

  /** The next event does not get the log stuck. */
  predicate Clear(rules: Rules, c: Catalog, log: seq<Event>, batch: seq<Event>) {
    batch != [] && FileAccept(rules, log, batch[0]).Ok? ==> !Stuck(c, LineLength(rules, batch[0]))
  }

  /** Under limits, the events from `lo` on have short lines. */
  predicate ShortFrom(t: Setting, all: seq<Event>, lo: nat) {
    t.g.Bounded? ==> forall n :: lo <= n < |all| ==> LineLength(t.rules, all[n]) <= t.g.lineMax
  }

  predicate UnfoldTracked(s: Session, n: nat, key: int) {
    true
  }

  /** Some split of the first `n` events between disk and buffer. Behind a trigger like
      `Genuine`. */
  ghost predicate Tracked(t: Setting, s: Session, all: seq<Event>, lo: nat, n: nat) {
    forall key: int {:trigger UnfoldTracked(s, n, key)} :: UnfoldTracked(s, n, key) ==>
      exists r, d: nat :: Tracks(t, s, s.catalog, r, all, lo, d, n)
  }

  lemma TrackedSplit(t: Setting, s: Session, all: seq<Event>, lo: nat, n: nat) returns (r: Catalog, d: nat)
    requires Tracked(t, s, all, lo, n)
    ensures Tracks(t, s, s.catalog, r, all, lo, d, n)
  {
    assert UnfoldTracked(s, n, 0);
    r, d :| Tracks(t, s, s.catalog, r, all, lo, d, n);
  }

  lemma BecomesTracked(t: Setting, s: Session, r: Catalog, all: seq<Event>, lo: nat, d: nat, n: nat)
    requires Tracks(t, s, s.catalog, r, all, lo, d, n)
    ensures Tracked(t, s, all, lo, n) && lo <= n && s.catalog.nextSeq == n
  {
  }

  /** A session between two turns of the loop. */
  ghost predicate Between(t: Setting, s: Session, all: seq<Event>, lo: nat, n: nat) {
    lo <= n <= |all| && Tracked(t, s, all, lo, n) && Clear(t.rules, s.catalog, all[..n], all[n..])
  }

  predicate UnfoldReady(s: Session, n: nat, key: int) {
    true
  }

  /** `Between`, behind a trigger like `Genuine`. */
  ghost predicate Ready(t: Setting, s: Session, all: seq<Event>, lo: nat, n: nat) {
    forall key: int {:trigger UnfoldReady(s, n, key)} :: UnfoldReady(s, n, key) ==> Between(t, s, all, lo, n)
  }

  lemma ReadyIsBetween(t: Setting, s: Session, all: seq<Event>, lo: nat, n: nat)
    ensures Ready(t, s, all, lo, n) <==> Between(t, s, all, lo, n)
  {
    assert UnfoldReady(s, n, 0);
  }

  lemma BecomesReady(t: Setting, s: Session, all: seq<Event>, lo: nat, n: nat)
    requires Tracked(t, s, all, lo, n) && 0 < n <= |all| && lo <= n && s.catalog.nextSeq == n
    ensures Ready(t, s, all, lo, n)
  {
    ReadyIsBetween(t, s, all, lo, n);
  }

  lemma EnsureTracked(t: Setting, s: Session, all: seq<Event>, lo: nat, n: nat, env: Env)
    requires HeadersPrint(t.rules) && Tracked(t, s, all, lo, n) && n < |all|
    requires FileAccept(t.rules, all[..n], all[n]).Ok? && !Stuck(s.catalog, LineLength(t.rules, all[n]))
    requires t.g.Bounded? ==> LineLength(t.rules, all[n]) <= t.g.lineMax
    ensures var bytes := LineLength(t.rules, all[n]);
            var ready := EnsureSegment(t.rules, s, all[n], bytes, env);
            ready.Ok? && Tracked(t, ready.value, all, lo, n) && HasRoom(t.g, ready.value.catalog, bytes)
    ensures FollowsAt(t.rules, all, n)
  {
    var r, d := TrackedSplit(t, s, all, lo, n);
    AcceptedFollows(t, s.catalog, all, n);
    var r1, d1 := EnsureKeeps(t, s, r, all, lo, d, n, env);
    BecomesTracked(t, EnsureSegment(t.rules, s, all[n], LineLength(t.rules, all[n]), env).value, r1, all, lo, d1, n);
  }

  lemma WriteTracked(t: Setting, s: Session, all: seq<Event>, lo: nat, n: nat, env: Env)
    requires Tracked(t, s, all, lo, n) && n < |all| && FollowsAt(t.rules, all, n)
    requires HasRoom(t.g, s.catalog, LineLength(t.rules, all[n]))
    ensures var p := WriteEvent(s, all[n], LineLength(t.rules, all[n]), env);
            p.error.None? && p.session.dirty && Tracked(t, p.session, all, lo, n + 1)
            && lo <= n + 1 && p.session.catalog.nextSeq == n + 1
  {
    var r, d := TrackedSplit(t, s, all, lo, n);
    var r2, d2 := WriteKeeps(t, s, r, all, lo, d, n, env);
    BecomesTracked(t, WriteEvent(s, all[n], LineLength(t.rules, all[n]), env).session, r2, all, lo, d2, n + 1);
  }

  /** An accepted event is written, and the loop is ready for the next. */
  lemma PlaceKeeps(t: Setting, s: Session, all: seq<Event>, lo: nat, n: nat, env: Env)
    requires HeadersPrint(t.rules) && Tracked(t, s, all, lo, n) && n < |all|
    requires FileAccept(t.rules, all[..n], all[n]).Ok? && !Stuck(s.catalog, LineLength(t.rules, all[n]))
    requires t.g.Bounded? ==> LineLength(t.rules, all[n]) <= t.g.lineMax
    ensures var bytes := LineLength(t.rules, all[n]);
            var ready := EnsureSegment(t.rules, s, all[n], bytes, env);
            && ready.Ok?
            && var p := WriteEvent(ready.value, all[n], bytes, env);
            p.error.None? && p.session.dirty && Ready(t, p.session, all, lo, n + 1)
  {
    var bytes := LineLength(t.rules, all[n]);
    EnsureTracked(t, s, all, lo, n, env);
    var ready := EnsureSegment(t.rules, s, all[n], bytes, env).value;
    WriteTracked(t, ready, all, lo, n, env);
    BecomesReady(t, WriteEvent(ready, all[n], bytes, env).session, all, lo, n + 1);
  }

  /** A turn ends with the verdict on its event; a rejection leaves the session as it was. */
  predicate Obeys(p: Progress, verdict: Result<(), AppendError>, s: Session) {
    match verdict
    case Err(e) => p == Progress(s, Some(e))
    case Ok(_) => p.error.None? && p.session.dirty
  }

  /** What the loop knows when it comes to event `n`. */
  lemma ReadyFacts(t: Setting, s: Session, all: seq<Event>, lo: nat, n: nat)
    requires Ready(t, s, all, lo, n) && n < |all|
    ensures lo <= n && Tracked(t, s, all, lo, n)
    ensures Admit(t.rules.validate, s.catalog.nextSeq, s.catalog.headDigest, s.catalog.namespace, all[n])
            == Accept(t.rules.validate, all[..n], all[n])
    ensures FileAccept(t.rules, all[..n], all[n]).Ok? ==> !Stuck(s.catalog, LineLength(t.rules, all[n]))
  {
    ReadyIsBetween(t, s, all, lo, n);
    var r, d := TrackedSplit(t, s, all, lo, n);
    SameVerdict(t, s.catalog, all[..n], all[n]);
    assert all[n..][0] == all[n];
  }

  lemma ReadyPlaces(t: Setting, s: Session, all: seq<Event>, lo: nat, n: nat, env: Env)
    requires HeadersPrint(t.rules) && ShortFrom(t, all, lo) && Ready(t, s, all, lo, n) && lo <= n < |all|
    requires FileAccept(t.rules, all[..n], all[n]).Ok?
    ensures var bytes := LineLength(t.rules, all[n]);
            var ready := EnsureSegment(t.rules, s, all[n], bytes, env);
            && ready.Ok?
            && var p := WriteEvent(ready.value, all[n], bytes, env);
            p.error.None? && p.session.dirty && Ready(t, p.session, all, lo, n + 1)
  {
    ReadyFacts(t, s, all, lo, n);
    PlaceKeeps(t, s, all, lo, n, env);
  }

  /** One turn of the loop: a rejected event changes nothing, an accepted one joins the log. */
  lemma ReadyTurn(t: Setting, s: Session, all: seq<Event>, lo: nat, n: nat, env: Env)
    requires HeadersPrint(t.rules) && ShortFrom(t, all, lo) && Ready(t, s, all, lo, n) && n < |all|
    ensures var p := AppendOne(t.rules, s, all[n], env);
            Obeys(p, FileAccept(t.rules, all[..n], all[n]), s)
            && (p.error.None? ==> Ready(t, p.session, all, lo, n + 1))
  {
    ReadyFacts(t, s, all, lo, n);
    AcceptedOne(t.rules, s, all[..n], all[n], env);
    if FileAccept(t.rules, all[..n], all[n]).Ok? {
      ReadyPlaces(t, s, all, lo, n, env);
    }
  }

  ghost function InLoop(t: Setting, all: seq<Event>, lo: nat): (Session, nat) -> bool {
    (s: Session, n: nat) => Ready(t, s, all, lo, n)
  }

  ghost predicate KeptByTurn(q: (Session, nat) -> bool, turn: Turn, check: Check, all: seq<Event>, s: Session, n: nat,
                             env: Env)
  {
    q(s, n) && n < |all| ==>
      var p := turn(s, all[n], env);
      Obeys(p, check(all[..n], all[n]), s) && (p.error.None? ==> q(p.session, n + 1))
  }

  lemma TurnKept(t: Setting, all: seq<Event>, lo: nat, s: Session, n: nat, env: Env)
    requires Genuine(t) && ShortFrom(t, all, lo)
    ensures KeptByTurn(InLoop(t, all, lo), t.turn, t.check, all, s, n, env)
  {
    if Ready(t, s, all, lo, n) && n < |all| {
      GenuineTurn(t);
      ReadyTurn(t, s, all, lo, n, env);
    }
  }

  lemma NextTurn(all: seq<Event>, n: nat)
    requires n < |all|
    ensures all[n..][0] == all[n] && all[n..][1..] == all[n + 1..] && all[..n] + [all[n]] == all[..n + 1]
  {
  }

  /** The whole loop takes the events the flat list takes and stops for the same reason. */
  lemma {:induction false} LoopInduction(q: (Session, nat) -> bool, turn: Turn, check: Check, s: Session,
                                         all: seq<Event>, n: nat, envs: nat -> Env, at: nat)
    requires q(s, n) && n <= |all| && forall s, n, env :: KeptByTurn(q, turn, check, all, s, n, env)
    ensures var p := AppendEvents(turn, s, all[n..], envs, at);
            var k := Taken(check, all[..n], all[n..]);
            p.error == BatchError(check, all[..n], all[n..]) && q(p.session, n + k)
    decreases |all| - n
  {
    if n < |all| {
      NextTurn(all, n);
      assert KeptByTurn(q, turn, check, all, s, n, envs(at));
      if check(all[..n], all[n]).Ok? {
        LoopInduction(q, turn, check, turn(s, all[n], envs(at)).session, all, n + 1, envs, at + 1);
      }
    }
  }

  lemma LoopKeeps(t: Setting, s: Session, all: seq<Event>, lo: nat, envs: nat -> Env)
    requires Genuine(t) && ShortFrom(t, all, lo) && lo <= |all| && Ready(t, s, all, lo, lo)
    ensures var p := AppendEvents(t.turn, s, all[lo..], envs, 0);
            p.error == BatchError(t.check, all[..lo], all[lo..])
            && Ready(t, p.session, all, lo, lo + Taken(t.check, all[..lo], all[lo..]))
  {
    forall s: Session, n: nat, env: Env ensures KeptByTurn(InLoop(t, all, lo), t.turn, t.check, all, s, n, env) {
      TurnKept(t, all, lo, s, n, env);
    }
    LoopInduction(InLoop(t, all, lo), t.turn, t.check, s, all, lo, envs, 0);
  }

  /** How a call that accounts for `n` events ends. */
  ghost predicate EndsWell(t: Setting, out: Outcome, all: seq<Event>, lo: nat, n: nat) {
    HoldsFirst(t, out.fs, all, n) && AllSurvive(t, out.trace, all, lo, n)
  }

  predicate UnfoldEnds(out: Outcome, n: nat, key: int) {
    true
  }

  /** `EndsWell`, behind a trigger like `Genuine`. */
  ghost predicate EndsOk(t: Setting, out: Outcome, all: seq<Event>, lo: nat, n: nat) {
    forall key: int {:trigger UnfoldEnds(out, n, key)} :: UnfoldEnds(out, n, key) ==> EndsWell(t, out, all, lo, n)
  }

  lemma EndsOkEndsWell(t: Setting, out: Outcome, all: seq<Event>, lo: nat, n: nat)
    ensures EndsOk(t, out, all, lo, n) <==> EndsWell(t, out, all, lo, n)
  {
    assert UnfoldEnds(out, n, 0);
  }

  lemma CloseKeeps(t: Setting, p: Progress, r: Catalog, all: seq<Event>, lo: nat, d: nat, n: nat)
    requires Tracks(t, p.session, p.session.catalog, r, all, lo, d, n)
    ensures HoldsFirst(t, Close(p).fs, all, n) && AllSurvive(t, Close(p).trace, all, lo, n)
  {
    var mem := p.session.catalog;
    FlushKeeps(t, p.session, mem, r, all, lo, d, n);
    FlushCatalog(p.session);
    DiskOkHolds(t, Flush(p.session).fs, mem, all, n);
    if p.error.None? && p.session.dirty {
      SaveKeeps(t, Flush(p.session), mem, all, lo, n);
      DiskOkHolds(t, Close(p).fs, mem, all, n);
    }
  }

  lemma ReadyCloses(t: Setting, p: Progress, all: seq<Event>, lo: nat, n: nat)
    requires Ready(t, p.session, all, lo, n)
    ensures EndsOk(t, Ended(p), all, lo, n)
  {
    ReadyIsBetween(t, p.session, all, lo, n);
    var r, d := TrackedSplit(t, p.session, all, lo, n);
    CloseKeeps(t, p, r, all, lo, d, n);
    EndsOkEndsWell(t, Ended(p), all, lo, n);
  }

  // ---------------------------------------------------------------------------
  // A whole call.
  // ---------------------------------------------------------------------------

  /** The call meets the empty first segment that a crash left, with a line it cannot
      take. */
  predicate WillStick(rules: Rules, limits: Limits, fs: FileSystem, batch: seq<Event>) {
    && View(fs, limits).Ok? && batch != []
    && FileAccept(rules, [], batch[0]).Ok? && Stuck(View(fs, limits).value, LineLength(rules, batch[0]))
  }

  lemma StartTracks(t: Setting, fs: FileSystem, events: seq<Event>, batch: seq<Event>)
    requires Durable(t.rules, t.g, t.limits, fs, events) && (fs.catalog.None? ==> events == [])
    requires !WillStick(t.rules, t.limits, fs, batch)
    ensures View(fs, t.limits).Ok?
    ensures Ready(t, Session(fs, View(fs, t.limits).value, None, false, []), events + batch, |events|, |events|)
  {
    DurableIs(t.rules, t.g, t.limits, fs, events);
    var all := events + batch;
    var c := View(fs, t.limits).value;
    assert all[..|events|] == events && all[|events|..|events|] == [] && all[|events|..] == batch;
    DiskOkHolds(t, fs, c, all, |events|);
    BecomesTracked(t, Session(fs, c, None, false, []), c, all, |events|, |events|, |events|);
    ClearAtStart(t, fs, events, batch);
    ReadyIsBetween(t, Session(fs, c, None, false, []), all, |events|, |events|);
  }

  lemma ClearAtStart(t: Setting, fs: FileSystem, events: seq<Event>, batch: seq<Event>)
    requires View(fs, t.limits).Ok? && View(fs, t.limits).value.nextSeq == |events|
    requires !WillStick(t.rules, t.limits, fs, batch)
    ensures Clear(t.rules, View(fs, t.limits).value, events, batch)
  {
  }

  lemma CallEnds(t: Setting, s: Session, all: seq<Event>, lo: nat, events: seq<Event>, batch: seq<Event>,
                 envs: nat -> Env)
    requires Genuine(t) && ShortFrom(t, all, lo) && lo <= |all| && Ready(t, s, all, lo, lo)
    requires events == all[..lo] && batch == all[lo..]
    ensures var p := AppendEvents(t.turn, s, batch, envs, 0);
            p.error == BatchError(t.check, events, batch)
            && EndsOk(t, Ended(p), all, lo, lo + Taken(t.check, events, batch))
  {
    LoopKeeps(t, s, all, lo, envs);
    ReadyCloses(t, AppendEvents(t.turn, s, batch, envs, 0), all, lo, lo + Taken(t.check, events, batch));
  }

  lemma ShortBatch(t: Setting, events: seq<Event>, batch: seq<Event>)
    requires t.g.Bounded? ==> Short(t.rules, t.g.lineMax, batch)
    ensures ShortFrom(t, events + batch, |events|)
  {
    if t.g.Bounded? {
      forall n | |events| <= n < |events + batch| ensures LineLength(t.rules, (events + batch)[n]) <= t.g.lineMax {
        assert (events + batch)[n] == batch[n - |events|];
      }
    }
  }

  /** Crash safety and refinement of one call. The events taken are those the flat list
      would take, the error is the same, and every state of the disk on the way holds the
      old events and a prefix of the ones taken. */
  lemma AppendSegmentedSafe(t: Setting, fs: FileSystem, events: seq<Event>, batch: seq<Event>, envs: nat -> Env)
    returns (out: Outcome)
    requires Genuine(t) && Durable(t.rules, t.g, t.limits, fs, events) && (fs.catalog.None? ==> events == [])
    requires !WillStick(t.rules, t.limits, fs, batch)
    requires t.g.Bounded? ==> Short(t.rules, t.g.lineMax, batch)
    ensures out == AppendSegmented(t.turn, t.limits, fs, batch, envs) && out.error == BatchError(t.check, events, batch)
    ensures HoldsFirst(t, out.fs, events + batch, |events| + Taken(t.check, events, batch))
    ensures AllSurvive(t, out.trace, events + batch, |events|, |events| + Taken(t.check, events, batch))
  {
    out := AppendSegmented(t.turn, t.limits, fs, batch, envs);
    SegmentedEnds(t, fs, events, batch, envs);
    OpenEnds(t, out, events, batch);
  }

  lemma OpenEnds(t: Setting, out: Outcome, events: seq<Event>, batch: seq<Event>)
    requires EndsOk(t, out, events + batch, |events|, |events| + Taken(t.check, events, batch))
    ensures HoldsFirst(t, out.fs, events + batch, |events| + Taken(t.check, events, batch))
    ensures AllSurvive(t, out.trace, events + batch, |events|, |events| + Taken(t.check, events, batch))
  {
    EndsOkEndsWell(t, out, events + batch, |events|, |events| + Taken(t.check, events, batch));
  }

  lemma SegmentedEnds(t: Setting, fs: FileSystem, events: seq<Event>, batch: seq<Event>, envs: nat -> Env)
    requires Genuine(t) && Durable(t.rules, t.g, t.limits, fs, events) && (fs.catalog.None? ==> events == [])
    requires !WillStick(t.rules, t.limits, fs, batch)
    requires t.g.Bounded? ==> Short(t.rules, t.g.lineMax, batch)
    ensures var out := AppendSegmented(t.turn, t.limits, fs, batch, envs);
            out.error == BatchError(t.check, events, batch)
            && EndsOk(t, out, events + batch, |events|, |events| + Taken(t.check, events, batch))
  {
    StartTracks(t, fs, events, batch);
    ShortBatch(t, events, batch);
    var out := ReadyCall(t, fs, events, batch, envs);
  }

  lemma ReadyCall(t: Setting, fs: FileSystem, events: seq<Event>, batch: seq<Event>, envs: nat -> Env)
    returns (out: Outcome)
    requires Genuine(t) && ShortFrom(t, events + batch, |events|) && View(fs, t.limits).Ok?
    requires Ready(t, Session(fs, View(fs, t.limits).value, None, false, []), events + batch, |events|, |events|)
    ensures out == AppendSegmented(t.turn, t.limits, fs, batch, envs) && out.error == BatchError(t.check, events, batch)
    ensures EndsOk(t, out, events + batch, |events|, |events| + Taken(t.check, events, batch))
  {
    Halves(events, batch);
    var s := Session(fs, View(fs, t.limits).value, None, false, []);
    CallEnds(t, s, events + batch, |events|, events, batch, envs);
    out := Ended(AppendEvents(t.turn, s, batch, envs, 0));
  }

  lemma Halves(events: seq<Event>, batch: seq<Event>)
    ensures (events + batch)[..|events|] == events && (events + batch)[|events|..] == batch
  {
  }
}
