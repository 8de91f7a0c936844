/** What a replayed state holds, read off the events: under each key the value of the last
    write that no delete follows. src/replay.rs, src/state_map.rs, src/event.rs. */
module LastWrites {
  import opened Prelude
  import opened CanonicalJson
  import opened Events
  import opened Replay
  import opened StateInvariant
  import opened StateMap
  import Decimal
  import Hex
  import Utf8

  // ---------------------------------------------------------------------------
  // Reference definition: what a payload stands for.
  // ---------------------------------------------------------------------------

  /** The JSON value `json` under the type tag `tag` stands for `v`. */
  ghost predicate StandsFor(tag: byte, json: Value, v: BsmValue) {
    match v
    case Boolean(flag) => tag == 0x01 && json == JBool(flag)
    case Integer(i) => tag == 0x02 && json == JNumber(CanonicalJson.Integer(i))
    case Decimal(numeral) => tag == 0x03 && json == JString(numeral) && Decimal.IsCanonical(numeral)
    case Text(text) => tag == 0x04 && json == JString(text)
    case Blob(bytes) =>
      tag == 0x05 && json.JString? && Hex.AllHexDigits(json.s) && Hex.LowerAll(json.s) == Hex.Encode(bytes)
    case Null => tag == 0x06 && json == JNull
  }

  lemma {:induction false} HexBytes(s: string)
    requires Hex.AllHexDigits(s)
    ensures |Utf8.Encode(s)| == |s|
  {
    if s != [] {
      HexBytes(s[1..]);
    }
  }

  lemma BlobIff(s: string, bytes: Bytes)
    ensures Hex.Decode(s) == Ok(bytes) <==> Hex.AllHexDigits(s) && Hex.LowerAll(s) == Hex.Encode(bytes)
  {
    Hex.NormalizeIsDecodeEncode(s);
    if Hex.Decode(s) == Ok(bytes) {
      assert Hex.Normalize(s) == Ok(Hex.Encode(bytes));
    }
    if Hex.AllHexDigits(s) && Hex.LowerAll(s) == Hex.Encode(bytes) {
      HexBytes(s);
      assert |s| == 2 * |bytes|;
      assert Hex.Normalize(s) == Ok(Hex.LowerAll(s));
      Hex.EncodeInjective(Hex.Decode(s).value, bytes);
    }
  }

  /** A payload is read as a value exactly when it stands for it. */
  lemma PayloadIff(tag: byte, json: Value, v: BsmValue)
    ensures EventValueToBsm(tag, json) == Ok(v) <==> StandsFor(tag, json, v)
  {
    if tag == 0x03 && json.JString? {
      Decimal.ValidateLanguage(json.s);
    } else if tag == 0x05 && json.JString? && v.Blob? {
      BlobIff(json.s, v.bytes);
    }
  }

  // ---------------------------------------------------------------------------
  // Reference definition: the last operation on a key.
  // ---------------------------------------------------------------------------

  ghost predicate Carries(op: BatchOp, v: BsmValue) {
    op.valueType.Some? && op.value.Some? && StandsFor(op.valueType.value, op.value.value, v)
  }

  lemma WrittenIff(valueType: Option<byte>, value: Option<Value>, v: BsmValue)
    ensures WrittenValue(valueType, value) == Ok(v) <==>
              valueType.Some? && value.Some? && StandsFor(valueType.value, value.value, v)
  {
    if valueType.Some? && value.Some? {
      PayloadIff(valueType.value, value.value, v);
    }
  }

  /** The operation at `i` is the last on its key. */
  predicate LastAt(ops: seq<BatchOp>, i: nat) {
    i < |ops| && forall j :: i < j < |ops| ==> ops[j].key != ops[i].key
  }

  /** Under the key, `after` holds the value of the last operation on it if that is a write,
      nothing if it is a delete, and what `before` holds if there is none. */
  ghost predicate AfterAt(before: State, after: State, ops: seq<BatchOp>, key: string) {
    && (forall i: nat :: LastAt(ops, i) && ops[i].key == key ==>
          if ops[i].opType == WriteOp then key in after && Carries(ops[i], after[key]) else key !in after)
    && ((forall i :: 0 <= i < |ops| ==> ops[i].key != key) ==>
          (key in before <==> key in after) && (key in before ==> after[key] == before[key]))
  }

  ghost predicate After(before: State, after: State, ops: seq<BatchOp>) {
    forall key :: AfterAt(before, after, ops, key)
  }

  /** The operations an event performs. */
  function OpsOf(e: Event): seq<BatchOp> {
    match e.eventType
    case StateWrite =>
      if e.key.None? then [] else [BatchOp(WriteOp, e.key.value, e.valueType, e.value, None, false)]
    case StateDelete =>
      if e.key.None? then [] else [BatchOp(DeleteOp, e.key.value, None, None, None, e.idempotent == Some(true))]
    case StateBatch => if e.ops.None? then [] else e.ops.value
    case _ => []
  }

  /** The operations of a list of events, those skipped as duplicates left out. */
  function AppliedOps(seen: set<string>, events: seq<Event>): seq<BatchOp>
    decreases |events|
  {
    if events == [] then []
    else (if events[0].digest in seen then [] else OpsOf(events[0]))
         + AppliedOps(seen + {events[0].digest}, events[1..])
  }

  // ---------------------------------------------------------------------------
  // Replay leaves what the last operations say.
  // ---------------------------------------------------------------------------

  lemma OneOp(m: State, namespace: string, op: BatchOp, key: string)
    requires ApplyOp(m, namespace, op).Ok?
    ensures AfterAt(m, ApplyOp(m, namespace, op).value, [op], key)
  {
    var r := ApplyOp(m, namespace, op).value;
    if op.opType == WriteOp {
      WrittenIff(op.valueType, op.value, WrittenValue(op.valueType, op.value).value);
    }
    assert [op][0] == op;
  }

  lemma Compose(a: State, b: State, c: State, xs: seq<BatchOp>, ys: seq<BatchOp>, key: string)
    requires AfterAt(a, b, xs, key) && AfterAt(b, c, ys, key)
    ensures AfterAt(a, c, xs + ys, key)
  {
    var all := xs + ys;
    forall i: nat | LastAt(all, i) && all[i].key == key
      ensures if all[i].opType == WriteOp then key in c && Carries(all[i], c[key]) else key !in c
    {
      if i < |xs| {
        LastInFirst(xs, ys, i);
        assert all[i] == xs[i];
      } else {
        LastInSecond(xs, ys, i);
        assert all[i] == ys[i - |xs|];
      }
    }
    if forall i :: 0 <= i < |all| ==> all[i].key != key {
      forall i | 0 <= i < |xs| ensures xs[i].key != key {
        assert all[i] == xs[i];
      }
      forall i | 0 <= i < |ys| ensures ys[i].key != key {
        assert all[|xs| + i] == ys[i];
      }
    }
  }

  lemma LastInFirst(xs: seq<BatchOp>, ys: seq<BatchOp>, i: nat)
    requires LastAt(xs + ys, i) && i < |xs|
    ensures LastAt(xs, i) && forall j :: 0 <= j < |ys| ==> ys[j].key != xs[i].key
  {
    var all := xs + ys;
    forall j | i < j < |xs| ensures xs[j].key != xs[i].key {
      assert all[j] == xs[j];
    }
    forall j | 0 <= j < |ys| ensures ys[j].key != xs[i].key {
      assert all[|xs| + j] == ys[j];
    }
  }

  lemma LastInSecond(xs: seq<BatchOp>, ys: seq<BatchOp>, i: nat)
    requires LastAt(xs + ys, i) && i >= |xs|
    ensures LastAt(ys, i - |xs|)
  {
    var all := xs + ys;
    forall j | i - |xs| < j < |ys| ensures ys[j].key != ys[i - |xs|].key {
      assert all[|xs| + j] == ys[j] && all[i] == ys[i - |xs|];
    }
  }

  lemma FirstOp(m: State, namespace: string, ops: seq<BatchOp>) returns (next: State)
    requires ops != [] && ApplyOps(m, namespace, ops).Ok?
    ensures ApplyOp(m, namespace, ops[0]) == Ok(next)
    ensures ApplyOps(next, namespace, ops[1..]) == ApplyOps(m, namespace, ops)
  {
    next := ApplyOp(m, namespace, ops[0]).value;
  }

  /** A batch leaves under each key what its last operation there says. */
  lemma {:induction false} BatchIsLastWriter(m: State, namespace: string, ops: seq<BatchOp>, key: string)
    requires ApplyOps(m, namespace, ops).Ok?
    ensures AfterAt(m, ApplyOps(m, namespace, ops).value, ops, key)
    decreases |ops|
  {
    if ops != [] {
      var next := FirstOp(m, namespace, ops);
      OneOp(m, namespace, ops[0], key);
      BatchIsLastWriter(next, namespace, ops[1..], key);
      Compose(m, next, ApplyOps(m, namespace, ops).value, [ops[0]], ops[1..], key);
      assert [ops[0]] + ops[1..] == ops;
    }
  }

  /** Applying an event is applying its operations. */
  lemma ApplyIsOps(env: Integrity, m: State, e: Event) returns (r: State)
    requires Apply(env, m, e).Ok?
    ensures Apply(env, m, e) == Ok(r) && ApplyOps(m, e.namespace, OpsOf(e)) == Ok(r)
  {
    r := Apply(env, m, e).value;
    if e.eventType == StateWrite || e.eventType == StateDelete {
      OneOpBatch(m, e.namespace, OpsOf(e)[0]);
    }
  }

  lemma OneOpBatch(m: State, namespace: string, op: BatchOp)
    ensures ApplyOps(m, namespace, [op]) == ApplyOp(m, namespace, op)
  {
    assert [op][1..] == [];
    if ApplyOp(m, namespace, op).Ok? {
      assert ApplyOps(ApplyOp(m, namespace, op).value, namespace, []) == ApplyOp(m, namespace, op);
    }
  }

  lemma StepOps(env: Integrity, p: Progress, e: Event, key: string) returns (q: Progress)
    requires Step(env, p, e).Ok?
    ensures Step(env, p, e) == Ok(q) && q.seen == p.seen + {e.digest}
    ensures AfterAt(p.state, q.state, if e.digest in p.seen then [] else OpsOf(e), key)
  {
    q := Step(env, p, e).value;
    if e.digest !in p.seen {
      var r := ApplyIsOps(env, p.state, e);
      BatchIsLastWriter(p.state, e.namespace, OpsOf(e), key);
    }
  }

  lemma {:induction false} RunIsLastWriterAt(env: Integrity, p: Progress, events: seq<Event>, key: string)
    requires Run(env, p, events).Ok?
    ensures AfterAt(p.state, Run(env, p, events).value.state, AppliedOps(p.seen, events), key)
    decreases |events|
  {
    if events != [] {
      var q := StepOps(env, p, events[0], key);
      RunIsLastWriterAt(env, q, events[1..], key);
      Compose(p.state, q.state, Run(env, p, events).value.state,
              if events[0].digest in p.seen then [] else OpsOf(events[0]), AppliedOps(q.seen, events[1..]), key);
    }
  }

  /** Last writer wins over whole runs: each key holds the value carried by the last write to
      it that no delete follows. */
  lemma RunIsLastWriter(env: Integrity, p: Progress, events: seq<Event>)
    requires Run(env, p, events).Ok?
    ensures After(p.state, Run(env, p, events).value.state, AppliedOps(p.seen, events))
  {
    forall key ensures AfterAt(p.state, Run(env, p, events).value.state, AppliedOps(p.seen, events), key) {
      RunIsLastWriterAt(env, p, events, key);
    }
  }

  // ---------------------------------------------------------------------------
  // Events that repeat a digest.
  // ---------------------------------------------------------------------------

  predicate Linkable(env: Integrity, p: Progress, e: Event) {
    && (p.namespace.Some? ==> p.namespace.value == e.namespace) && e.seqNo == p.expectedSeq
    && e.prevDigest == p.expectedPrev && env.digestValid(e)
  }

  /** An event whose digest has been seen is skipped with a warning if it is an idempotent
      write or delete, and a violation otherwise. */
  lemma RepeatIff(env: Integrity, p: Progress, e: Event)
    requires e.digest in p.seen && Linkable(env, p, e)
    ensures (e.eventType == StateWrite || e.eventType == StateDelete) && e.idempotent == Some(true) ==>
              Step(env, p, e) == Ok(p.(expectedSeq := p.expectedSeq + 1, expectedPrev := e.digest,
                                       namespace := Some(e.namespace), warnings := p.warnings + [e.seqNo]))
    ensures !((e.eventType == StateWrite || e.eventType == StateDelete) && e.idempotent == Some(true)) ==>
              Step(env, p, e) == Err(DuplicateEvent)
  {
    assert p.seen + {e.digest} == p.seen;
  }

  /** The sequence numbers of the events that repeat an earlier digest. */
  function Repeats(seen: set<string>, events: seq<Event>): seq<u64>
    decreases |events|
  {
    if events == [] then []
    else (if events[0].digest in seen then [events[0].seqNo] else []) + Repeats(seen + {events[0].digest}, events[1..])
  }

  lemma Regroup(a: seq<u64>, b: seq<u64>, c: seq<u64>)
    ensures (a + b) + c == a + (b + c)
  {
  }

  /** Replay warns of exactly the events that repeat a digest. */
  lemma {:induction false} RunWarns(env: Integrity, p: Progress, events: seq<Event>)
    requires Run(env, p, events).Ok?
    ensures Run(env, p, events).value.warnings == p.warnings + Repeats(p.seen, events)
    decreases |events|
  {
    if events == [] {
      assert p.warnings + [] == p.warnings;
    } else {
      var q := StepWarns(env, p, events[0]);
      RunWarns(env, q, events[1..]);
      Regroup(p.warnings, if events[0].digest in p.seen then [events[0].seqNo] else [], Repeats(q.seen, events[1..]));
    }
  }

  lemma StepWarns(env: Integrity, p: Progress, e: Event) returns (q: Progress)
    requires Step(env, p, e).Ok?
    ensures Step(env, p, e) == Ok(q) && q.seen == p.seen + {e.digest}
    ensures q.warnings == p.warnings + if e.digest in p.seen then [e.seqNo] else []
  {
    q := Step(env, p, e).value;
    assert p.warnings + [] == p.warnings;
  }
}
