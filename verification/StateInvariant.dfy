/** What every replayed state keeps. */
module StateInvariant {
  import opened Prelude
  import opened Events
  import opened Replay
  import opened Snapshots
  import opened StateMap
  import CanonicalJson
  import Codec
  import Key

  /** Keys belong to the namespace and decimals are canonical. */
  predicate GoodState(namespace: string, m: State) {
    KeysValid(namespace, m) && forall k :: k in m ==> ValidValue(m[k])
  }

  lemma OpKeepsGood(m: State, namespace: string, op: BatchOp)
    requires GoodState(namespace, m) && ApplyOp(m, namespace, op).Ok?
    ensures GoodState(namespace, ApplyOp(m, namespace, op).value)
  {
    if op.opType == WriteOp {
      WriteKeepsGood(m, namespace, op.key, op.valueType, op.value);
    }
  }

  lemma WriteKeepsGood(m: State, namespace: string, key: string, tag: Option<byte>, value: Option<CanonicalJson.Value>)
    requires GoodState(namespace, m) && ApplyWrite(m, namespace, key, tag, value).Ok?
    ensures GoodState(namespace, ApplyWrite(m, namespace, key, tag, value).value)
  {
  }

  lemma {:induction false} OpsKeepGood(m: State, namespace: string, ops: seq<BatchOp>)
    requires GoodState(namespace, m) && ApplyOps(m, namespace, ops).Ok?
    ensures GoodState(namespace, ApplyOps(m, namespace, ops).value)
    decreases |ops|
  {
    if ops != [] {
      OpKeepsGood(m, namespace, ops[0]);
      OpsKeepGood(ApplyOp(m, namespace, ops[0]).value, namespace, ops[1..]);
    }
  }

  lemma ApplyKeepsGood(env: Integrity, m: State, e: Event)
    requires GoodState(e.namespace, m) && Apply(env, m, e).Ok?
    ensures GoodState(e.namespace, Apply(env, m, e).value)
  {
    match e.eventType {
      case StateWrite => WriteKeepsGood(m, e.namespace, e.key.value, e.valueType, e.value);
      case StateBatch => OpsKeepGood(m, e.namespace, e.ops.value);
      case _ =>
    }
  }

  predicate OneNamespace(namespace: string, p: Progress) {
    p.namespace.Some? ==> p.namespace.value == namespace
  }

  lemma StepKeepsGood(env: Integrity, namespace: string, p: Progress, e: Event)
    requires GoodState(namespace, p.state) && OneNamespace(namespace, p) && e.namespace == namespace
    requires Step(env, p, e).Ok?
    ensures GoodState(namespace, Step(env, p, e).value.state) && OneNamespace(namespace, Step(env, p, e).value)
  {
    if e.digest !in p.seen {
      ApplyKeepsGood(env, p.state, e);
    }
  }

  /** At every step of a replay all keys are valid for the log's one namespace and all
      decimals are canonical. */
  lemma {:induction false} RunKeepsGood(env: Integrity, namespace: string, p: Progress, events: seq<Event>)
    requires GoodState(namespace, p.state) && p.namespace == Some(namespace)
    requires Run(env, p, events).Ok?
    ensures GoodState(namespace, Run(env, p, events).value.state)
    decreases |events|
  {
    if events != [] {
      assert CheckLink(env, p, events[0]).Ok?;
      StepKeepsGood(env, namespace, p, events[0]);
      RunKeepsGood(env, namespace, Step(env, p, events[0]).value, events[1..]);
    }
  }

  // ---------------------------------------------------------------------------
  // Types.
  // ---------------------------------------------------------------------------

  /** A key present before and after has the type it had. */
  predicate KeepsType(before: State, after: State, key: string) {
    key in before && key in after ==> TypeTag(before[key]) == TypeTag(after[key])
  }

  /** The last operation of a batch on a key. */
  function LastOp(ops: seq<BatchOp>, key: string): (r: Option<BatchOp>)
    ensures r.Some? ==> r.value in ops && r.value.key == key
  {
    if ops == [] then None
    else if LastOp(ops[1..], key).Some? then LastOp(ops[1..], key)
    else if ops[0].key == key then Some(ops[0])
    else None
  }

  lemma OpDecides(m: State, namespace: string, op: BatchOp, key: string)
    requires ApplyOp(m, namespace, op).Ok?
    ensures var r := ApplyOp(m, namespace, op).value;
            && (op.key != key ==> (key in m <==> key in r) && (key in m ==> m[key] == r[key]))
            && (op.key == key && op.opType == WriteOp ==> key in r && op.valueType == Some(TypeTag(r[key])))
            && (op.key == key && op.opType == DeleteOp ==> key !in r)
  {
  }

  /** After a batch, the last operation on a key decides alone: a write leaves the key with
      the type it names, a delete leaves it absent, and no operation leaves it as it was. */
  lemma {:induction false} LastOpDecides(m: State, namespace: string, ops: seq<BatchOp>, key: string)
    requires ApplyOps(m, namespace, ops).Ok?
    ensures var r := ApplyOps(m, namespace, ops).value;
            match LastOp(ops, key)
            case None => (key in m <==> key in r) && (key in m ==> m[key] == r[key])
            case Some(op) =>
              if op.opType == WriteOp then key in r && op.valueType == Some(TypeTag(r[key])) else key !in r
    decreases |ops|
  {
    if ops != [] {
      OpDecides(m, namespace, ops[0], key);
      LastOpDecides(ApplyOp(m, namespace, ops[0]).value, namespace, ops[1..], key);
    }
  }

  /** What a caller can test before applying a batch: if the last operation on a present key
      is a write, it names the type the key has. */
  predicate LastWriteMatches(m: State, ops: seq<BatchOp>, key: string) {
    key in m && LastOp(ops, key).Some? && LastOp(ops, key).value.opType == WriteOp ==>
      LastOp(ops, key).value.valueType == Some(TypeTag(m[key]))
  }

  /** Exactly when a batch leaves the type of a key alone. */
  lemma BatchKeepsTypeIff(m: State, namespace: string, ops: seq<BatchOp>, key: string)
    requires ApplyOps(m, namespace, ops).Ok?
    ensures KeepsType(m, ApplyOps(m, namespace, ops).value, key) <==> LastWriteMatches(m, ops, key)
  {
    LastOpDecides(m, namespace, ops, key);
  }

  /** Exactly when an event leaves the type of a key alone: always, unless it is a batch whose
      last operation on the key writes another type. */
  lemma ApplyKeepsTypes(env: Integrity, m: State, e: Event, key: string)
    requires Apply(env, m, e).Ok?
    ensures KeepsType(m, Apply(env, m, e).value, key)
            <==> (e.eventType == StateBatch ==> LastWriteMatches(m, e.ops.value, key))
  {
    if e.eventType == StateBatch {
      BatchKeepsTypeIff(m, e.namespace, e.ops.value, key);
    }
  }

  /** The condition can fail: a batch that deletes a key and writes it back as another type
      is applied, and its last operation on the key names that other type. */
  lemma BatchCanChangeType(m: State, namespace: string, key: string)
    requires Key.ValidKey(namespace, key) && key in m && TypeTag(m[key]) != 0x06
    ensures var ops := [ BatchOp(DeleteOp, key, None, None, None, false),
                         BatchOp(WriteOp, key, Some(0x06), Some(CanonicalJson.JNull), None, false) ];
            ApplyOps(m, namespace, ops).Ok? && !LastWriteMatches(m, ops, key)
            && !KeepsType(m, ApplyOps(m, namespace, ops).value, key)
  {
    var ops := [ BatchOp(DeleteOp, key, None, None, None, false),
                 BatchOp(WriteOp, key, Some(0x06), Some(CanonicalJson.JNull), None, false) ];
    var next := Remove(m, key);
    assert ApplyOp(m, namespace, ops[0]) == Ok(next);
    assert ops[1..][0] == ops[1] && ops[1..][1..] == [];
    assert ApplyOps(next, namespace, ops[1..]).Ok?;
    assert LastOp(ops[1..], key) == Some(ops[1]);
    BatchKeepsTypeIff(m, namespace, ops, key);
  }

  // ---------------------------------------------------------------------------
  // Types over a run.
  // ---------------------------------------------------------------------------

  /** The event leaves a key of type `tag` in place, with that type. Only the event is
      looked at. */
  predicate KeepsKey(e: Event, key: string, tag: byte) {
    match e.eventType
    case StateDelete => e.key != Some(key)
    case StateBatch =>
      (e.ops.Some? && LastOp(e.ops.value, key).Some? ==>
         var op := LastOp(e.ops.value, key).value;
         op.opType == WriteOp && op.valueType == Some(tag))
    case _ => true
  }

  /** Exactly when a present key is still there, with its type, after an event. */
  lemma ApplyKeepsKeyIff(env: Integrity, m: State, e: Event, key: string)
    requires Apply(env, m, e).Ok? && key in m
    ensures var r := Apply(env, m, e).value;
            (key in r && TypeTag(r[key]) == TypeTag(m[key])) <==> KeepsKey(e, key, TypeTag(m[key]))
  {
    if e.eventType == StateBatch {
      LastOpDecides(m, e.namespace, e.ops.value, key);
    }
  }

  /** The key is there with type `tag` after every event of the run. */
  ghost predicate AlwaysThere(env: Integrity, p: Progress, events: seq<Event>, key: string, tag: byte)
    decreases |events|
  {
    events != [] ==>
      && Step(env, p, events[0]).Ok?
      && key in Step(env, p, events[0]).value.state
      && TypeTag(Step(env, p, events[0]).value.state[key]) == tag
      && AlwaysThere(env, Step(env, p, events[0]).value, events[1..], key, tag)
  }

  /** Every event that replay does not skip as a duplicate keeps the key. */
  predicate AllKeepKey(seen: set<string>, events: seq<Event>, key: string, tag: byte)
    decreases |events|
  {
    events != [] ==>
      && (events[0].digest in seen || KeepsKey(events[0], key, tag))
      && AllKeepKey(seen + {events[0].digest}, events[1..], key, tag)
  }

  lemma StepKeepsKeyIff(env: Integrity, p: Progress, e: Event, key: string)
    requires Step(env, p, e).Ok? && key in p.state
    ensures var q := Step(env, p, e).value;
            && q.seen == p.seen + {e.digest}
            && ((key in q.state && TypeTag(q.state[key]) == TypeTag(p.state[key]))
                <==> e.digest in p.seen || KeepsKey(e, key, TypeTag(p.state[key])))
  {
    if e.digest !in p.seen {
      ApplyKeepsKeyIff(env, p.state, e, key);
    }
  }

  /** A key keeps its type at every step of a replay exactly when each event applied does not
      delete it and, if it is a batch, either leaves it alone or ends by writing the same
      type. */
  lemma {:induction false} RunKeepsTypeIff(env: Integrity, p: Progress, events: seq<Event>, key: string)
    requires Run(env, p, events).Ok? && key in p.state
    ensures AlwaysThere(env, p, events, key, TypeTag(p.state[key]))
            <==> AllKeepKey(p.seen, events, key, TypeTag(p.state[key]))
    decreases |events|
  {
    if events != [] {
      StepKeepsKeyIff(env, p, events[0], key);
      var q := Step(env, p, events[0]).value;
      if key in q.state && TypeTag(q.state[key]) == TypeTag(p.state[key]) {
        RunKeepsTypeIff(env, q, events[1..], key);
      }
    }
  }

  // ---------------------------------------------------------------------------
  // Good states encode.
  // ---------------------------------------------------------------------------

  lemma GoodEntryEncodes(namespace: string, e: Entry)
    requires Key.ValidKey(namespace, e.key) && ValidValue(e.value)
    ensures EncodeEntry(e).Ok?
  {
  }

  lemma {:induction false} EntriesEncode(encode: EntryEncoder, entries: seq<Entry>)
    requires forall i :: 0 <= i < |entries| ==> encode(entries[i]).Ok?
    ensures EncodeEntries(encode, entries).Ok?
  {
    if entries != [] {
      EntriesEncode(encode, entries[1..]);
    }
  }

  /** A replayed state always has an encoding, hence a root digest. */
  lemma GoodStateEncodes(namespace: string, m: State)
    requires GoodState(namespace, m)
    ensures ToBinary(m).Ok?
  {
    var entries := Entries(m);
    Codec.EntriesOfMap(m);
    forall i | 0 <= i < |entries| ensures EncodeEntry(entries[i]).Ok? {
      GoodEntryEncodes(namespace, entries[i]);
    }
    EntriesEncode(EncodeEntry, entries);
  }

  /** States of different valid namespaces share no key. */
  lemma NamespacesShareNoKey(a: string, b: string, m: State, n: State)
    requires Key.ValidateNamespaceWith(a, true).Ok? && Key.ValidateNamespaceWith(b, true).Ok? && a != b
    requires KeysValid(a, m) && KeysValid(b, n)
    ensures m.Keys !! n.Keys
  {
    forall k | k in m && k in n ensures false {
      Key.NamespacesAreDisjoint(a, b, k);
    }
  }
}
