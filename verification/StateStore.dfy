/** The Binary State Map as an object mutated in place, with the byte-level loops of
    src/state_map.rs proved against the functions of StateMap. */
module StateStore {
  import opened Prelude
  import opened KeyOrder
  import opened Wire
  import opened StateMap
  import Codec
  import Decimal
  import Key

  /** The key holds `value` now, or nothing, and every other key what it held before. */
  ghost predicate HoldsNow(before: State, after: State, key: string, value: Option<BsmValue>) {
    && (if value.Some? then key in after && after[key] == value.value else key !in after)
    && forall k :: k != key ==> (k in before <==> k in after) && (k in before ==> after[k] == before[k])
  }

  class BinaryStateMap {
    var inner: State

    constructor ()
      ensures inner == map[]
    {
      inner := map[];
    }

    constructor From(m: State)
      ensures inner == m
    {
      inner := m;
    }

    method SetValidated(key: string, value: BsmValue) returns (r: Result<(), StateError>)
      modifies this
      ensures match Insert(old(inner), key, value)
              case Ok(m) => r == Ok(()) && inner == m
              case Err(e) => r == Err(e) && inner == old(inner)
      ensures r == if !ValidValue(value) then Err(InvalidNumeric)
                   else if key in old(inner) && TypeTag(old(inner)[key]) != TypeTag(value) then Err(TypeMismatch)
                   else Ok(())
      ensures r.Ok? ==> HoldsNow(old(inner), inner, key, Some(value))
    {
      if !ValidValue(value) {
        return Err(InvalidNumeric);
      }
      if key in inner && TypeTag(inner[key]) != TypeTag(value) {
        return Err(TypeMismatch);
      }
      inner := inner[key := value];
      return Ok(());
    }

    method Set(namespace: string, key: string, value: BsmValue) returns (r: Result<(), StateError>)
      modifies this
      ensures !Key.ValidKey(namespace, key) ==> r == Err(InvalidKey) && inner == old(inner)
      ensures Key.ValidKey(namespace, key) ==>
                match Insert(old(inner), key, value)
                case Ok(m) => r == Ok(()) && inner == m
                case Err(e) => r == Err(e) && inner == old(inner)
      ensures r.Ok? <==> Key.ValidKey(namespace, key) && ValidValue(value)
                         && (key in old(inner) ==> TypeTag(old(inner)[key]) == TypeTag(value))
      ensures r.Ok? ==> HoldsNow(old(inner), inner, key, Some(value))
    {
      if !Key.ValidKey(namespace, key) {
        return Err(InvalidKey);
      }
      r := SetValidated(key, value);
    }

    /** Deleting an absent key is not an error here. */
    method Delete(namespace: string, key: string) returns (r: Result<(), StateError>)
      modifies this
      ensures !Key.ValidKey(namespace, key) ==> r == Err(InvalidKey) && inner == old(inner)
      ensures Key.ValidKey(namespace, key) ==> r == Ok(()) && inner == Remove(old(inner), key)
      ensures r.Ok? ==> HoldsNow(old(inner), inner, key, None)
    {
      if !Key.ValidKey(namespace, key) {
        return Err(InvalidKey);
      }
      inner := inner - {key};
      return Ok(());
    }

    method ToBytes() returns (r: Result<Bytes, WireError>)
      ensures r == ToBinary(inner)
    {
      var entries := Entries(inner);
      var out := BigEndian(|inner|, 4);
      var body :- EncodeList(EncodeEntry, entries);
      return Ok(out + body);
    }
  }

  /** The encoding loop: each entry is appended to the output. */
  method EncodeList(encode: EntryEncoder, entries: seq<Entry>) returns (r: Result<Bytes, WireError>)
    ensures r == EncodeEntries(encode, entries)
  {
    var out: Bytes := [];
    assert entries[0..] == entries;
    ContinueEmpty(EncodeEntries(encode, entries));
    for i := 0 to |entries|
      invariant EncodeEntries(encode, entries) == Continue(out, EncodeEntries(encode, entries[i..]))
    {
      assert entries[i..][0] == entries[i] && entries[i..][1..] == entries[i + 1..];
      var head :- encode(entries[i]);
      ContinueStep(out, head, EncodeEntries(encode, entries[i + 1..]));
      out := out + head;
    }
    assert out + [] == out;
    return Ok(out);
  }

  function Continue(done: Bytes, rest: Result<Bytes, WireError>): Result<Bytes, WireError> {
    var tail :- rest;
    Ok(done + tail)
  }

  lemma ContinueEmpty(rest: Result<Bytes, WireError>)
    ensures Continue([], rest) == rest
  {
    assert rest.Ok? ==> [] + rest.value == rest.value;
  }

  lemma ContinueStep(done: Bytes, head: Bytes, tail: Result<Bytes, WireError>)
    ensures Continue(done, Continue(head, tail)) == Continue(done + head, tail)
  {
    assert tail.Ok? ==> done + (head + tail.value) == done + head + tail.value;
  }

  // ---------------------------------------------------------------------------
  // Reading with a cursor.
  // ---------------------------------------------------------------------------

  /** What reading from `cursor` returned is what the specification reads from the
      bytes that remain, and the cursor moved past exactly those bytes. */
  ghost predicate ReadFrom<T>(bytes: Bytes, cursor: nat, spec: Result<(T, Bytes), WireError>,
                              r: Result<T, WireError>, next: nat)
    requires cursor <= |bytes|
  {
    && cursor <= next <= |bytes|
    && match spec
       case Ok(p) => r == Ok(p.0) && bytes[next..] == p.1
       case Err(e) => r == Err(e)
  }

  method ReadExact(bytes: Bytes, cursor: nat, len: nat) returns (r: Result<Bytes, WireError>, next: nat)
    requires cursor <= |bytes|
    ensures ReadFrom(bytes, cursor, Take(bytes[cursor..], len), r, next)
  {
    var end := cursor + len;
    if end > |bytes| {
      return Err(UnexpectedEof), cursor;
    }
    assert bytes[cursor..][..len] == bytes[cursor..end] && bytes[cursor..][len..] == bytes[end..];
    return Ok(bytes[cursor..end]), end;
  }

  method ReadNumber(bytes: Bytes, cursor: nat, width: nat) returns (r: Result<nat, WireError>, next: nat)
    requires cursor <= |bytes|
    ensures ReadFrom(bytes, cursor, TakeNumber(bytes[cursor..], width), r, next)
  {
    var head;
    head, next := ReadExact(bytes, cursor, width);
    if head.Err? {
      return Err(head.error), next;
    }
    return Ok(Number(head.value)), next;
  }

  method ReadCounted(bytes: Bytes, cursor: nat) returns (r: Result<Bytes, WireError>, next: nat)
    requires cursor <= |bytes|
    ensures ReadFrom(bytes, cursor, TakeCounted(bytes[cursor..]), r, next)
  {
    var len;
    len, next := ReadNumber(bytes, cursor, 4);
    if len.Err? {
      return Err(len.error), next;
    }
    r, next := ReadExact(bytes, next, len.value);
  }

  method ReadPayload(tag: byte, bytes: Bytes, cursor: nat) returns (r: Result<BsmValue, WireError>, next: nat)
    requires cursor <= |bytes|
    ensures ReadFrom(bytes, cursor, DecodePayload(tag, bytes[cursor..]), r, next)
  {
    if tag == 0x01 {
      var flag;
      flag, next := ReadNumber(bytes, cursor, 1);
      r := if flag.Err? then Err(flag.error)
           else if flag.value == 0 then Ok(Boolean(false))
           else if flag.value == 1 then Ok(Boolean(true))
           else Err(BadBoolean);
    } else if tag == 0x02 {
      var n;
      n, next := ReadNumber(bytes, cursor, 8);
      if n.Err? {
        return Err(n.error), next;
      }
      TakeNumberSound(bytes[cursor..], 8);
      Widths();
      r := Ok(Integer(SignedOf(n.value)));
    } else if tag == 0x06 {
      return Ok(Null), cursor;
    } else if tag == 0x03 || tag == 0x04 || tag == 0x05 {
      var payload;
      payload, next := ReadCounted(bytes, cursor);
      r := if payload.Err? then Err(payload.error) else PayloadOf(tag, payload.value);
    } else {
      return Err(UnknownTag), cursor;
    }
  }

  /** The value carried by the bytes of a length-prefixed payload. */
  function PayloadOf(tag: byte, payload: Bytes): Result<BsmValue, WireError>
    requires tag == 0x03 || tag == 0x04 || tag == 0x05
  {
    if tag == 0x05 then Ok(Blob(payload))
    else
      var text :- DecodeText(payload);
      if tag == 0x04 then Ok(Text(text))
      else if Decimal.Validate(text).Ok? then Ok(BsmValue.Decimal(text))
      else Err(BadDecimal)
  }

  method ReadKey(bytes: Bytes, cursor: nat) returns (r: Result<string, WireError>, next: nat)
    requires cursor <= |bytes|
    ensures ReadFrom(bytes, cursor, DecodeKey(bytes[cursor..]), r, next)
  {
    var len, payload;
    len, next := ReadNumber(bytes, cursor, 2);
    if len.Err? {
      return Err(len.error), next;
    }
    payload, next := ReadExact(bytes, next, len.value);
    if payload.Err? {
      return Err(payload.error), next;
    }
    r := DecodeText(payload.value);
  }

  method ReadEntry(bytes: Bytes, cursor: nat, previous: Option<string>)
    returns (r: Result<Entry, WireError>, next: nat)
    requires cursor <= |bytes|
    ensures ReadFrom(bytes, cursor, DecodeEntry(bytes[cursor..], previous), r, next)
  {
    var key, tag, value;
    key, next := ReadKey(bytes, cursor);
    if key.Err? {
      return Err(key.error), next;
    }
    if previous.Some? && !KeyLess(previous.value, key.value) {
      return Err(OrderViolation), next;
    }
    var tagAt := next;
    tag, next := ReadNumber(bytes, next, 1);
    if tag.Err? {
      return Err(tag.error), next;
    }
    TakeNumberSound(bytes[tagAt..], 1);
    value, next := ReadPayload(tag.value, bytes, next);
    if value.Err? {
      return Err(value.error), next;
    }
    return Ok(Entry(key.value, value.value)), next;
  }

  /** The rest of the list once `done` has been read. */
  ghost function Resume(done: seq<Entry>, rest: Result<(seq<Entry>, Bytes), WireError>)
    : Result<(seq<Entry>, Bytes), WireError>
  {
    match rest
    case Ok(p) => Ok((done + p.0, p.1))
    case Err(e) => Err(e)
  }

  lemma ResumeStep(decode: EntryDecoder, n: nat, b: Bytes, previous: Option<string>, done: seq<Entry>)
    requires n > 0
    ensures match decode(b, previous)
            case Err(e) => Resume(done, DecodeEntries(decode, n, b, previous)) == Err(e)
            case Ok((head, after)) =>
              Resume(done, DecodeEntries(decode, n, b, previous))
              == Resume(done + [head], DecodeEntries(decode, n - 1, after, Some(head.key)))
  {
    if decode(b, previous).Ok? {
      var (head, after) := decode(b, previous).value;
      var tail := DecodeEntries(decode, n - 1, after, Some(head.key));
      if tail.Ok? {
        assert done + ([head] + tail.value.0) == done + [head] + tail.value.0;
      }
    }
  }

  lemma ResumeEmpty(rest: Result<(seq<Entry>, Bytes), WireError>)
    ensures Resume([], rest) == rest
  {
    if rest.Ok? {
      assert [] + rest.value.0 == rest.value.0;
      assert rest == Ok((rest.value.0, rest.value.1));
    }
  }

  lemma ResumeAll(done: seq<Entry>, b: Bytes)
    ensures Resume(done, Ok(([], b))) == Ok((done, b))
  {
    assert done + [] == done;
  }

  /** Entries already read, in order, and the key the next one has to exceed. */
  ghost predicate InOrder(done: seq<Entry>, previous: Option<string>) {
    && Increasing(Codec.EntryKeys(done))
    && (done == [] <==> previous.None?)
    && (done != [] ==> previous == Some(done[|done| - 1].key))
  }

  lemma InOrderLast(done: seq<Entry>, previous: Option<string>, e: Entry, i: nat)
    requires InOrder(done, previous) && (previous.Some? ==> KeyLess(previous.value, e.key))
    requires i < |done|
    ensures KeyLess(done[i].key, e.key) && done[i].key != e.key
  {
    var keys := Codec.EntryKeys(done);
    if i < |done| - 1 {
      assert KeyLess(keys[i], keys[|done| - 1]);
      KeyLessTransitive(keys[i], previous.value, e.key);
    }
    KeyLessIrreflexive(e.key);
  }

  lemma InOrderExtends(done: seq<Entry>, previous: Option<string>, e: Entry)
    requires InOrder(done, previous) && (previous.Some? ==> KeyLess(previous.value, e.key))
    ensures InOrder(done + [e], Some(e.key))
  {
    var keys := Codec.EntryKeys(done + [e]);
    forall i, j | 0 <= i < j < |keys| ensures KeyLess(keys[i], keys[j]) {
      assert keys[i] == Codec.EntryKeys(done)[i];
      if j < |done| {
        assert keys[j] == Codec.EntryKeys(done)[j];
      } else {
        InOrderLast(done, previous, e, i);
      }
    }
  }

  lemma MapExtends(done: seq<Entry>, previous: Option<string>, e: Entry)
    requires InOrder(done, previous) && (previous.Some? ==> KeyLess(previous.value, e.key))
    ensures e.key !in MapOf(done)
    ensures MapOf(done + [e]) == MapOf(done)[e.key := e.value]
  {
    Codec.MapOfKeys(done, e.key);
    if e.key in MapOf(done) {
      var i :| 0 <= i < |done| && done[i].key == e.key;
      InOrderLast(done, previous, e, i);
    }
    assert (done + [e])[..|done|] == done;
  }

  /** `from_binary`: the second test for duplicate keys can never fire, since a key that
      comes after the previous one is new to the map. */
  method FromBytes(bytes: Bytes) returns (r: Result<BinaryStateMap, WireError>)
    ensures match FromBinary(bytes)
            case Ok(m) => r.Ok? && fresh(r.value) && r.value.inner == m
            case Err(e) => r == Err(e)
  {
    var count, cursor := ReadNumber(bytes, 0, 4);
    assert bytes[0..] == bytes;
    if count.Err? {
      return Err(count.error);
    }
    var list, next := ReadEntries(bytes, cursor, count.value, DecodeEntry);
    if list.Err? {
      return Err(list.error);
    }
    if next != |bytes| {
      return Err(TrailingBytes);
    }
    var result := new BinaryStateMap.From(list.value);
    return Ok(result);
  }

  predicate At(b: Bytes, previous: Option<string>) {
    true
  }

  /** `decode` is the entry decoder, a fact used only where `At` asks for it. */
  ghost predicate DecodesEntries(decode: EntryDecoder) {
    forall b: Bytes, previous: Option<string> {:trigger At(b, previous)} ::
      At(b, previous) ==> decode(b, previous) == DecodeEntry(b, previous)
  }

  /** One turn of the decoding loop. */
  method ReadNext(bytes: Bytes, cursor: nat, previous: Option<string>, m: State,
                  ghost n: nat, ghost done: seq<Entry>, ghost decode: EntryDecoder)
    returns (r: Result<(Entry, State), WireError>, next: nat)
    requires cursor <= |bytes| && n > 0 && DecodesEntries(decode)
    requires InOrder(done, previous) && m == MapOf(done)
    ensures cursor <= next <= |bytes|
    ensures r.Err? ==> Resume(done, DecodeEntries(decode, n, bytes[cursor..], previous)) == Err(r.error)
    ensures r.Ok? ==>
              var (e, m') := r.value;
              InOrder(done + [e], Some(e.key)) && m' == MapOf(done + [e])
              && Resume(done, DecodeEntries(decode, n, bytes[cursor..], previous))
                 == Resume(done + [e], DecodeEntries(decode, n - 1, bytes[next..], Some(e.key)))
  {
    var entry;
    assert At(bytes[cursor..], previous);
    ResumeStep(decode, n, bytes[cursor..], previous, done);
    entry, next := ReadEntry(bytes, cursor, previous);
    if entry.Err? {
      return Err(entry.error), next;
    }
    var e := entry.value;
    EntryInOrder(bytes[cursor..], previous);
    InOrderExtends(done, previous, e);
    MapExtends(done, previous, e);
    assert e.key !in m;
    return Ok((e, m[e.key := e.value])), next;
  }

  method ReadEntries(bytes: Bytes, start: nat, count: nat, ghost decode: EntryDecoder)
    returns (r: Result<State, WireError>, cursor: nat)
    requires start <= |bytes| && DecodesEntries(decode)
    ensures start <= cursor <= |bytes|
    ensures match DecodeEntries(decode, count, bytes[start..], None)
            case Ok(p) => r == Ok(MapOf(p.0)) && bytes[cursor..] == p.1
            case Err(e) => r == Err(e)
  {
    cursor := start;
    var m: State := map[];
    var previous: Option<string> := None;
    ghost var done: seq<Entry> := [];
    ghost var whole := DecodeEntries(decode, count, bytes[start..], None);
    ResumeEmpty(whole);
    var left := count;
    while left > 0
      invariant start <= cursor <= |bytes|
      invariant InOrder(done, previous) && m == MapOf(done)
      invariant whole == Resume(done, DecodeEntries(decode, left, bytes[cursor..], previous))
    {
      var step, next := ReadNext(bytes, cursor, previous, m, left, done, decode);
      cursor := next;
      if step.Err? {
        return Err(step.error), next;
      }
      previous := Some(step.value.0.key);
      m := step.value.1;
      done := done + [step.value.0];
      left := left - 1;
    }
    ResumeAll(done, bytes[cursor..]);
    return Ok(m), cursor;
  }

  lemma EntryInOrder(b: Bytes, previous: Option<string>)
    requires DecodeEntry(b, previous).Ok?
    ensures previous.Some? ==> KeyLess(previous.value, DecodeEntry(b, previous).value.0.key)
  {
  }

  // ---------------------------------------------------------------------------
  // Atomic batches.
  // ---------------------------------------------------------------------------

  /** The transactional wrapper: a batch works on a staged copy that replaces the live
      state only when the whole batch succeeds. */
  class TransactionalStateMap {
    var live: State

    constructor (m: State)
      ensures live == m
    {
      live := m;
    }

    /** `change` is whatever the caller does to the staged copy: what it makes of it, and
        whether it fails. A failing change leaves the live state as it was, even if it has
        altered the copy. */
    method ApplyBatch<E>(change: State -> (State, Result<(), E>)) returns (r: Result<(), E>)
      modifies this
      ensures r == change(old(live)).1
      ensures live == if r.Ok? then change(old(live)).0 else old(live)
    {
      var staged := new BinaryStateMap.From(live);
      var changed := change(staged.inner);
      staged.inner := changed.0;
      if changed.1.Err? {
        return changed.1;
      }
      live := staged.inner;
      return changed.1;
    }
  }
}
