/** The map format is a bijection between encodable maps and accepted byte strings. */
module Codec {
  import opened Prelude
  import opened KeyOrder
  import opened Wire
  import opened StateMap
  import Utf8

  /** Lengths that survive the cast to the 32-bit length fields. */
  predicate PayloadFits(v: BsmValue) {
    match v
    case Decimal(numeral) => |Utf8.Encode(numeral)| < 0x1_0000_0000
    case Text(text) => |Utf8.Encode(text)| < 0x1_0000_0000
    case Blob(bytes) => |bytes| < 0x1_0000_0000
    case _ => true
  }

  predicate Fits(m: State) {
    |m| < 0x1_0000_0000 && forall k :: k in m ==> PayloadFits(m[k])
  }

  predicate Encodable(m: State) {
    ToBinary(m).Ok? && Fits(m)
  }

  function EntryKeys(entries: seq<Entry>): (r: seq<string>)
    ensures |r| == |entries| && forall i :: 0 <= i < |r| ==> r[i] == entries[i].key
  {
    seq(|entries|, i requires 0 <= i < |entries| => entries[i].key)
  }

  // ---------------------------------------------------------------------------
  // Payloads.
  // ---------------------------------------------------------------------------

  lemma CountedExact(payload: Bytes, rest: Bytes)
    requires |payload| < 0x1_0000_0000
    ensures TakeCounted(Counted(payload) + rest) == Ok((payload, rest))
  {
    Widths();
    assert Counted(payload) + rest == BigEndian(|payload|, 4) + (payload + rest);
    TakeNumberExact(|payload|, 4, payload + rest);
    TakeExact(payload, rest);
  }

  lemma CountedSound(b: Bytes)
    requires TakeCounted(b).Ok?
    ensures var (payload, rest) := TakeCounted(b).value;
            |payload| < 0x1_0000_0000 && b == Counted(payload) + rest
  {
    var (n, after) := TakeNumber(b, 4).value;
    TakeNumberSound(b, 4);
    Widths();
    var (payload, rest) := Take(after, n).value;
    assert b == BigEndian(n, 4) + (payload + rest);
  }

  lemma TextExact(text: string)
    ensures DecodeText(Utf8.Encode(text)) == Ok(text)
  {
    Utf8.RoundTrip(text);
  }

  lemma PayloadExact(v: BsmValue, rest: Bytes)
    requires EncodePayload(v).Ok? && PayloadFits(v)
    ensures DecodePayload(TypeTag(v), EncodePayload(v).value + rest) == Ok((v, rest))
  {
    match v {
      case Boolean(flag) =>
        var n: nat := if flag then 1 else 0;
        assert BigEndian(n, 1) == [n];
        TakeNumberExact(n, 1, rest);
      case Integer(i) =>
        Widths();
        TakeNumberExact(Unsigned(i), 8, rest);
      case Decimal(numeral) =>
        CountedExact(Utf8.Encode(numeral), rest);
        TextExact(numeral);
      case Text(text) =>
        CountedExact(Utf8.Encode(text), rest);
        TextExact(text);
      case Blob(bytes) =>
        CountedExact(bytes, rest);
      case Null =>
        assert [] + rest == rest;
    }
  }

  lemma PayloadSound(tag: byte, b: Bytes)
    requires DecodePayload(tag, b).Ok?
    ensures var (v, rest) := DecodePayload(tag, b).value;
            TypeTag(v) == tag && PayloadFits(v) && ValidValue(v)
            && EncodePayload(v).Ok? && b == EncodePayload(v).value + rest
  {
    if tag == 0x01 {
      TakeNumberSound(b, 1);
      var n := TakeNumber(b, 1).value.0;
      assert BigEndian(n, 1) == [n];
    } else if tag == 0x02 {
      TakeNumberSound(b, 8);
    } else if tag == 0x06 {
      assert b == [] + b;
    } else {
      CountedSound(b);
    }
  }

  // ---------------------------------------------------------------------------
  // Entries.
  // ---------------------------------------------------------------------------

  lemma KeyExact(key: string, rest: Bytes)
    requires EncodeKey(key).Ok?
    ensures DecodeKey(EncodeKey(key).value + rest) == Ok((key, rest))
  {
    var k := Utf8.Encode(key);
    Widths();
    Assoc(BigEndian(|k|, 2), k, rest);
    TakeNumberExact(|k|, 2, k + rest);
    TakeExact(k, rest);
    TextExact(key);
  }

  lemma KeySound(b: Bytes)
    requires DecodeKey(b).Ok?
    ensures var (key, rest) := DecodeKey(b).value;
            EncodeKey(key).Ok? && b == EncodeKey(key).value + rest
  {
    Widths();
    TakeNumberSound(b, 2);
    var (n, after) := TakeNumber(b, 2).value;
    var (payload, rest) := Take(after, n).value;
    Assoc(BigEndian(n, 2), payload, rest);
  }

  lemma ValueExact(v: BsmValue, rest: Bytes)
    requires EncodeValue(v).Ok? && PayloadFits(v)
    ensures DecodeValue(EncodeValue(v).value + rest) == Ok((v, rest))
  {
    var payload := EncodePayload(v).value;
    Assoc([TypeTag(v)], payload, rest);
    OneByte(TypeTag(v));
    TakeNumberExact(TypeTag(v), 1, payload + rest);
    PayloadExact(v, rest);
  }

  lemma OneByte(n: byte)
    ensures BigEndian(n, 1) == [n]
  {
    assert BigEndian(n / 0x100, 0) == [];
  }

  lemma ValueSound(b: Bytes)
    requires DecodeValue(b).Ok?
    ensures var (v, rest) := DecodeValue(b).value;
            PayloadFits(v) && ValidValue(v) && EncodeValue(v).Ok? && b == EncodeValue(v).value + rest
  {
    var (tag, after) := TakeNumber(b, 1).value;
    TakeNumberSound(b, 1);
    OneByte(tag);
    PayloadSound(tag, after);
    var (v, rest) := DecodePayload(tag, after).value;
    Assoc([tag], EncodePayload(v).value, rest);
  }

  lemma EntryExact(e: Entry, rest: Bytes, previous: Option<string>)
    requires EncodeEntry(e).Ok? && PayloadFits(e.value)
    requires previous.Some? ==> KeyLess(previous.value, e.key)
    ensures DecodeEntry(EncodeEntry(e).value + rest, previous) == Ok((e, rest))
  {
    var key, value := EncodeKey(e.key).value, EncodeValue(e.value).value;
    Assoc(key, value, rest);
    KeyExact(e.key, value + rest);
    ValueExact(e.value, rest);
  }

  lemma EntrySound(b: Bytes, previous: Option<string>)
    requires DecodeEntry(b, previous).Ok?
    ensures var (e, rest) := DecodeEntry(b, previous).value;
            PayloadFits(e.value) && ValidValue(e.value)
            && (previous.Some? ==> KeyLess(previous.value, e.key))
            && EncodeEntry(e).Ok? && b == EncodeEntry(e).value + rest
  {
    var (key, afterKey) := DecodeKey(b).value;
    var (value, rest) := DecodeValue(afterKey).value;
    KeySound(b);
    ValueSound(afterKey);
    Assoc(EncodeKey(key).value, EncodeValue(value).value, rest);
  }

  lemma Assoc(a: Bytes, b: Bytes, c: Bytes)
    ensures (a + b) + c == a + (b + c)
  {
  }

  // ---------------------------------------------------------------------------
  // Lists of entries, for any entry codec.
  // ---------------------------------------------------------------------------

  ghost predicate ReadsOne(encode: EntryEncoder, decode: EntryDecoder, e: Entry, rest: Bytes, previous: Option<string>)
  {
    encode(e).Ok? && PayloadFits(e.value) && (previous.Some? ==> KeyLess(previous.value, e.key)) ==>
      decode(encode(e).value + rest, previous) == Ok((e, rest))
  }

  ghost predicate StrictOne(encode: EntryEncoder, decode: EntryDecoder, b: Bytes, previous: Option<string>) {
    decode(b, previous).Ok? ==>
      var (e, rest) := decode(b, previous).value;
      PayloadFits(e.value) && ValidValue(e.value)
      && (previous.Some? ==> KeyLess(previous.value, e.key))
      && encode(e).Ok? && b == encode(e).value + rest
  }

  /** Decoding reads back what encoding wrote, for entries that fit and come in order. */
  ghost predicate Reads(encode: EntryEncoder, decode: EntryDecoder) {
    forall e: Entry, rest: Bytes, previous: Option<string> :: ReadsOne(encode, decode, e, rest, previous)
  }

  /** Whatever decodes is the encoding of an entry that fits and comes in order. */
  ghost predicate Strict(encode: EntryEncoder, decode: EntryDecoder) {
    forall b: Bytes, previous: Option<string> :: StrictOne(encode, decode, b, previous)
  }

  lemma EntryReads(e: Entry, rest: Bytes, previous: Option<string>)
    ensures ReadsOne(EncodeEntry, DecodeEntry, e, rest, previous)
  {
    if EncodeEntry(e).Ok? && PayloadFits(e.value) && (previous.Some? ==> KeyLess(previous.value, e.key)) {
      EntryExact(e, rest, previous);
    }
  }

  lemma EntryStrict(b: Bytes, previous: Option<string>)
    ensures StrictOne(EncodeEntry, DecodeEntry, b, previous)
  {
    if DecodeEntry(b, previous).Ok? {
      EntrySound(b, previous);
    }
  }

  lemma EntryCodecReads()
    ensures Reads(EncodeEntry, DecodeEntry)
  {
    forall e: Entry, rest: Bytes, previous: Option<string>
      ensures ReadsOne(EncodeEntry, DecodeEntry, e, rest, previous)
    {
      EntryReads(e, rest, previous);
    }
  }

  lemma EntryCodecStrict()
    ensures Strict(EncodeEntry, DecodeEntry)
  {
    forall b: Bytes, previous: Option<string> ensures StrictOne(EncodeEntry, DecodeEntry, b, previous) {
      EntryStrict(b, previous);
    }
  }

  predicate AllFit(entries: seq<Entry>) {
    forall i :: 0 <= i < |entries| ==> PayloadFits(entries[i].value) && ValidValue(entries[i].value)
  }

  lemma TailIncreasing(entries: seq<Entry>)
    requires Increasing(EntryKeys(entries)) && entries != []
    ensures Increasing(EntryKeys(entries[1..]))
    ensures entries[1..] != [] ==> KeyLess(entries[0].key, entries[1..][0].key)
  {
    var keys := EntryKeys(entries);
    assert EntryKeys(entries[1..]) == keys[1..];
    assert |keys| > 1 ==> KeyLess(keys[0], keys[1]);
  }

  lemma {:induction false} EntriesExact(encode: EntryEncoder, decode: EntryDecoder,
                                        entries: seq<Entry>, rest: Bytes, previous: Option<string>)
    requires Reads(encode, decode)
    requires EncodeEntries(encode, entries).Ok? && Increasing(EntryKeys(entries))
    requires forall i :: 0 <= i < |entries| ==> PayloadFits(entries[i].value)
    requires previous.Some? && entries != [] ==> KeyLess(previous.value, entries[0].key)
    ensures DecodeEntries(decode, |entries|, EncodeEntries(encode, entries).value + rest, previous)
         == Ok((entries, rest))
  {
    if entries == [] {
      assert EncodeEntries(encode, entries).value + rest == rest;
    } else {
      var tail := entries[1..];
      var head, body := encode(entries[0]).value, EncodeEntries(encode, tail).value;
      Assoc(head, body, rest);
      assert ReadsOne(encode, decode, entries[0], body + rest, previous);
      TailIncreasing(entries);
      EntriesExact(encode, decode, tail, rest, Some(entries[0].key));
      assert entries == [entries[0]] + tail;
    }
  }

  lemma {:induction false} EntriesSound(encode: EntryEncoder, decode: EntryDecoder,
                                        n: nat, b: Bytes, previous: Option<string>)
    requires Strict(encode, decode) && DecodeEntries(decode, n, b, previous).Ok?
    ensures var (entries, rest) := DecodeEntries(decode, n, b, previous).value;
            |entries| == n && AllFit(entries) && Increasing(EntryKeys(entries))
            && (previous.Some? && entries != [] ==> KeyLess(previous.value, entries[0].key))
            && EncodeEntries(encode, entries).Ok? && b == EncodeEntries(encode, entries).value + rest
  {
    if n == 0 {
      assert b == [] + b;
    } else {
      var (head, after) := decode(b, previous).value;
      assert StrictOne(encode, decode, b, previous);
      EntriesSound(encode, decode, n - 1, after, Some(head.key));
      var (tail, rest) := DecodeEntries(decode, n - 1, after, Some(head.key)).value;
      HeadIncreasing(head, tail);
      assert ([head] + tail)[1..] == tail;
      Assoc(encode(head).value, EncodeEntries(encode, tail).value, rest);
    }
  }

  lemma HeadIncreasing(head: Entry, tail: seq<Entry>)
    requires Increasing(EntryKeys(tail))
    requires tail != [] ==> KeyLess(head.key, tail[0].key)
    ensures Increasing(EntryKeys([head] + tail))
  {
    var keys := EntryKeys([head] + tail);
    forall i, j | 0 <= i < j < |keys| ensures KeyLess(keys[i], keys[j]) {
      assert keys[j] == EntryKeys(tail)[j - 1];
      if i > 0 {
        assert keys[i] == EntryKeys(tail)[i - 1];
      } else if j > 1 {
        assert KeyLess(EntryKeys(tail)[0], EntryKeys(tail)[j - 1]);
        KeyLessTransitive(head.key, tail[0].key, keys[j]);
      }
    }
  }

  // ---------------------------------------------------------------------------
  // Maps and their entry lists.
  // ---------------------------------------------------------------------------

  lemma EntriesOfMap(m: State)
    ensures EntryKeys(Entries(m)) == Sorted(m.Keys) && Increasing(EntryKeys(Entries(m)))
    ensures forall i :: 0 <= i < |m| ==> Entries(m)[i].key in m && Entries(m)[i].value == m[Entries(m)[i].key]
  {
    SortedIncreasing(m.Keys);
    forall i | 0 <= i < |m| ensures Entries(m)[i].key in m {
      assert Sorted(m.Keys)[i] in Sorted(m.Keys);
    }
  }

  lemma {:induction false} MapOfKeys(entries: seq<Entry>, k: string)
    ensures k in MapOf(entries) <==> exists i :: 0 <= i < |entries| && entries[i].key == k
  {
    if entries != [] {
      var n := |entries| - 1;
      MapOfKeys(entries[..n], k);
      if k in MapOf(entries[..n]) {
        var i :| 0 <= i < n && entries[..n][i].key == k;
        assert entries[i].key == k;
      }
      forall i | 0 <= i < |entries| && entries[i].key == k ensures k in MapOf(entries) {
        if i < n {
          assert entries[..n][i].key == k;
        }
      }
    }
  }

  lemma {:induction false} MapOfLookup(entries: seq<Entry>, i: nat)
    requires Increasing(EntryKeys(entries)) && i < |entries|
    ensures entries[i].key in MapOf(entries) && MapOf(entries)[entries[i].key] == entries[i].value
  {
    var n := |entries| - 1;
    var init := entries[..n];
    assert EntryKeys(init) == EntryKeys(entries)[..n];
    if i < n {
      MapOfLookup(init, i);
      assert KeyLess(EntryKeys(entries)[i], EntryKeys(entries)[n]);
      KeyLessIrreflexive(entries[n].key);
    }
  }

  lemma MapOfEntriesAt(m: State, k: string)
    ensures k in MapOf(Entries(m)) <==> k in m
    ensures k in m ==> MapOf(Entries(m))[k] == m[k]
  {
    var entries := Entries(m);
    EntriesOfMap(m);
    MapOfKeys(entries, k);
    if k in m {
      assert k in Sorted(m.Keys);
      var i :| 0 <= i < |Sorted(m.Keys)| && Sorted(m.Keys)[i] == k;
      MapOfLookup(entries, i);
    }
  }

  /** A map rebuilt from its own entries is the map. */
  lemma MapOfEntries(m: State)
    ensures MapOf(Entries(m)) == m
  {
    forall k ensures (k in MapOf(Entries(m)) <==> k in m) && (k in m ==> MapOf(Entries(m))[k] == m[k]) {
      MapOfEntriesAt(m, k);
    }
  }

  /** Entries in increasing order are the entries of the map they make. */
  lemma EntriesOfMapOf(entries: seq<Entry>)
    requires Increasing(EntryKeys(entries))
    ensures Entries(MapOf(entries)) == entries
  {
    var m := MapOf(entries);
    forall k ensures k in EntryKeys(entries) <==> k in m.Keys {
      MapOfKeys(entries, k);
      if k in EntryKeys(entries) {
        var i :| 0 <= i < |entries| && EntryKeys(entries)[i] == k;
        assert entries[i].key == k;
      }
      if k in m {
        var i :| 0 <= i < |entries| && entries[i].key == k;
        assert EntryKeys(entries)[i] == k;
      }
    }
    SortedCharacterised(m.Keys, EntryKeys(entries));
    EntriesOfMap(m);
    forall i | 0 <= i < |entries| ensures Entries(m)[i] == entries[i] {
      MapOfLookup(entries, i);
      assert EntryKeys(Entries(m))[i] == EntryKeys(entries)[i];
    }
  }

  // ---------------------------------------------------------------------------
  // Main results.
  // ---------------------------------------------------------------------------

  lemma DecodeEncoded(m: State)
    requires Encodable(m)
    ensures FromBinary(ToBinary(m).value) == Ok(m)
  {
    var entries := Entries(m);
    var body := EncodeEntries(EncodeEntry, entries).value;
    EntriesOfMap(m);
    Widths();
    TakeNumberExact(|m|, 4, body);
    assert body + [] == body;
    EntryCodecReads();
    EntriesExact(EncodeEntry, DecodeEntry, entries, [], None);
    MapOfEntries(m);
  }

  /** Re-encoding an accepted byte string gives back the very same bytes; so no two byte
      strings decode to one state. What is decoded always fits the format. */
  lemma EncodeDecoded(b: Bytes)
    requires FromBinary(b).Ok?
    ensures ToBinary(FromBinary(b).value) == Ok(b)
    ensures Fits(FromBinary(b).value)
    ensures forall k :: k in FromBinary(b).value ==> ValidValue(FromBinary(b).value[k])
  {
    var (n, afterCount) := TakeNumber(b, 4).value;
    var (entries, rest) := DecodeEntries(DecodeEntry, n, afterCount, None).value;
    Widths();
    TakeNumberSound(b, 4);
    EntryCodecStrict();
    EntriesSound(EncodeEntry, DecodeEntry, n, afterCount, None);
    EntriesOfMapOf(entries);
    assert EncodeEntries(EncodeEntry, entries).value + [] == EncodeEntries(EncodeEntry, entries).value;
    var m := MapOf(entries);
    assert |m| == |Entries(m)| == n;
    forall k | k in m ensures PayloadFits(m[k]) && ValidValue(m[k]) {
      MapOfKeys(entries, k);
      var i :| 0 <= i < |entries| && entries[i].key == k;
      MapOfLookup(entries, i);
    }
  }

  /** A map survives the wire exactly when it encodes and its lengths fit the length fields. */
  lemma RoundTripIffEncodable(m: State)
    ensures ToBinary(m).Ok? ==> (FromBinary(ToBinary(m).value) == Ok(m) <==> Fits(m))
  {
    if ToBinary(m).Ok? {
      if Fits(m) {
        DecodeEncoded(m);
      }
      if FromBinary(ToBinary(m).value) == Ok(m) {
        EncodeDecoded(ToBinary(m).value);
      }
    }
  }

  /** Encoding is injective: one byte string, one state. */
  lemma EncodeInjective(a: State, b: State)
    requires Encodable(a) && Encodable(b) && ToBinary(a) == ToBinary(b)
    ensures a == b
  {
    DecodeEncoded(a);
    DecodeEncoded(b);
  }

  // ---------------------------------------------------------------------------
  // The frozen layout.
  // ---------------------------------------------------------------------------

  /** Length in two bytes, the key, the type tag, the payload. */
  lemma {:induction false} EntryLayout(key: string, value: BsmValue)
    requires |Utf8.Encode(key)| <= 0xFFFF && EncodePayload(value).Ok?
    ensures var n := |Utf8.Encode(key)|;
            EncodeEntry(Entry(key, value))
            == Ok([n / 0x100, n % 0x100] + Utf8.Encode(key) + ([TypeTag(value)] + EncodePayload(value).value))
  {
    TwoBytes(|Utf8.Encode(key)|);
  }

  lemma TwoBytes(n: nat)
    requires n <= 0xFFFF
    ensures BigEndian(n, 2) == [n / 0x100, n % 0x100]
  {
    OneByte(n / 0x100);
  }

  /** A map of one entry: the count in four bytes, then the entry. */
  lemma {:induction false} OneEntryLayout(key: string, value: BsmValue, entry: Bytes)
    requires EncodeEntry(Entry(key, value)) == Ok(entry)
    ensures ToBinary(map[key := value]) == Ok([0, 0, 0, 1] + entry)
  {
    var m: State := map[key := value];
    assert m.Keys == {key} && |m| == 1;
    SortedCharacterised(m.Keys, [key]);
    assert Entries(m) == [Entry(key, value)];
    assert EncodeEntries(EncodeEntry, [Entry(key, value)][1..]) == Ok([]);
    assert entry + [] == entry;
    assert BigEndian(1, 4) == [0, 0, 0, 1] by {
      assert BigEndian(0, 3) == [0, 0, 0] by {
        assert BigEndian(0, 2) == [0, 0] by {
          assert BigEndian(0, 1) == BigEndian(0, 0) + [0];
        }
      }
    }
  }

  lemma {:induction false} AsciiBytes(s: string, bytes: Bytes)
    requires |s| == |bytes| && forall i :: 0 <= i < |s| ==> s[i] as int == bytes[i] && bytes[i] < 0x80
    ensures Utf8.Encode(s) == bytes
  {
    forall c | c in s ensures c as int < 0x80 {
      var i :| 0 <= i < |s| && s[i] == c;
    }
    Utf8.EncodeAscii(s);
  }

  lemma SmallInteger(i: i64)
    requires 0 <= i < 0x100
    ensures BigEndian(i as int, 8) == [0, 0, 0, 0, 0, 0, 0, i as int]
  {
    var n: nat := i as int;
    assert n / 0x100 == 0;
    ZeroBytes();
  }

  lemma ZeroBytes()
    ensures BigEndian(0, 7) == [0, 0, 0, 0, 0, 0, 0]
  {
    assert BigEndian(0, 4) == [0, 0, 0, 0] by {
      assert BigEndian(0, 2) == [0, 0] by {
        assert BigEndian(0, 1) == BigEndian(0, 0) + [0];
      }
      assert BigEndian(0, 3) == BigEndian(0, 2) + [0];
    }
    assert BigEndian(0, 5) == BigEndian(0, 4) + [0];
    assert BigEndian(0, 6) == BigEndian(0, 5) + [0];
  }

  /** The frozen encodings of a flag and of a counter: count, key length, key, tag, payload. */
  lemma FlagVector()
    ensures ToBinary(map["a:flag" := Boolean(true)])
         == Ok([0, 0, 0, 1] + ([0, 6] + [0x61, 0x3A, 0x66, 0x6C, 0x61, 0x67] + ([0x01] + [1])))
  {
    AsciiBytes("a:flag", [0x61, 0x3A, 0x66, 0x6C, 0x61, 0x67]);
    EntryLayout("a:flag", Boolean(true));
    OneEntryLayout("a:flag", Boolean(true), EncodeEntry(Entry("a:flag", Boolean(true))).value);
  }

  lemma CounterVector()
    ensures ToBinary(map["a:counter" := Integer(42)])
         == Ok([0, 0, 0, 1] + ([0, 9] + [0x61, 0x3A, 0x63, 0x6F, 0x75, 0x6E, 0x74, 0x65, 0x72]
                               + ([0x02] + [0, 0, 0, 0, 0, 0, 0, 42])))
  {
    AsciiBytes("a:counter", [0x61, 0x3A, 0x63, 0x6F, 0x75, 0x6E, 0x74, 0x65, 0x72]);
    SmallInteger(42);
    EntryLayout("a:counter", Integer(42));
    OneEntryLayout("a:counter", Integer(42), EncodeEntry(Entry("a:counter", Integer(42))).value);
  }
}
