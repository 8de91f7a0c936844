/** The Binary State Map: typed values under ordered keys, and their wire format.
    src/state_map.rs. */
module StateMap {
  import opened Prelude
  import opened KeyOrder
  import opened Wire
  import Decimal
  import Utf8

  datatype BsmValue =
    | Boolean(flag: bool)
    | Integer(int64: i64)
    | Decimal(numeral: string)
    | Text(text: string)
    | Blob(bytes: Bytes)
    | Null

  type State = map<string, BsmValue>

  datatype StateError = InvalidNumeric | TypeMismatch | InvalidKey

  function TypeTag(v: BsmValue): (tag: byte)
    ensures 1 <= tag <= 6
  {
    match v
    case Boolean(_) => 0x01
    case Integer(_) => 0x02
    case Decimal(_) => 0x03
    case Text(_) => 0x04
    case Blob(_) => 0x05
    case Null => 0x06
  }

  predicate ValidValue(v: BsmValue) {
    v.Decimal? ==> Decimal.Validate(v.numeral).Ok?
  }

  // ---------------------------------------------------------------------------
  // Mutations, as functions of the map.
  // ---------------------------------------------------------------------------

  /** `insert_checked`: decimals must be canonical and a present key keeps its type. */
  function Insert(m: State, key: string, value: BsmValue): Result<State, StateError> {
    if !ValidValue(value) then Err(InvalidNumeric)
    else if key in m && TypeTag(m[key]) != TypeTag(value) then Err(TypeMismatch)
    else Ok(m[key := value])
  }

  function Remove(m: State, key: string): State {
    m - {key}
  }

  // ---------------------------------------------------------------------------
  // Encoding.
  // ---------------------------------------------------------------------------

  function Counted(payload: Bytes): Bytes {
    BigEndian(|payload|, 4) + payload
  }

  function EncodePayload(v: BsmValue): Result<Bytes, WireError> {
    match v
    case Boolean(flag) => Ok([if flag then 1 else 0])
    case Integer(i) => Ok(BigEndian(Unsigned(i), 8))
    case Decimal(numeral) =>
      if Decimal.Validate(numeral).Ok? then Ok(Counted(Utf8.Encode(numeral))) else Err(BadDecimal)
    case Text(text) => Ok(Counted(Utf8.Encode(text)))
    case Blob(bytes) => Ok(Counted(bytes))
    case Null => Ok([])
  }

  datatype Entry = Entry(key: string, value: BsmValue)

  function EncodeValue(v: BsmValue): Result<Bytes, WireError> {
    var payload :- EncodePayload(v);
    Ok([TypeTag(v)] + payload)
  }

  function EncodeKey(key: string): Result<Bytes, WireError> {
    var bytes := Utf8.Encode(key);
    if |bytes| > 0xFFFF then Err(KeyTooLong) else Ok(BigEndian(|bytes|, 2) + bytes)
  }

  function EncodeEntry(e: Entry): Result<Bytes, WireError> {
    var key :- EncodeKey(e.key);
    var value :- EncodeValue(e.value);
    Ok(key + value)
  }

  type EntryEncoder = Entry -> Result<Bytes, WireError>

  type EntryDecoder = (Bytes, Option<string>) -> Result<(Entry, Bytes), WireError>

  function EncodeEntries(encode: EntryEncoder, entries: seq<Entry>): Result<Bytes, WireError> {
    if entries == [] then Ok([])
    else
      var head :- encode(entries[0]);
      var tail :- EncodeEntries(encode, entries[1..]);
      Ok(head + tail)
  }

  function Entries(m: State): (r: seq<Entry>)
    ensures |r| == |m|
  {
    var keys := Sorted(m.Keys);
    seq(|keys|, i requires 0 <= i < |keys| => assert keys[i] in keys; Entry(keys[i], m[keys[i]]))
  }

  /** `to_binary`: the entry count, then the entries in key order. */
  function ToBinary(m: State): Result<Bytes, WireError> {
    var body :- EncodeEntries(EncodeEntry, Entries(m));
    Ok(BigEndian(|m|, 4) + body)
  }

  // ---------------------------------------------------------------------------
  // Strict decoding, on the bytes that remain.
  // ---------------------------------------------------------------------------

  function TakeCounted(b: Bytes): Result<(Bytes, Bytes), WireError> {
    var (n, rest) :- TakeNumber(b, 4);
    Take(rest, n)
  }

  function DecodeText(payload: Bytes): Result<string, WireError> {
    match Utf8.Decode(payload)
    case Some(text) => Ok(text)
    case None => Err(NotUtf8)
  }

  function DecodePayload(tag: byte, b: Bytes): Result<(BsmValue, Bytes), WireError> {
    if tag == 0x01 then
      var (flag, rest) :- TakeNumber(b, 1);
      if flag == 0 then Ok((Boolean(false), rest))
      else if flag == 1 then Ok((Boolean(true), rest))
      else Err(BadBoolean)
    else if tag == 0x02 then
      var (n, rest) :- TakeNumber(b, 8);
      Widths();
      TakeNumberSound(b, 8);
      Ok((Integer(SignedOf(n)), rest))
    else if tag == 0x03 then
      var (payload, rest) :- TakeCounted(b);
      var numeral :- DecodeText(payload);
      if Decimal.Validate(numeral).Ok? then Ok((Decimal(numeral), rest)) else Err(BadDecimal)
    else if tag == 0x04 then
      var (payload, rest) :- TakeCounted(b);
      var text :- DecodeText(payload);
      Ok((Text(text), rest))
    else if tag == 0x05 then
      var (payload, rest) :- TakeCounted(b);
      Ok((Blob(payload), rest))
    else if tag == 0x06 then Ok((Null, b))
    else Err(UnknownTag)
  }

  function DecodeKey(b: Bytes): Result<(string, Bytes), WireError> {
    var (n, rest) :- TakeNumber(b, 2);
    var (payload, after) :- Take(rest, n);
    var key :- DecodeText(payload);
    Ok((key, after))
  }

  function DecodeValue(b: Bytes): Result<(BsmValue, Bytes), WireError> {
    var (tag, rest) :- TakeNumber(b, 1);
    TakeNumberSound(b, 1);
    DecodePayload(tag, rest)
  }

  /** One entry, whose key must come after the previous one. */
  function DecodeEntry(b: Bytes, previous: Option<string>): Result<(Entry, Bytes), WireError> {
    var (key, afterKey) :- DecodeKey(b);
    if previous.Some? && !KeyLess(previous.value, key) then Err(OrderViolation)
    else
      var (value, rest) :- DecodeValue(afterKey);
      Ok((Entry(key, value), rest))
  }

  function DecodeEntries(decode: EntryDecoder, n: nat, b: Bytes, previous: Option<string>)
    : Result<(seq<Entry>, Bytes), WireError>
  {
    if n == 0 then Ok(([], b))
    else
      var (head, afterHead) :- decode(b, previous);
      var (tail, rest) :- DecodeEntries(decode, n - 1, afterHead, Some(head.key));
      Ok(([head] + tail, rest))
  }

  function MapOf(entries: seq<Entry>): State {
    if entries == [] then map[]
    else
      var last := entries[|entries| - 1];
      MapOf(entries[..|entries| - 1])[last.key := last.value]
  }

  function FromBinary(b: Bytes): Result<State, WireError> {
    var (n, afterCount) :- TakeNumber(b, 4);
    var (entries, rest) :- DecodeEntries(DecodeEntry, n, afterCount, None);
    if rest != [] then Err(TrailingBytes) else Ok(MapOf(entries))
  }
}
