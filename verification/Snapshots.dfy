/** State snapshots taken at a TICK_SEAL, and their wire format: src/state_map.rs. */
module Snapshots {
  import opened Prelude
  import opened Digests
  import opened Wire
  import opened StateMap
  import Codec
  import Hex
  import Key
  import Utf8

  datatype Snapshot = Snapshot(
    namespace: string,
    tick: u64,
    sealSeq: u64,
    sealTimestampMs: u64,
    rootDigest: Digest,
    sealDigest: Digest,
    state: State)

  function RootDigestHex(sha: Hash, m: State): Result<string, WireError> {
    var bytes :- ToBinary(m);
    Ok(HexDigest(sha, bytes))
  }

  /** All keys of the state belong to the namespace. */
  predicate KeysValid(namespace: string, m: State) {
    forall k :: k in m ==> Key.ValidKey(namespace, k)
  }

  /** The recorded root digest is the digest of the state. */
  function CheckRoot(sha: Hash, m: State, root: Digest): Result<(), WireError> {
    var computed :- RootDigestHex(sha, m);
    if Hex.Decode(computed) == Ok(root) then Ok(()) else Err(RootMismatch)
  }

  function Header(s: Snapshot): Bytes {
    var name := Utf8.Encode(s.namespace);
    BigEndian(|name|, 2) + name + BigEndian(s.tick, 8) + BigEndian(s.sealSeq, 8)
    + BigEndian(s.sealTimestampMs, 8) + s.rootDigest + s.sealDigest
  }

  function SnapshotToBinary(sha: Hash, s: Snapshot): Result<Bytes, WireError> {
    if |Utf8.Encode(s.namespace)| > 0xFFFF then Err(NamespaceTooLarge)
    else if !KeysValid(s.namespace, s.state) then Err(BadKey)
    else
      var _ :- CheckRoot(sha, s.state, s.rootDigest);
      var body :- ToBinary(s.state);
      Ok(Header(s) + body)
  }

  function TakeU64(b: Bytes): (r: Result<(u64, Bytes), WireError>) {
    var (n, rest) :- TakeNumber(b, 8);
    Widths();
    TakeNumberSound(b, 8);
    Ok((n, rest))
  }

  function TakeDigest(b: Bytes): (r: Result<(Digest, Bytes), WireError>) {
    var (d, rest) :- Take(b, 32);
    Ok((d, rest))
  }

  function TakeName(b: Bytes): Result<(string, Bytes), WireError> {
    DecodeKey(b)
  }

  /** The fields before the state, and the bytes that follow them. */
  function TakeHeader(b: Bytes): Result<(Snapshot, Bytes), WireError> {
    var (namespace, b1) :- TakeName(b);
    var (tick, b2) :- TakeU64(b1);
    var (sealSeq, b3) :- TakeU64(b2);
    var (sealTimestampMs, b4) :- TakeU64(b3);
    var (rootDigest, b5) :- TakeDigest(b4);
    var (sealDigest, b6) :- TakeDigest(b5);
    Ok((Snapshot(namespace, tick, sealSeq, sealTimestampMs, rootDigest, sealDigest, map[]), b6))
  }

  function SnapshotFromBinary(sha: Hash, b: Bytes): Result<Snapshot, WireError> {
    var (header, rest) :- TakeHeader(b);
    var state :- FromBinary(rest);
    if !KeysValid(header.namespace, state) then Err(BadKey)
    else
      var _ :- CheckRoot(sha, state, header.rootDigest);
      Ok(header.(state := state))
  }

  // ---------------------------------------------------------------------------

  lemma RootIsDigest(sha: Hash, m: State, root: Digest)
    ensures CheckRoot(sha, m, root).Ok? <==> ToBinary(m).Ok? && sha(ToBinary(m).value) == root
  {
    if ToBinary(m).Ok? {
      Hex.DecodeEncode(sha(ToBinary(m).value));
    }
  }

  lemma U64Exact(n: u64, rest: Bytes)
    ensures TakeU64(BigEndian(n, 8) + rest) == Ok((n, rest))
  {
    Widths();
    TakeNumberExact(n, 8, rest);
  }

  lemma DigestExact(d: Digest, rest: Bytes)
    ensures TakeDigest(d + rest) == Ok((d, rest))
  {
    TakeExact(d, rest);
  }

  lemma U64Sound(b: Bytes)
    requires TakeU64(b).Ok?
    ensures b == BigEndian(TakeU64(b).value.0, 8) + TakeU64(b).value.1
  {
    TakeNumberSound(b, 8);
  }

  lemma Regroup(a: Bytes, b: Bytes, c: Bytes, d: Bytes, e: Bytes, f: Bytes, rest: Bytes)
    ensures (a + b + c + d + e + f) + rest == a + (b + (c + (d + (e + (f + rest)))))
  {
  }

  lemma HeaderExact(s: Snapshot, rest: Bytes)
    requires |Utf8.Encode(s.namespace)| <= 0xFFFF
    ensures TakeHeader(Header(s) + rest) == Ok((s.(state := map[]), rest))
  {
    var name := Utf8.Encode(s.namespace);
    var tick, seq_, ts := BigEndian(s.tick, 8), BigEndian(s.sealSeq, 8), BigEndian(s.sealTimestampMs, 8);
    Regroup(BigEndian(|name|, 2) + name, tick, seq_, ts, s.rootDigest, s.sealDigest, rest);
    Codec.KeyExact(s.namespace, tick + (seq_ + (ts + (s.rootDigest + (s.sealDigest + rest)))));
    U64Exact(s.tick, seq_ + (ts + (s.rootDigest + (s.sealDigest + rest))));
    U64Exact(s.sealSeq, ts + (s.rootDigest + (s.sealDigest + rest)));
    U64Exact(s.sealTimestampMs, s.rootDigest + (s.sealDigest + rest));
    DigestExact(s.rootDigest, s.sealDigest + rest);
    DigestExact(s.sealDigest, rest);
  }

  lemma HeaderSound(b: Bytes)
    requires TakeHeader(b).Ok?
    ensures var (s, rest) := TakeHeader(b).value;
            |Utf8.Encode(s.namespace)| <= 0xFFFF && b == Header(s) + rest
  {
    var (namespace, b1) := TakeName(b).value;
    var (tick, b2) := TakeU64(b1).value;
    var (sealSeq, b3) := TakeU64(b2).value;
    var (ts, b4) := TakeU64(b3).value;
    var (root, b5) := TakeDigest(b4).value;
    var (seal, b6) := TakeDigest(b5).value;
    Codec.KeySound(b);
    U64Sound(b1);
    U64Sound(b2);
    U64Sound(b3);
    var name := Utf8.Encode(namespace);
    Regroup(BigEndian(|name|, 2) + name, BigEndian(tick, 8), BigEndian(sealSeq, 8), BigEndian(ts, 8), root, seal, b6);
  }

  /** A snapshot that encodes decodes to itself, unless a length overflows its field. */
  lemma SnapshotRoundTrip(sha: Hash, s: Snapshot)
    requires SnapshotToBinary(sha, s).Ok? && Codec.Fits(s.state)
    ensures SnapshotFromBinary(sha, SnapshotToBinary(sha, s).value) == Ok(s)
  {
    HeaderExact(s, ToBinary(s.state).value);
    Codec.DecodeEncoded(s.state);
  }

  /** Accepted snapshot bytes are the encoding of what they decode to. */
  lemma SnapshotBytesCanonical(sha: Hash, b: Bytes)
    requires SnapshotFromBinary(sha, b).Ok?
    ensures SnapshotToBinary(sha, SnapshotFromBinary(sha, b).value) == Ok(b)
  {
    var (header, rest) := TakeHeader(b).value;
    var s := SnapshotFromBinary(sha, b).value;
    HeaderSound(b);
    Codec.EncodeDecoded(rest);
    assert Header(s) == Header(header);
  }

  /** What decoding guarantees: the state is encodable, belongs to the namespace, and
      hashes to the recorded root. */
  lemma DecodedSnapshot(sha: Hash, b: Bytes)
    requires SnapshotFromBinary(sha, b).Ok?
    ensures var s := SnapshotFromBinary(sha, b).value;
            Codec.Encodable(s.state) && KeysValid(s.namespace, s.state)
            && sha(ToBinary(s.state).value) == s.rootDigest
  {
    var (header, rest) := TakeHeader(b).value;
    Codec.EncodeDecoded(rest);
    RootIsDigest(sha, FromBinary(rest).value, header.rootDigest);
  }
}
