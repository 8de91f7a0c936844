/** Digests. SHA-256 (FIPS 180-4) is an arbitrary function to 32 bytes, handed to every
    operation that hashes; nothing is assumed of it but the length of its result. */
module Digests {
  import opened Prelude
  import Hex

  type Digest = d: Bytes | |d| == 32 witness seq(32, _ => 0)

  type Hash = Bytes -> Digest

  function Repeated(c: char, n: nat): string {
    seq(n, _ => c)
  }

  /** The `prev_digest` of the first event. */
  const ZERO_DIGEST_HEX: string := Repeated('0', 64)

  lemma {:induction false} ZerosInHex(n: nat)
    ensures var text := Hex.Encode(seq(n, _ => 0));
            |text| == 2 * n && forall i :: 0 <= i < |text| ==> text[i] == '0'
  {
    if n > 0 {
      var zeros: Bytes := seq(n, _ => 0);
      ZerosInHex(n - 1);
      assert zeros[1..] == seq(n - 1, _ => 0);
    }
  }

  /** The zero digest is the hexadecimal text of 32 zero bytes. */
  lemma ZeroDigest()
    ensures ZERO_DIGEST_HEX == Hex.Encode(seq(32, _ => 0))
  {
    ZerosInHex(32);
  }

  /** `sha256_hex`. */
  function HexDigest(sha: Hash, data: Bytes): string {
    Hex.Encode(sha(data))
  }

  /** `decode_array_32`. */
  function DecodeDigest(text: string): (r: Option<Digest>) {
    match Hex.Decode(text)
    case Ok(bytes) => if |bytes| == 32 then Some(bytes) else None
    case Err(_) => None
  }

  lemma DecodeHexDigest(d: Digest)
    ensures DecodeDigest(Hex.Encode(d)) == Some(d)
  {
    Hex.DecodeEncode(d);
  }
}
