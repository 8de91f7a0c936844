/** Big-endian integers and the bounds-checked reads of the binary formats. */
module Wire {
  import opened Prelude

  datatype WireError =
    | UnexpectedEof
    | KeyTooLong
    | NotUtf8
    | BadBoolean
    | BadDecimal
    | UnknownTag
    | OrderViolation
    | TrailingBytes
    | BadKey
    | RootMismatch
    | NamespaceTooLarge

  function Pow256(k: nat): (p: nat)
    ensures p > 0
  {
    if k == 0 then 1 else 0x100 * Pow256(k - 1)
  }

  /** The low `k` bytes of `n`, most significant first: a cast to a fixed width drops the rest. */
  function BigEndian(n: nat, k: nat): (b: Bytes)
    ensures |b| == k
  {
    if k == 0 then [] else BigEndian(n / 0x100, k - 1) + [n % 0x100]
  }

  function Number(b: Bytes): nat {
    if b == [] then 0 else 0x100 * Number(b[..|b| - 1]) + b[|b| - 1]
  }

  lemma {:induction false} NumberBound(b: Bytes)
    ensures Number(b) < Pow256(|b|)
  {
    if b != [] {
      NumberBound(b[..|b| - 1]);
    }
  }

  lemma {:induction false} NumberOfBigEndian(n: nat, k: nat)
    requires n < Pow256(k)
    ensures Number(BigEndian(n, k)) == n
  {
    if k > 0 {
      NumberOfBigEndian(n / 0x100, k - 1);
      var b := BigEndian(n, k);
      assert b[..k - 1] == BigEndian(n / 0x100, k - 1);
    }
  }

  lemma {:induction false} BigEndianOfNumber(b: Bytes)
    ensures BigEndian(Number(b), |b|) == b
  {
    if b != [] {
      var high := b[..|b| - 1];
      BigEndianOfNumber(high);
      assert Number(b) / 0x100 == Number(high) && Number(b) % 0x100 == b[|b| - 1];
      assert b == high + [b[|b| - 1]];
    }
  }

  lemma Widths()
    ensures Pow256(2) == 0x1_0000 && Pow256(4) == 0x1_0000_0000
    ensures Pow256(8) == 0x1_0000_0000_0000_0000
  {
    assert Pow256(4) == 0x1_0000_0000;
    assert Pow256(6) == 0x1_0000 * Pow256(4);
  }

  /** Two's complement of a signed 64-bit integer. */
  function Unsigned(i: i64): (u: u64) {
    if i < 0 then i as int + 0x1_0000_0000_0000_0000 else i as int
  }

  function SignedOf(u: u64): (i: i64)
    ensures Unsigned(i) == u
  {
    if u < 0x8000_0000_0000_0000 then u as int else u as int - 0x1_0000_0000_0000_0000
  }

  /** `read_exact` on the bytes that remain: what was read, and what remains after it. */
  function Take(b: Bytes, n: nat): (r: Result<(Bytes, Bytes), WireError>)
    ensures r.Ok? <==> n <= |b|
    ensures r.Ok? ==> |r.value.0| == n && r.value.0 + r.value.1 == b
  {
    if n <= |b| then Ok((b[..n], b[n..])) else Err(UnexpectedEof)
  }

  function TakeNumber(b: Bytes, k: nat): (r: Result<(nat, Bytes), WireError>)
    ensures r.Ok? ==> |r.value.1| + k == |b|
  {
    var (head, rest) :- Take(b, k);
    Ok((Number(head), rest))
  }

  lemma TakeExact(x: Bytes, rest: Bytes)
    ensures Take(x + rest, |x|) == Ok((x, rest))
  {
    assert (x + rest)[..|x|] == x && (x + rest)[|x|..] == rest;
  }

  lemma TakeNumberExact(n: nat, k: nat, rest: Bytes)
    requires n < Pow256(k)
    ensures TakeNumber(BigEndian(n, k) + rest, k) == Ok((n, rest))
  {
    TakeExact(BigEndian(n, k), rest);
    NumberOfBigEndian(n, k);
  }

  lemma TakeNumberSound(b: Bytes, k: nat)
    requires TakeNumber(b, k).Ok?
    ensures var (n, rest) := TakeNumber(b, k).value; n < Pow256(k) && b == BigEndian(n, k) + rest
  {
    var head := b[..k];
    NumberBound(head);
    BigEndianOfNumber(head);
    assert b == b[..k] + b[k..];
  }
}
