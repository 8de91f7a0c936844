/** Namespaces and namespace-prefixed keys: src/key.rs. */
module Key {
  import opened Prelude
  import Utf8

  const RESERVED_SYSTEM_NAMESPACE: string := "trisync-system"

  datatype KeyError =
    | NamespaceLength
    | NamespaceDash
    | NamespaceCharset
    | NamespaceReserved
    | KeyEmpty
    | KeyTooLong
    | KeyNullByte
    | NamespaceLeak
    | KeySuffix

  predicate NamespaceByte(b: byte) {
    'a' as int <= b <= 'z' as int || '0' as int <= b <= '9' as int || b == '-' as int
  }

  predicate IsReserved(namespace: string) {
    namespace == RESERVED_SYSTEM_NAMESPACE
  }

  predicate AllNamespaceBytes(bytes: Bytes) {
    forall b | b in bytes :: NamespaceByte(b)
  }

  /** The checks in order; `refused` says that the name is reserved and reserved names are
      not allowed. */
  function NamespaceVerdict(namespace: string, refused: bool): Result<(), KeyError> {
    var bytes := Utf8.Encode(namespace);
    if !(3 <= |bytes| <= 63) then Err(NamespaceLength)
    else if namespace == [] || namespace[0] == '-' || namespace[|namespace| - 1] == '-' then Err(NamespaceDash)
    else if !AllNamespaceBytes(bytes) then Err(NamespaceCharset)
    else if refused then Err(NamespaceReserved)
    else Ok(())
  }

  function ValidateNamespaceWith(namespace: string, allowReserved: bool): Result<(), KeyError> {
    NamespaceVerdict(namespace, !allowReserved && IsReserved(namespace))
  }

  function ValidateNamespace(namespace: string): Result<(), KeyError> {
    ValidateNamespaceWith(namespace, false)
  }

  function ValidateKey(namespace: string, key: string): Result<(), KeyError> {
    if key == [] then Err(KeyEmpty)
    else if |Utf8.Encode(key)| > 512 then Err(KeyTooLong)
    else if 0 in Utf8.Encode(key) then Err(KeyNullByte)
    else if !(namespace + ":" <= key) then Err(NamespaceLeak)
    else
      var suffix := key[|namespace| + 1..];
      if suffix == [] || suffix[0] == ':' then Err(KeySuffix) else Ok(())
  }

  predicate ValidNamespace(namespace: string) {
    ValidateNamespace(namespace).Ok?
  }

  predicate ValidKey(namespace: string, key: string) {
    ValidateKey(namespace, key).Ok?
  }

  /** A text of ASCII characters other than the null character has no null byte. */
  lemma {:induction false} NullByteIff(s: string)
    ensures 0 in Utf8.Encode(s) <==> (0 as char) in s
  {
    if s != [] {
      var head, tail := Utf8.EncodeChar(s[0]), Utf8.Encode(s[1..]);
      NullByteIff(s[1..]);
      assert 0 in head + tail <==> 0 in head || 0 in tail;
      assert (0 as char) in s <==> s[0] == (0 as char) || (0 as char) in s[1..];
    }
  }

  /** A key is its namespace, a colon and a suffix that is not empty and does not start with
      a colon, of at most 512 bytes, without a null character. */
  lemma {:induction false} ValidKeyIff(namespace: string, key: string)
    ensures ValidKey(namespace, key) <==>
              && |Utf8.Encode(key)| <= 512 && (0 as char) !in key
              && exists suffix: string :: suffix != [] && suffix[0] != ':' && key == namespace + ":" + suffix
  {
    NullByteIff(key);
    if namespace + ":" <= key {
      assert key == namespace + ":" + key[|namespace| + 1..];
    }
    forall suffix: string | suffix != [] && suffix[0] != ':' && key == namespace + ":" + suffix
      ensures namespace + ":" <= key && key[|namespace| + 1..] == suffix
    {
    }
  }

  predicate NamespaceChar(c: char) {
    'a' <= c <= 'z' || '0' <= c <= '9' || c == '-'
  }

  lemma {:induction false} NamespaceBytesIff(namespace: string)
    ensures (forall b :: b in Utf8.Encode(namespace) ==> NamespaceByte(b)) <==>
              forall i :: 0 <= i < |namespace| ==> NamespaceChar(namespace[i])
    ensures (forall i :: 0 <= i < |namespace| ==> NamespaceChar(namespace[i])) ==>
              |Utf8.Encode(namespace)| == |namespace|
  {
    if forall b :: b in Utf8.Encode(namespace) ==> NamespaceByte(b) {
      forall i | 0 <= i < |namespace| ensures NamespaceChar(namespace[i]) {
        NamespaceChars(namespace, i);
      }
    }
    if forall i :: 0 <= i < |namespace| ==> NamespaceChar(namespace[i]) {
      Utf8.EncodeAscii(namespace);
    }
  }

  lemma {:induction false} ChecksPassIff(namespace: string, bytes: Bytes)
    requires bytes == Utf8.Encode(namespace)
    ensures ValidateNamespaceWith(namespace, true).Ok? <==>
              && 3 <= |bytes| <= 63 && AllNamespaceBytes(bytes)
              && namespace != [] && namespace[0] != '-' && namespace[|namespace| - 1] != '-'
  {
  }

  lemma RefusedFails(namespace: string, refused: bool)
    ensures NamespaceVerdict(namespace, refused).Ok? <==> NamespaceVerdict(namespace, false).Ok? && !refused
  {
  }

  lemma ReservedIsExtra(namespace: string)
    ensures ValidNamespace(namespace) <==> ValidateNamespaceWith(namespace, true).Ok? && !IsReserved(namespace)
  {
    RefusedFails(namespace, IsReserved(namespace));
  }

  /** A namespace has 3 to 63 lower case letters, digits and dashes, no dash at either end,
      and is not the reserved one. */
  lemma {:induction false} ValidNamespaceIff(namespace: string)
    ensures ValidNamespace(namespace) <==>
              && 3 <= |namespace| <= 63 && !IsReserved(namespace)
              && (forall i :: 0 <= i < |namespace| ==> NamespaceChar(namespace[i]))
              && namespace[0] != '-' && namespace[|namespace| - 1] != '-'
  {
    var bytes := Utf8.Encode(namespace);
    ChecksPassIff(namespace, bytes);
    ReservedIsExtra(namespace);
    NamespaceBytesIff(namespace);
  }

  lemma {:induction false} NamespaceChars(namespace: string, i: nat)
    requires i < |namespace|
    requires forall b :: b in Utf8.Encode(namespace) ==> NamespaceByte(b)
    ensures namespace[i] as int < 0x80 && NamespaceByte(namespace[i] as int)
  {
    var head, tail := Utf8.EncodeChar(namespace[0]), Utf8.Encode(namespace[1..]);
    assert head[0] == Utf8.Encode(namespace)[0];
    assert head[0] in Utf8.Encode(namespace);
    if i > 0 {
      forall b | b in tail ensures NamespaceByte(b) {
        assert b in head + tail;
      }
      NamespaceChars(namespace[1..], i - 1);
    }
  }

  /** Tenant isolation: no key is valid for two different valid namespaces, because a
      namespace holds no colon and a key starts with its namespace and a colon. */
  lemma NamespacesAreDisjoint(a: string, b: string, key: string)
    requires ValidateNamespaceWith(a, true).Ok? && ValidateNamespaceWith(b, true).Ok?
    requires ValidKey(a, key) && ValidKey(b, key)
    ensures a == b
  {
    assert key[|a|] == ':' && key[|b|] == ':';
    if |a| < |b| {
      assert b[|a|] == key[|a|];
      NamespaceChars(b, |a|);
    } else if |b| < |a| {
      assert a[|b|] == key[|b|];
      NamespaceChars(a, |b|);
    } else {
      assert a == key[..|a|] && b == key[..|b|];
    }
  }
}
