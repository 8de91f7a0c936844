/** Shared vocabulary: options, results, machine integers and the byte order
    that every ordered structure of the runtime uses. */
module Prelude {

  datatype Option<+T> = None | Some(value: T)

  datatype Result<+T, +E> = Ok(value: T) | Err(error: E) {
    predicate IsFailure() {
      Err?
    }

    function PropagateFailure<U>(): Result<U, E>
      requires Err?
    {
      Err(error)
    }

    function Extract(): T
      requires Ok?
    {
      value
    }
  }

  type byte = x: int | 0 <= x < 0x100
  type u32 = x: int | 0 <= x < 0x1_0000_0000
  type u64 = x: int | 0 <= x < 0x1_0000_0000_0000_0000
  type i64 = x: int | -0x8000_0000_0000_0000 <= x < 0x8000_0000_0000_0000

  type Bytes = seq<byte>

  /** Lexicographic byte order: a proper prefix sorts first. */
  predicate Less(a: Bytes, b: Bytes) {
    b != [] && (a == [] || a[0] < b[0] || (a[0] == b[0] && Less(a[1..], b[1..])))
  }

  lemma {:induction false} LessIrreflexive(a: Bytes)
    ensures !Less(a, a)
  {
    if a != [] {
      LessIrreflexive(a[1..]);
    }
  }

  lemma {:induction false} LessTransitive(a: Bytes, b: Bytes, c: Bytes)
    requires Less(a, b) && Less(b, c)
    ensures Less(a, c)
  {
    if a != [] && a[0] == b[0] == c[0] {
      LessTransitive(a[1..], b[1..], c[1..]);
    }
  }

  lemma {:induction false} LessTotal(a: Bytes, b: Bytes)
    requires a != b
    ensures Less(a, b) || Less(b, a)
  {
    if a != [] && b != [] && a[0] == b[0] {
      assert a == [a[0]] + a[1..] && b == [b[0]] + b[1..];
      LessTotal(a[1..], b[1..]);
    }
  }

  /** `a` and `b` agree up to `i`, where `a` has ended or has the smaller byte. */
  predicate Decides(a: Bytes, b: Bytes, i: nat) {
    i <= |a| && i < |b| && a[..i] == b[..i] && (i == |a| || a[i] < b[i])
  }

  lemma DecidesLater(a: Bytes, b: Bytes, i: nat)
    requires a != [] && b != [] && a[0] == b[0]
    ensures Decides(a[1..], b[1..], i) <==> Decides(a, b, i + 1)
  {
    if i < |a| && i < |b| {
      assert a[..i + 1] == [a[0]] + a[1..][..i] && b[..i + 1] == [b[0]] + b[1..][..i];
      assert a[1..][..i] == a[..i + 1][1..] && b[1..][..i] == b[..i + 1][1..];
    }
  }

  lemma DecidesAfterHead(a: Bytes, b: Bytes, i: nat)
    requires a != [] && b != [] && 0 < i
    ensures Decides(a, b, i) ==> a[0] == b[0]
  {
    if i <= |a| && i <= |b| {
      assert a[..i][0] == a[0] && b[..i][0] == b[0];
    }
  }

  /** What the order is: at the first place where they differ, the smaller one has ended or
      has the smaller byte. */
  lemma {:induction false} LessIff(a: Bytes, b: Bytes)
    ensures Less(a, b) <==> exists i: nat :: Decides(a, b, i)
  {
    if a != [] && b != [] {
      forall i: nat | 0 < i ensures Decides(a, b, i) ==> a[0] == b[0] {
        DecidesAfterHead(a, b, i);
      }
      if a[0] == b[0] {
        LessIff(a[1..], b[1..]);
        forall i: nat ensures Decides(a[1..], b[1..], i) <==> Decides(a, b, i + 1) {
          DecidesLater(a, b, i);
        }
        assert Less(a, b) ==> exists i: nat :: Decides(a[1..], b[1..], i) && Decides(a, b, i + 1);
        forall i: nat | Decides(a, b, i) ensures Decides(a[1..], b[1..], i - 1) {
        }
      } else {
        assert Decides(a, b, 0) <==> a[0] < b[0];
      }
    } else {
      assert b != [] ==> Decides(a, b, 0);
    }
  }
}
