/** Keys in raw UTF-8 byte order, the iteration order of every map in the runtime. */
module KeyOrder {
  import opened Prelude
  import Utf8

  predicate KeyLess(a: string, b: string) {
    Less(Utf8.Encode(a), Utf8.Encode(b))
  }

  predicate Increasing(keys: seq<string>) {
    forall i, j :: 0 <= i < j < |keys| ==> KeyLess(keys[i], keys[j])
  }

  lemma KeyLessIrreflexive(a: string)
    ensures !KeyLess(a, a)
  {
    LessIrreflexive(Utf8.Encode(a));
  }

  lemma KeyLessTransitive(a: string, b: string, c: string)
    requires KeyLess(a, b) && KeyLess(b, c)
    ensures KeyLess(a, c)
  {
    LessTransitive(Utf8.Encode(a), Utf8.Encode(b), Utf8.Encode(c));
  }

  lemma KeyLessTotal(a: string, b: string)
    requires a != b
    ensures KeyLess(a, b) || KeyLess(b, a)
  {
    if Utf8.Encode(a) == Utf8.Encode(b) {
      Utf8.Injective(a, b);
    }
    LessTotal(Utf8.Encode(a), Utf8.Encode(b));
  }

  lemma IncreasingTail(keys: seq<string>)
    requires Increasing(keys) && keys != []
    ensures Increasing(keys[1..]) && keys[0] !in keys[1..]
  {
    if keys[0] in keys[1..] {
      var i :| 0 <= i < |keys| - 1 && keys[1..][i] == keys[0];
      assert KeyLess(keys[0], keys[i + 1]);
      KeyLessIrreflexive(keys[0]);
    }
  }

  lemma SameHead(a: seq<string>, b: seq<string>)
    requires Increasing(a) && Increasing(b) && a != [] && b != []
    requires a[0] in b && b[0] in a
    ensures a[0] == b[0]
  {
    if a[0] != b[0] {
      assert KeyLess(a[0], b[0]);
      assert KeyLess(b[0], a[0]);
      KeyLessTransitive(a[0], b[0], a[0]);
      KeyLessIrreflexive(a[0]);
    }
  }

  /** A set of keys can be listed in increasing order in only one way. */
  lemma {:induction false} IncreasingUnique(a: seq<string>, b: seq<string>)
    requires Increasing(a) && Increasing(b)
    requires forall k :: k in a <==> k in b
    ensures a == b
  {
    assert a != [] ==> a[0] in a;
    assert b != [] ==> b[0] in b;
    if a != [] {
      SameHead(a, b);
      IncreasingTail(a);
      IncreasingTail(b);
      forall k ensures k in a[1..] <==> k in b[1..] {
        assert k in a <==> k == a[0] || k in a[1..];
        assert k in b <==> k == b[0] || k in b[1..];
      }
      IncreasingUnique(a[1..], b[1..]);
      assert a == [a[0]] + a[1..] && b == [b[0]] + b[1..];
    }
  }

  // ---------------------------------------------------------------------------
  // Listing a finite set of keys.
  // ---------------------------------------------------------------------------

  predicate IsLeast(k: string, keys: set<string>) {
    k in keys && forall other :: other in keys && other != k ==> KeyLess(k, other)
  }

  lemma {:induction false} LeastExists(keys: set<string>)
    requires keys != {}
    ensures exists least :: IsLeast(least, keys)
  {
    var k :| k in keys;
    if keys == {k} {
      assert IsLeast(k, keys);
    } else {
      var rest := keys - {k};
      LeastExists(rest);
      var least :| IsLeast(least, rest);
      KeyLessTotal(k, least);
      if KeyLess(k, least) {
        forall other | other in keys && other != k ensures KeyLess(k, other) {
          if other != least {
            KeyLessTransitive(k, least, other);
          }
        }
        assert IsLeast(k, keys);
      } else {
        assert IsLeast(least, keys);
      }
    }
  }

  lemma LeastUnique(keys: set<string>)
    ensures forall a, b :: IsLeast(a, keys) && IsLeast(b, keys) ==> a == b
  {
    forall a, b | IsLeast(a, keys) && IsLeast(b, keys) ensures a == b {
      if a != b {
        KeyLessTransitive(a, b, a);
        KeyLessIrreflexive(a);
      }
    }
  }

  function Least(keys: set<string>): (k: string)
    requires keys != {}
    ensures IsLeast(k, keys)
  {
    LeastExists(keys);
    LeastUnique(keys);
    var k :| k in keys && IsLeast(k, keys);
    k
  }

  /** The keys of a map, in the order a `BTreeMap` yields them. */
  function Sorted(keys: set<string>): (r: seq<string>)
    ensures |r| == |keys|
    ensures forall k :: k in r <==> k in keys
  {
    if keys == {} then []
    else
      var k := Least(keys);
      var rest := Sorted(keys - {k});
      assert forall x :: x in [k] + rest <==> x == k || x in rest;
      [k] + rest
  }

  lemma IncreasingCons(k: string, rest: seq<string>)
    requires Increasing(rest) && forall x :: x in rest ==> KeyLess(k, x)
    ensures Increasing([k] + rest)
  {
    forall i, j | 0 <= i < j < |[k] + rest| ensures KeyLess(([k] + rest)[i], ([k] + rest)[j]) {
      assert ([k] + rest)[j] == rest[j - 1] && rest[j - 1] in rest;
      if i > 0 {
        assert ([k] + rest)[i] == rest[i - 1];
      }
    }
  }

  lemma {:induction false} SortedIncreasing(keys: set<string>)
    ensures Increasing(Sorted(keys))
  {
    if keys != {} {
      var k := Least(keys);
      SortedIncreasing(keys - {k});
      IncreasingCons(k, Sorted(keys - {k}));
    }
  }

  /** Any increasing listing of a set is the sorted one. */
  lemma SortedCharacterised(keys: set<string>, listing: seq<string>)
    requires Increasing(listing) && forall k :: k in listing <==> k in keys
    ensures listing == Sorted(keys)
  {
    SortedIncreasing(keys);
    IncreasingUnique(listing, Sorted(keys));
  }
}
