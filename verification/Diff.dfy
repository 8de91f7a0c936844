/** Differences between two states: `BinaryStateMap::diff` in src/state_map.rs. */
module Diff {
  import opened KeyOrder
  import opened StateMap

  datatype StateDiff =
    | Added(key: string, value: BsmValue)
    | Removed(key: string, value: BsmValue)
    | Changed(key: string, before: BsmValue, after: BsmValue)

  predicate DiffersAt(a: State, b: State, k: string) {
    (k in a || k in b) && !(k in a && k in b && a[k] == b[k])
  }

  function Differing(a: State, b: State): set<string> {
    set k | k in a.Keys + b.Keys && DiffersAt(a, b, k)
  }

  function DiffOf(a: State, b: State, k: string): StateDiff
    requires k in a || k in b
  {
    if k !in b then Removed(k, a[k]) else if k !in a then Added(k, b[k]) else Changed(k, a[k], b[k])
  }

  function Listing(a: State, b: State, keys: seq<string>): (r: seq<StateDiff>)
    requires forall k :: k in keys ==> k in a || k in b
    ensures |r| == |keys| && forall i :: 0 <= i < |r| ==> r[i] == DiffOf(a, b, keys[i])
  {
    seq(|keys|, i requires 0 <= i < |keys| => assert keys[i] in keys; DiffOf(a, b, keys[i]))
  }

  /** One entry for each key at which the states differ, in key order. */
  function Differences(a: State, b: State): seq<StateDiff> {
    Listing(a, b, Sorted(Differing(a, b)))
  }

  // ---------------------------------------------------------------------------
  // What the list says.
  // ---------------------------------------------------------------------------

  function Patched(m: State, d: StateDiff): State {
    match d
    case Added(k, v) => m[k := v]
    case Removed(k, _) => m - {k}
    case Changed(k, _, v) => m[k := v]
  }

  function PatchAll(m: State, diffs: seq<StateDiff>): State
    decreases |diffs|
  {
    if diffs == [] then m else PatchAll(Patched(m, diffs[0]), diffs[1..])
  }

  lemma {:induction false} PatchListing(m: State, a: State, b: State, keys: seq<string>)
    requires forall k :: k in keys ==> k in a || k in b
    ensures var r := PatchAll(m, Listing(a, b, keys));
            forall k ::
              && (k in keys ==> (k in r <==> k in b) && (k in r ==> r[k] == b[k]))
              && (k !in keys ==> (k in r <==> k in m) && (k in r ==> r[k] == m[k]))
    decreases |keys|
  {
    if keys != [] {
      assert keys[0] in keys;
      assert Listing(a, b, keys)[1..] == Listing(a, b, keys[1..]);
      PatchListing(Patched(m, DiffOf(a, b, keys[0])), a, b, keys[1..]);
    }
  }

  /** Applying the difference from `a` to `b` to `a` gives `b`. */
  lemma DiffIsExact(a: State, b: State)
    ensures PatchAll(a, Differences(a, b)) == b
  {
    PatchListing(a, a, b, Sorted(Differing(a, b)));
    var r := PatchAll(a, Differences(a, b));
    forall k ensures (k in r <==> k in b) && (k in r ==> r[k] == b[k]) {
      assert k in Sorted(Differing(a, b)) <==> DiffersAt(a, b, k);
    }
  }

  function KeysOf(diffs: seq<StateDiff>): (r: seq<string>)
    ensures |r| == |diffs| && forall i :: 0 <= i < |r| ==> r[i] == diffs[i].key
  {
    seq(|diffs|, i requires 0 <= i < |diffs| => diffs[i].key)
  }

  /** The keys listed are those at which the states differ, each once, in strictly
      increasing order. */
  lemma DiffKeys(a: State, b: State)
    ensures Increasing(KeysOf(Differences(a, b)))
    ensures forall k :: k in KeysOf(Differences(a, b)) <==> DiffersAt(a, b, k)
  {
    var keys := Sorted(Differing(a, b));
    SortedIncreasing(Differing(a, b));
    forall i | 0 <= i < |keys| ensures KeysOf(Differences(a, b))[i] == keys[i] {
      assert keys[i] in keys;
    }
    assert KeysOf(Differences(a, b)) == keys;
  }

  /** Nothing is listed exactly when the states are equal. */
  lemma DiffEmptyIffEqual(a: State, b: State)
    ensures Differences(a, b) == [] <==> a == b
  {
    if Differences(a, b) == [] {
      DiffIsExact(a, b);
      assert PatchAll(a, []) == a;
    }
    if a == b {
      assert Differing(a, b) == {};
    }
  }

  function Mirror(d: StateDiff): StateDiff {
    match d
    case Added(k, v) => Removed(k, v)
    case Removed(k, v) => Added(k, v)
    case Changed(k, v, w) => Changed(k, w, v)
  }

  /** The difference the other way is the mirror image, entry by entry. */
  lemma DiffMirrors(a: State, b: State)
    ensures |Differences(b, a)| == |Differences(a, b)|
    ensures forall i :: 0 <= i < |Differences(a, b)| ==> Differences(b, a)[i] == Mirror(Differences(a, b)[i])
  {
    assert Differing(a, b) == Differing(b, a);
    var keys := Sorted(Differing(a, b));
    forall i | 0 <= i < |keys| ensures Differences(b, a)[i] == Mirror(Differences(a, b)[i]) {
      assert keys[i] in keys && DiffersAt(a, b, keys[i]);
    }
  }

  // ---------------------------------------------------------------------------
  // The loops.
  // ---------------------------------------------------------------------------

  function InsertDiff(d: StateDiff, sorted: seq<StateDiff>): seq<StateDiff> {
    if sorted == [] || !KeyLess(sorted[0].key, d.key) then [d] + sorted
    else [sorted[0]] + InsertDiff(d, sorted[1..])
  }

  /** A stable sort by key. */
  function SortDiffs(diffs: seq<StateDiff>): seq<StateDiff> {
    if diffs == [] then [] else InsertDiff(diffs[0], SortDiffs(diffs[1..]))
  }

  predicate DistinctKeys(diffs: seq<StateDiff>) {
    forall i, j :: 0 <= i < j < |diffs| ==> diffs[i].key != diffs[j].key
  }

  lemma {:induction false} InsertDiffBelongs(d: StateDiff, sorted: seq<StateDiff>, x: StateDiff)
    ensures x in InsertDiff(d, sorted) <==> x == d || x in sorted
  {
    if sorted != [] && KeyLess(sorted[0].key, d.key) {
      InsertDiffBelongs(d, sorted[1..], x);
      assert x in sorted <==> x == sorted[0] || x in sorted[1..];
    }
  }

  predicate Ascending(diffs: seq<StateDiff>) {
    forall i, j :: 0 <= i < j < |diffs| ==> KeyLess(diffs[i].key, diffs[j].key)
  }

  lemma AscendingCons(d: StateDiff, rest: seq<StateDiff>)
    requires Ascending(rest) && forall x :: x in rest ==> KeyLess(d.key, x.key)
    ensures Ascending([d] + rest)
  {
    forall i, j | 0 <= i < j < |[d] + rest| ensures KeyLess(([d] + rest)[i].key, ([d] + rest)[j].key) {
      assert ([d] + rest)[j] == rest[j - 1] && rest[j - 1] in rest;
      if i > 0 {
        assert ([d] + rest)[i] == rest[i - 1];
      }
    }
  }

  lemma {:induction false} InsertDiffAscending(d: StateDiff, sorted: seq<StateDiff>)
    requires Ascending(sorted) && forall x :: x in sorted ==> x.key != d.key
    ensures Ascending(InsertDiff(d, sorted))
  {
    if sorted == [] {
    } else if !KeyLess(sorted[0].key, d.key) {
      assert sorted[0] in sorted;
      KeyLessTotal(sorted[0].key, d.key);
      forall x | x in sorted ensures KeyLess(d.key, x.key) {
        var i :| 0 <= i < |sorted| && sorted[i] == x;
        if i > 0 {
          KeyLessTransitive(d.key, sorted[0].key, x.key);
        }
      }
      AscendingCons(d, sorted);
    } else {
      InsertDiffAscending(d, sorted[1..]);
      forall x | x in InsertDiff(d, sorted[1..]) ensures KeyLess(sorted[0].key, x.key) {
        InsertDiffBelongs(d, sorted[1..], x);
        if x != d {
          var i :| 0 <= i < |sorted| - 1 && sorted[1..][i] == x;
          assert x == sorted[i + 1];
        }
      }
      AscendingCons(sorted[0], InsertDiff(d, sorted[1..]));
    }
  }

  lemma {:induction false} SortDiffsSorts(diffs: seq<StateDiff>)
    requires DistinctKeys(diffs)
    ensures Ascending(SortDiffs(diffs)) && forall x :: x in SortDiffs(diffs) <==> x in diffs
  {
    if diffs != [] {
      var rest := diffs[1..];
      SortDiffsSorts(rest);
      forall x | x in rest ensures x.key != diffs[0].key {
        var i :| 0 <= i < |rest| && rest[i] == x;
        assert x == diffs[i + 1];
      }
      InsertDiffAscending(diffs[0], SortDiffs(rest));
      forall x ensures x in SortDiffs(diffs) <==> x in diffs {
        InsertDiffBelongs(diffs[0], SortDiffs(rest), x);
        assert x in diffs <==> x == diffs[0] || x in rest;
      }
    }
  }

  /** An ascending list of the right entries is the difference. */
  lemma DiffCharacterised(a: State, b: State, diffs: seq<StateDiff>)
    requires Ascending(diffs)
    requires forall x :: x in diffs <==> DiffersAt(a, b, x.key) && x == DiffOf(a, b, x.key)
    ensures diffs == Differences(a, b)
  {
    var keys := KeysOf(diffs);
    forall k ensures k in keys <==> k in Differing(a, b) {
      if k in keys {
        var i :| 0 <= i < |keys| && keys[i] == k;
        assert diffs[i] in diffs;
      }
      if DiffersAt(a, b, k) {
        assert DiffOf(a, b, k) in diffs;
        var i :| 0 <= i < |diffs| && diffs[i] == DiffOf(a, b, k);
        assert keys[i] == k;
      }
    }
    assert Increasing(keys);
    SortedCharacterised(Differing(a, b), keys);
    forall i | 0 <= i < |diffs| ensures diffs[i] == DiffOf(a, b, keys[i]) {
      assert diffs[i] in diffs;
    }
  }

  /** The entries found so far, among the keys seen. */
  ghost predicate Found(a: State, b: State, seen: seq<string>, diffs: seq<StateDiff>) {
    && DistinctKeys(diffs)
    && forall x :: x in diffs <==> x.key in seen && DiffersAt(a, b, x.key) && x == DiffOf(a, b, x.key)
  }

  lemma FoundOneMore(a: State, b: State, seen: seq<string>, diffs: seq<StateDiff>, k: string)
    requires Found(a, b, seen, diffs) && k !in seen
    ensures DiffersAt(a, b, k) ==> Found(a, b, seen + [k], diffs + [DiffOf(a, b, k)])
    ensures !DiffersAt(a, b, k) ==> Found(a, b, seen + [k], diffs)
  {
    if DiffersAt(a, b, k) {
      var d := DiffOf(a, b, k);
      forall i, j | 0 <= i < j < |diffs + [d]| ensures (diffs + [d])[i].key != (diffs + [d])[j].key {
        assert (diffs + [d])[i] in diffs;
      }
    }
  }

  lemma FoundSkip(a: State, b: State, seen: seq<string>, diffs: seq<StateDiff>, k: string)
    requires Found(a, b, seen, diffs) && k in seen
    ensures Found(a, b, seen + [k], diffs)
  {
  }

  lemma NextKeyIsNew(keys: seq<string>, i: nat)
    requires Increasing(keys) && i < |keys|
    ensures keys[i] !in keys[..i] && keys[..i + 1] == keys[..i] + [keys[i]]
  {
    if keys[i] in keys[..i] {
      var j :| 0 <= j < i && keys[j] == keys[i];
      KeyLessIrreflexive(keys[i]);
    }
  }

  /** Keys of the first state: removed or changed. */
  method RemovedAndChanged(a: State, b: State, keys: seq<string>) returns (result: seq<StateDiff>)
    requires Increasing(keys) && forall k :: k in keys <==> k in a
    ensures Found(a, b, keys, result)
  {
    result := [];
    for i := 0 to |keys|
      invariant Found(a, b, keys[..i], result)
    {
      var key := keys[i];
      NextKeyIsNew(keys, i);
      assert key in a;
      FoundOneMore(a, b, keys[..i], result, key);
      if key !in b {
        result := result + [Removed(key, a[key])];
      } else if b[key] != a[key] {
        result := result + [Changed(key, a[key], b[key])];
      }
    }
    assert keys[..|keys|] == keys;
  }

  /** Keys of the second state that the first does not have. */
  method AppendAdded(a: State, b: State, keysA: seq<string>, keys: seq<string>, before: seq<StateDiff>)
    returns (result: seq<StateDiff>)
    requires forall k :: k in keysA <==> k in a
    requires Increasing(keys) && forall k :: k in keys <==> k in b
    requires Found(a, b, keysA, before)
    ensures Found(a, b, keysA + keys, result)
  {
    result := before;
    assert keysA + keys[..0] == keysA;
    for i := 0 to |keys|
      invariant Found(a, b, keysA + keys[..i], result)
    {
      var key := keys[i];
      NextKeyIsNew(keys, i);
      assert key in b;
      assert keysA + keys[..i + 1] == (keysA + keys[..i]) + [key];
      if key !in a {
        FoundOneMore(a, b, keysA + keys[..i], result, key);
        result := result + [Added(key, b[key])];
      } else {
        FoundSkip(a, b, keysA + keys[..i], result, key);
      }
    }
    assert keys[..|keys|] == keys;
  }

  lemma FoundEverywhere(a: State, b: State, keysA: seq<string>, keysB: seq<string>, diffs: seq<StateDiff>)
    requires Found(a, b, keysA + keysB, diffs)
    requires forall k :: k in keysA <==> k in a
    requires forall k :: k in keysB <==> k in b
    ensures SortDiffs(diffs) == Differences(a, b)
  {
    SortDiffsSorts(diffs);
    forall x ensures x in SortDiffs(diffs) <==> DiffersAt(a, b, x.key) && x == DiffOf(a, b, x.key) {
      assert x.key in keysA + keysB <==> x.key in a || x.key in b;
    }
    DiffCharacterised(a, b, SortDiffs(diffs));
  }

  method ComputeDiff(a: State, b: State) returns (result: seq<StateDiff>)
    ensures result == Differences(a, b)
  {
    var keysA, keysB := Sorted(a.Keys), Sorted(b.Keys);
    SortedIncreasing(a.Keys);
    SortedIncreasing(b.Keys);
    result := RemovedAndChanged(a, b, keysA);
    result := AppendAdded(a, b, keysA, keysB, result);
    FoundEverywhere(a, b, keysA, keysB, result);
    result := SortDiffs(result);
  }
}
