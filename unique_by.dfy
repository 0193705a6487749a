/**
 * The "seen set" de-duplication both link extractors run: walk a list, keep an
 * element when its key has not been seen yet, and remember its key.
 */
module UniqueBy {

  /** The keys of all elements of `xs`. */
  function KeySet<T, K(==)>(xs: seq<T>, key: T -> K): (ks: set<K>)
    ensures forall i :: 0 <= i < |xs| ==> key(xs[i]) in ks
    ensures forall k :: k in ks ==> exists i :: 0 <= i < |xs| && key(xs[i]) == k
  {
    set i | 0 <= i < |xs| :: key(xs[i])
  }

  lemma KeySetAppend<T, K>(xs: seq<T>, x: T, key: T -> K)
    ensures KeySet(xs + [x], key) == KeySet(xs, key) + {key(x)}
  {
    var l := KeySet(xs + [x], key);
    var r := KeySet(xs, key) + {key(x)};
    forall k | k in l ensures k in r {
      var i :| 0 <= i < |xs| + 1 && key((xs + [x])[i]) == k;
      if i < |xs| { assert (xs + [x])[i] == xs[i]; }
    }
    forall k | k in r ensures k in l {
      if k != key(x) {
        var i :| 0 <= i < |xs| && key(xs[i]) == k;
        assert (xs + [x])[i] == xs[i];
      } else {
        assert (xs + [x])[|xs|] == x;
      }
    }
  }

  /** The loop's result: keep an element when no earlier kept element has its key. */
  function Dedup<T, K(==)>(xs: seq<T>, key: T -> K): seq<T>
  {
    if xs == [] then []
    else
      var kept := Dedup(xs[..|xs| - 1], key);
      if key(xs[|xs| - 1]) in KeySet(kept, key) then kept else kept + [xs[|xs| - 1]]
  }

  /** The seen-set loop itself. */
  method KeepFirstByKey<T, K(==)>(xs: seq<T>, key: T -> K) returns (unique: seq<T>)
    ensures unique == Dedup(xs, key)
  {
    var seen: set<K> := {};
    unique := [];
    for i := 0 to |xs|
      invariant unique == Dedup(xs[..i], key)
      invariant seen == KeySet(unique, key)
    {
      assert xs[..i + 1][..i] == xs[..i];
      var k := key(xs[i]);
      if k in seen {
        continue;
      }
      KeySetAppend(unique, xs[i], key);
      seen := seen + {k};
      unique := unique + [xs[i]];
    }
    assert xs[..|xs|] == xs;
  }

  /** Element `i` is the first of `xs` with its key. */
  predicate IsFirst<T, K(==)>(xs: seq<T>, i: int, key: T -> K)
    requires 0 <= i < |xs|
  {
    forall j :: 0 <= j < i ==> key(xs[j]) != key(xs[i])
  }

  /** Reference definition: the first occurrence of every key, in input order. */
  function FirstOccurrences<T, K(==)>(xs: seq<T>, key: T -> K): seq<T>
  {
    if xs == [] then []
    else
      FirstOccurrences(xs[..|xs| - 1], key)
      + (if IsFirst(xs, |xs| - 1, key) then [xs[|xs| - 1]] else [])
  }

  /**
   * The seen-set loop computes exactly the first occurrences, in order,
   * and every key of the input survives.
   */
  lemma {:induction false} DedupIsFirstOccurrences<T, K>(xs: seq<T>, key: T -> K)
    ensures Dedup(xs, key) == FirstOccurrences(xs, key)
    ensures KeySet(Dedup(xs, key), key) == KeySet(xs, key)
  {
    if xs != [] {
      var init, x := xs[..|xs| - 1], xs[|xs| - 1];
      DedupIsFirstOccurrences(init, key);
      var kept := Dedup(init, key);
      assert xs == init + [x];
      KeySetAppend(init, x, key);
      if key(x) in KeySet(kept, key) {
        var j :| 0 <= j < |init| && key(init[j]) == key(x);
        assert key(xs[j]) == key(xs[|xs| - 1]);
        assert !IsFirst(xs, |xs| - 1, key);
      } else {
        KeySetAppend(kept, x, key);
        forall j | 0 <= j < |xs| - 1 ensures key(xs[j]) != key(xs[|xs| - 1]) {
          assert xs[j] == init[j];
        }
      }
    }
  }

  /** No two elements of `xs` share a key. */
  predicate KeysUnique<T, K(==)>(xs: seq<T>, key: T -> K) {
    forall i, j :: 0 <= i < j < |xs| ==> key(xs[i]) != key(xs[j])
  }

  /** No two kept elements share a key. */
  lemma {:induction false} DedupKeysUnique<T, K>(xs: seq<T>, key: T -> K)
    ensures KeysUnique(Dedup(xs, key), key)
  {
    if xs != [] {
      var kept := Dedup(xs[..|xs| - 1], key);
      DedupKeysUnique(xs[..|xs| - 1], key);
      if key(xs[|xs| - 1]) !in KeySet(kept, key) {
        var d := kept + [xs[|xs| - 1]];
        assert Dedup(xs, key) == d;
        forall i, j | 0 <= i < j < |d| ensures key(d[i]) != key(d[j]) {
          assert d[i] == kept[i] && key(kept[i]) in KeySet(kept, key);
          if j < |kept| { assert d[j] == kept[j]; } else { assert d[j] == xs[|xs| - 1]; }
        }
      } else {
        assert Dedup(xs, key) == kept;
      }
    }
  }

  /** Every kept element comes from the input. */
  lemma {:induction false} DedupSubset<T, K>(xs: seq<T>, key: T -> K)
    ensures forall y :: y in Dedup(xs, key) ==> y in xs
  {
    if xs != [] {
      DedupSubset(xs[..|xs| - 1], key);
      forall y | y in xs[..|xs| - 1] ensures y in xs { }
    }
  }
}
