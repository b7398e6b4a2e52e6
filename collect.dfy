/**
 * The two stream steps `initProcessedFilesFromCsv` is built from, over a
 * sequential stream: the stateful filter `distinctByKey` (FileScanner.java
 * lines 76-79) and `Collectors.toMap`, which throws on a repeated key.
 */
module Collect {
  import opened Wrappers

  /** The keys of all elements. */
  function KeySet<T, K>(xs: seq<T>, key: T -> K): set<K> {
    set i | 0 <= i < |xs| :: key(xs[i])
  }

  /** No two elements share a key. */
  predicate UniqueKeys<T, K(==)>(xs: seq<T>, key: T -> K) {
    forall i, j :: 0 <= i < j < |xs| ==> key(xs[i]) != key(xs[j])
  }

  /** Element `i` is the first one with its key. */
  predicate FirstWithKey<T, K(==)>(xs: seq<T>, key: T -> K, i: int)
    requires 0 <= i < |xs|
  {
    forall k :: 0 <= k < i ==> key(xs[k]) != key(xs[i])
  }

  /**
   * `Collectors.toMap(key, val)` folding the stream left to right;
   * `None` is the `IllegalStateException` on a duplicate key.
   */
  function ToMap<T, K(==), V>(xs: seq<T>, key: T -> K, val: T -> V): Option<map<K, V>>
  {
    if xs == [] then Some(map[])
    else
      match ToMap(xs[..|xs| - 1], key, val)
      case None => None
      case Some(m) =>
        var last := xs[|xs| - 1];
        if key(last) in m then None else Some(m[key(last) := val(last)])
  }

  /**
   * `filter(distinctByKey(key))`: an element passes when `putIfAbsent` finds
   * its key absent, that is, when no earlier element had that key.
   */
  function DistinctByKey<T, K(==)>(xs: seq<T>, key: T -> K): seq<T>
  {
    if xs == [] then []
    else
      var init := xs[..|xs| - 1];
      if key(xs[|xs| - 1]) in KeySet(init, key) then DistinctByKey(init, key)
      else DistinctByKey(init, key) + [xs[|xs| - 1]]
  }

  lemma KeySetSnoc<T, K>(xs: seq<T>, key: T -> K)
    requires xs != []
    ensures KeySet(xs, key) == KeySet(xs[..|xs| - 1], key) + {key(xs[|xs| - 1])}
  {
    var init := xs[..|xs| - 1];
    forall k | k in KeySet(xs, key) ensures k in KeySet(init, key) + {key(xs[|xs| - 1])} {
      var i :| 0 <= i < |xs| && key(xs[i]) == k;
      if i < |xs| - 1 { assert key(init[i]) == k; }
    }
    forall k | k in KeySet(init, key) ensures k in KeySet(xs, key) {
      var i :| 0 <= i < |init| && key(init[i]) == k;
      assert key(xs[i]) == k;
    }
  }

  /**
   * `toMap` succeeds exactly when the keys are distinct; then it maps the key
   * of every element to that element's value, and holds no other key.
   */
  lemma {:induction false} ToMapSpec<T, K, V>(xs: seq<T>, key: T -> K, val: T -> V)
    ensures ToMap(xs, key, val).Some? <==> UniqueKeys(xs, key)
    ensures ToMap(xs, key, val).Some? ==>
      && ToMap(xs, key, val).value.Keys == KeySet(xs, key)
      && forall i :: 0 <= i < |xs| ==> ToMap(xs, key, val).value[key(xs[i])] == val(xs[i])
  {
    if xs != [] {
      var init, last := xs[..|xs| - 1], xs[|xs| - 1];
      ToMapSpec(init, key, val);
      KeySetSnoc(xs, key);
      if UniqueKeys(xs, key) {
        assert UniqueKeys(init, key) by {
          forall i, j | 0 <= i < j < |init| ensures key(init[i]) != key(init[j]) {
            assert init[i] == xs[i] && init[j] == xs[j];
          }
        }
        forall i | 0 <= i < |xs|
          ensures ToMap(xs, key, val).value[key(xs[i])] == val(xs[i])
        {
          if i < |xs| - 1 {
            assert xs[i] == init[i];
            assert key(xs[i]) != key(last);
          }
        }
      } else {
        var i, j :| 0 <= i < j < |xs| && key(xs[i]) == key(xs[j]);
        if j < |xs| - 1 {
          assert init[i] == xs[i] && init[j] == xs[j];
        } else if ToMap(init, key, val).Some? {
          assert key(init[i]) in KeySet(init, key);
        }
      }
    }
  }

  /**
   * The filter keeps one element per key: the kept elements have distinct keys,
   * every key of the stream survives, every kept element is in the stream, and
   * the first element with each key is kept.
   */
  lemma {:induction false} DistinctByKeySpec<T, K>(xs: seq<T>, key: T -> K)
    ensures UniqueKeys(DistinctByKey(xs, key), key)
    ensures KeySet(DistinctByKey(xs, key), key) == KeySet(xs, key)
    ensures forall j :: 0 <= j < |DistinctByKey(xs, key)| ==> DistinctByKey(xs, key)[j] in xs
    ensures forall i :: 0 <= i < |xs| && FirstWithKey(xs, key, i) ==> xs[i] in DistinctByKey(xs, key)
  {
    if xs != [] {
      var init, last := xs[..|xs| - 1], xs[|xs| - 1];
      DistinctByKeySpec(init, key);
      KeySetSnoc(xs, key);
      var d := DistinctByKey(init, key);
      if key(last) !in KeySet(init, key) {
        var d' := d + [last];
        assert d'[..|d'| - 1] == d;
        KeySetSnoc(d', key);
        forall i | 0 <= i < |xs| && FirstWithKey(xs, key, i) ensures xs[i] in d' {
          if i < |xs| - 1 {
            assert xs[i] == init[i];
            assert FirstWithKey(init, key, i);
          }
        }
        forall i, j | 0 <= i < j < |d'| ensures key(d'[i]) != key(d'[j]) {
          if j < |d| {
            assert d'[i] == d[i] && d'[j] == d[j];
          } else {
            assert d'[i] == d[i];
            assert key(d[i]) in KeySet(d, key);
          }
        }
      } else {
        forall i | 0 <= i < |xs| && FirstWithKey(xs, key, i) ensures xs[i] in d {
          if i < |xs| - 1 {
            assert xs[i] == init[i];
            assert FirstWithKey(init, key, i);
          }
        }
      }
    }
  }
}
