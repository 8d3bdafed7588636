/**
 * First-occurrence deduplication (`Utils.uniqueBoxArray`, `Utils.uniquePointArray`): an element is
 * kept exactly when its index is the one `findIndex` returns for its key.
 */
module Utils {
  import opened Geometry

  /** `Array.prototype.findIndex` for "has key `k`": the first such index, or -1. */
  function FindIndex<T, K(==)>(s: seq<T>, key: T -> K, k: K): (i: int)
    ensures -1 <= i < |s|
    ensures 0 <= i ==> key(s[i]) == k && forall j :: 0 <= j < i ==> key(s[j]) != k
    ensures i == -1 ==> forall j :: 0 <= j < |s| ==> key(s[j]) != k
  {
    if s == [] then -1
    else if key(s[0]) == k then 0
    else
      var i := FindIndex(s[1..], key, k);
      if i == -1 then -1 else i + 1
  }

  /** The kept elements among the first `n`: `filter((e, index) => index === findIndex(...))` on a prefix. */
  function KeepFirsts<T, K(==)>(s: seq<T>, key: T -> K, n: nat): seq<T>
    requires n <= |s|
  {
    if n == 0 then []
    else KeepFirsts(s, key, n - 1) + (if FindIndex(s, key, key(s[n - 1])) == n - 1 then [s[n - 1]] else [])
  }

  /** Order-preserving deduplication by `key`. */
  function UniqueBy<T, K(==)>(s: seq<T>, key: T -> K): seq<T> {
    KeepFirsts(s, key, |s|)
  }

  function PointKey(p: Pos): Pos {
    p
  }

  /** `uniquePointArray`: points are compared by their coordinates. */
  function UniquePointArray(s: seq<Pos>): seq<Pos> {
    UniqueBy(s, PointKey)
  }

  /**
   * `u` is the list of first occurrences of `s`'s keys, in their order in `s`: every element of
   * `u` is the first element of `s` with its key, their positions in `s` strictly increase, and
   * every element of `s` has its first occurrence in `u`.
   */
  ghost predicate FirstOccurrences<T, K>(u: seq<T>, s: seq<T>, key: T -> K) {
    (forall j :: 0 <= j < |u| ==> 0 <= FindIndex(s, key, key(u[j])) && s[FindIndex(s, key, key(u[j]))] == u[j]) &&
    (forall j, j' :: 0 <= j < j' < |u| ==> FindIndex(s, key, key(u[j])) < FindIndex(s, key, key(u[j']))) &&
    (forall i :: 0 <= i < |s| ==> s[FindIndex(s, key, key(s[i]))] in u)
  }

  /** No two elements share a key. */
  ghost predicate DistinctKeys<T, K>(u: seq<T>, key: T -> K) {
    forall j, j' :: 0 <= j < j' < |u| ==> key(u[j]) != key(u[j'])
  }

  lemma KeepFirstsSpec<T, K>(s: seq<T>, key: T -> K, n: nat)
    requires n <= |s|
    ensures var u := KeepFirsts(s, key, n);
      (forall j :: 0 <= j < |u| ==> 0 <= FindIndex(s, key, key(u[j])) < n && s[FindIndex(s, key, key(u[j]))] == u[j]) &&
      (forall j, j' :: 0 <= j < j' < |u| ==> FindIndex(s, key, key(u[j])) < FindIndex(s, key, key(u[j']))) &&
      (forall i :: 0 <= i < n ==> s[FindIndex(s, key, key(s[i]))] in u)
  {
    KeepFirstsFound(s, key, n);
    KeepFirstsOrdered(s, key, n);
    KeepFirstsComplete(s, key, n);
  }

  /** Every kept element is the first occurrence of its key among the first `n`. */
  lemma {:induction false} KeepFirstsFound<T, K>(s: seq<T>, key: T -> K, n: nat)
    requires n <= |s|
    ensures var u := KeepFirsts(s, key, n);
      forall j :: 0 <= j < |u| ==> 0 <= FindIndex(s, key, key(u[j])) < n && s[FindIndex(s, key, key(u[j]))] == u[j]
  {
    if n > 0 {
      KeepFirstsFound(s, key, n - 1);
      KeepFirstsLast(s, key, n);
    }
  }

  /** The elements kept among the first `n`: those kept among the first `n - 1`, then `s[n - 1]` if it comes first. */
  lemma KeepFirstsLast<T, K>(s: seq<T>, key: T -> K, n: nat)
    requires 0 < n <= |s|
    ensures var u0, u := KeepFirsts(s, key, n - 1), KeepFirsts(s, key, n);
      if FindIndex(s, key, key(s[n - 1])) == n - 1 then u == u0 + [s[n - 1]] else u == u0
  {
  }

  /** The kept elements appear in the order of their first occurrences. */
  lemma {:induction false} KeepFirstsOrdered<T, K>(s: seq<T>, key: T -> K, n: nat)
    requires n <= |s|
    ensures var u := KeepFirsts(s, key, n);
      forall j, j' :: 0 <= j < j' < |u| ==> FindIndex(s, key, key(u[j])) < FindIndex(s, key, key(u[j']))
  {
    if n > 0 {
      KeepFirstsOrdered(s, key, n - 1);
      KeepFirstsFound(s, key, n - 1);
      KeepFirstsLast(s, key, n);
    }
  }

  /** The first occurrence of every key among the first `n` is kept. */
  lemma {:induction false} KeepFirstsComplete<T, K>(s: seq<T>, key: T -> K, n: nat)
    requires n <= |s|
    ensures var u := KeepFirsts(s, key, n);
      forall i :: 0 <= i < n ==> s[FindIndex(s, key, key(s[i]))] in u
  {
    if n > 0 {
      KeepFirstsComplete(s, key, n - 1);
      var u0 := KeepFirsts(s, key, n - 1);
      var u := KeepFirsts(s, key, n);
      var f := FindIndex(s, key, key(s[n - 1]));
      forall i | 0 <= i < n
        ensures s[FindIndex(s, key, key(s[i]))] in u
      {
        if i < n - 1 {
          assert s[FindIndex(s, key, key(s[i]))] in u0;
        } else if f < n - 1 {
          assert FindIndex(s, key, key(s[f])) == f;
          assert s[FindIndex(s, key, key(s[f]))] in u0;
        } else {
          assert u == u0 + [s[n - 1]];
        }
      }
    }
  }

  /** The contract of `uniqueBoxArray` / `uniquePointArray`, for every key function. */
  lemma UniqueBySpec<T, K>(s: seq<T>, key: T -> K)
    ensures FirstOccurrences(UniqueBy(s, key), s, key)
    ensures DistinctKeys(UniqueBy(s, key), key)
  {
    KeepFirstsSpec(s, key, |s|);
    UniqueByDistinct(s, key);
  }

  lemma UniqueByDistinct<T, K>(s: seq<T>, key: T -> K)
    ensures DistinctKeys(UniqueBy(s, key), key)
  {
    var u := UniqueBy(s, key);
    KeepFirstsSpec(s, key, |s|);
    forall j, j' | 0 <= j < j' < |u|
      ensures key(u[j]) != key(u[j'])
    {
      assert FindIndex(s, key, key(u[j])) < FindIndex(s, key, key(u[j']));
    }
  }

  /** The output holds only input elements, and some element for every key of the input. */
  lemma UniqueByElements<T, K>(s: seq<T>, key: T -> K)
    ensures forall e :: e in UniqueBy(s, key) ==> e in s
    ensures forall e :: e in s ==> exists e' :: e' in UniqueBy(s, key) && key(e') == key(e)
  {
    var u := UniqueBy(s, key);
    KeepFirstsSpec(s, key, |s|);
    forall e | e in s
      ensures exists e' :: e' in u && key(e') == key(e)
    {
      var i :| 0 <= i < |s| && s[i] == e;
      var f := FindIndex(s, key, key(s[i]));
      assert s[f] in u && key(s[f]) == key(e);
    }
  }

  /** A list whose keys are already distinct is left as it is. */
  lemma {:induction false} KeepFirstsOfDistinct<T, K>(s: seq<T>, key: T -> K, n: nat)
    requires n <= |s|
    requires DistinctKeys(s, key)
    ensures KeepFirsts(s, key, n) == s[..n]
  {
    if n > 0 {
      KeepFirstsOfDistinct(s, key, n - 1);
      var f := FindIndex(s, key, key(s[n - 1]));
      assert f == n - 1;
      assert s[..n] == s[..n - 1] + [s[n - 1]];
    }
  }

  /** Deduplicating twice is the same as deduplicating once. */
  lemma UniqueByIdempotent<T, K>(s: seq<T>, key: T -> K)
    ensures UniqueBy(UniqueBy(s, key), key) == UniqueBy(s, key)
  {
    var u := UniqueBy(s, key);
    UniqueBySpec(s, key);
    KeepFirstsOfDistinct(u, key, |u|);
    assert u[..|u|] == u;
  }

  /** Deduplicated points: a list without repetition holding exactly the input's points. */
  lemma UniquePointArraySpec(s: seq<Pos>)
    ensures var u := UniquePointArray(s);
      (forall j, j' :: 0 <= j < j' < |u| ==> u[j] != u[j']) &&
      (forall p :: p in u <==> p in s) &&
      |u| == |set p | p in s|
  {
    var u := UniquePointArray(s);
    UniqueByDistinct(s, PointKey);
    assert forall j, j' :: 0 <= j < j' < |u| ==> PointKey(u[j]) != PointKey(u[j']);
    UniqueByElements(s, PointKey);
    forall p | p in s
      ensures p in u
    {
      var e' :| e' in u && PointKey(e') == PointKey(p);
    }
    DistinctCardinality(u);
    SameElementsSameSet(u, s);
  }

  lemma SameElementsSameSet(u: seq<Pos>, s: seq<Pos>)
    requires forall p :: p in u <==> p in s
    ensures (set p | p in u) == (set p | p in s)
  {
  }

  lemma {:induction false} DistinctCardinality(u: seq<Pos>)
    requires forall j, j' :: 0 <= j < j' < |u| ==> u[j] != u[j']
    ensures |set p | p in u| == |u|
  {
    if u != [] {
      var t := u[..|u| - 1];
      DistinctCardinality(t);
      assert (set p | p in u) == (set p | p in t) + {u[|u| - 1]};
      assert u[|u| - 1] !in t;
    }
  }
}
