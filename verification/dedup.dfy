/** A reference definition of "keep the first element of each key": both
    the per-type grouping of named entities (keyed by the lower-cased text)
    and the shared set of already-reported spans (keyed by the normalised
    span) are shown equal to it. */
module Dedup {

  /** No element before index `i` has the key of `xs[i]`. */
  predicate FirstOfKey<T, K(==)>(xs: seq<T>, key: T -> K, i: int)
    requires 0 <= i < |xs|
  {
    forall m :: 0 <= m < i ==> key(xs[m]) != key(xs[i])
  }

  /** Some element of `r` has key `k`. */
  predicate HasKey<T, K(==)>(r: seq<T>, key: T -> K, k: K)
  {
    exists j :: 0 <= j < |r| && key(r[j]) == k
  }

  /** The elements of `xs[..n]`, in order, that are the first of their key
      and whose key is not already in `taken`. */
  ghost function FirstsBy<T, K>(xs: seq<T>, key: T -> K, taken: set<K>, n: nat): seq<T>
    requires n <= |xs|
  {
    if n == 0 then []
    else
      FirstsBy(xs, key, taken, n - 1)
      + (if key(xs[n - 1]) !in taken && FirstOfKey(xs, key, n - 1) then [xs[n - 1]] else [])
  }

  /** Every element the reference keeps is the first of its key in
      `xs[..n]`, and its key is not in `taken`. */
  lemma {:induction false} FirstsByKept<T, K>(xs: seq<T>, key: T -> K, taken: set<K>, n: nat)
    requires n <= |xs|
    ensures forall j :: 0 <= j < |FirstsBy(xs, key, taken, n)| ==>
      && key(FirstsBy(xs, key, taken, n)[j]) !in taken
      && exists m :: 0 <= m < n && xs[m] == FirstsBy(xs, key, taken, n)[j] && FirstOfKey(xs, key, m)
  {
    if n > 0 {
      FirstsByKept(xs, key, taken, n - 1);
      var p := FirstsBy(xs, key, taken, n - 1);
      var r := FirstsBy(xs, key, taken, n);
      forall j | 0 <= j < |r|
        ensures key(r[j]) !in taken && exists m :: 0 <= m < n && xs[m] == r[j] && FirstOfKey(xs, key, m)
      {
        if j < |p| {
          assert r[j] == p[j];
          var m :| 0 <= m < n - 1 && xs[m] == p[j] && FirstOfKey(xs, key, m);
        } else {
          assert r[j] == xs[n - 1];
          assert FirstOfKey(xs, key, n - 1);
        }
      }
    }
  }

  /** No two elements the reference keeps share a key. */
  lemma {:induction false} FirstsByDistinct<T, K>(xs: seq<T>, key: T -> K, taken: set<K>, n: nat)
    requires n <= |xs|
    ensures forall i, j :: 0 <= i < j < |FirstsBy(xs, key, taken, n)| ==>
      key(FirstsBy(xs, key, taken, n)[i]) != key(FirstsBy(xs, key, taken, n)[j])
  {
    if n > 0 {
      FirstsByDistinct(xs, key, taken, n - 1);
      FirstsByKept(xs, key, taken, n - 1);
      var p := FirstsBy(xs, key, taken, n - 1);
      var x := xs[n - 1];
      if key(x) !in taken && FirstOfKey(xs, key, n - 1) {
        var r := p + [x];
        assert FirstsBy(xs, key, taken, n) == r;
        forall j | 0 <= j < |p|
          ensures key(p[j]) != key(x)
        {
          var m :| 0 <= m < n - 1 && xs[m] == p[j] && FirstOfKey(xs, key, m);
          assert key(xs[m]) != key(xs[n - 1]);
        }
        forall i, j | 0 <= i < j < |r|
          ensures key(r[i]) != key(r[j])
        {
          if j < |p| {
            assert r[i] == p[i] && r[j] == p[j];
          } else {
            assert r[i] == p[i] && r[j] == x;
          }
        }
      } else {
        assert FirstsBy(xs, key, taken, n) == p;
      }
    }
  }

  /** Every key of `xs[..n]` outside `taken` is the key of a kept element. */
  lemma {:induction false} FirstsByCovers<T, K>(xs: seq<T>, key: T -> K, taken: set<K>, n: nat)
    requires n <= |xs|
    ensures forall m :: 0 <= m < n && key(xs[m]) !in taken ==> HasKey(FirstsBy(xs, key, taken, n), key, key(xs[m]))
  {
    if n > 0 {
      FirstsByCovers(xs, key, taken, n - 1);
      var p := FirstsBy(xs, key, taken, n - 1);
      var r := FirstsBy(xs, key, taken, n);
      var x := xs[n - 1];
      assert r == p + (if key(x) !in taken && FirstOfKey(xs, key, n - 1) then [x] else []);
      forall m | 0 <= m < n && key(xs[m]) !in taken
        ensures HasKey(r, key, key(xs[m]))
      {
        if m < n - 1 {
          var j :| 0 <= j < |p| && key(p[j]) == key(xs[m]);
          assert r[j] == p[j];
        } else if FirstOfKey(xs, key, n - 1) {
          assert r[|p|] == x;
        } else {
          assert !FirstOfKey(xs, key, n - 1);
          var m' :| 0 <= m' < n - 1 && key(xs[m']) == key(x);
          var j :| 0 <= j < |p| && key(p[j]) == key(xs[m']);
          assert r[j] == p[j];
        }
      }
    }
  }

  /** The reference over `xs[..n]` only looks at `xs[..n]`. */
  lemma {:induction false} FirstsByPrefix<T, K>(xs: seq<T>, key: T -> K, taken: set<K>, m: nat, n: nat)
    requires n <= m <= |xs|
    ensures FirstsBy(xs[..m], key, taken, n) == FirstsBy(xs, key, taken, n)
  {
    if n > 0 {
      FirstsByPrefix(xs, key, taken, m, n - 1);
      assert FirstOfKey(xs[..m], key, n - 1) == FirstOfKey(xs, key, n - 1);
    }
  }
}
