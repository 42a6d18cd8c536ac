/** Sequence helpers for the list idioms of the booking manager: filtering list
    comprehensions, `next(...)` searches and keys that must not repeat. */
module Seqs {
  import opened Wrappers

  /** The elements of `s` that satisfy `p`, in their order in `s`
      (a list comprehension `[x for x in s if p(x)]`). */
  function Filter<T(!new)>(s: seq<T>, p: T -> bool): (r: seq<T>)
    ensures |r| <= |s|
    ensures forall x :: x in r <==> x in s && p(x)
  {
    if s == [] then []
    else (if p(s[0]) then [s[0]] else []) + Filter(s[1..], p)
  }

  /** Filtering distributes over concatenation, so whatever is kept keeps its relative order. */
  lemma {:induction false} FilterAppend<T(!new)>(a: seq<T>, b: seq<T>, p: T -> bool)
    ensures Filter(a + b, p) == Filter(a, p) + Filter(b, p)
  {
    if a == [] {
      assert a + b == b;
    } else {
      assert (a + b)[0] == a[0];
      assert (a + b)[1..] == a[1..] + b;
      FilterAppend(a[1..], b, p);
    }
  }

  /** A filter that rejects nothing returns its input unchanged. */
  lemma {:induction false} FilterAll<T(!new)>(s: seq<T>, p: T -> bool)
    requires forall x :: x in s ==> p(x)
    ensures Filter(s, p) == s
  {
    if s != [] {
      assert forall x :: x in s[1..] ==> x in s;
      FilterAll(s[1..], p);
    }
  }

  /** A filter drops something exactly when some element fails the condition
      (the `len(kept) < original_count` tests of the source). */
  lemma {:induction false} FilterShorter<T(!new)>(s: seq<T>, p: T -> bool)
    ensures |Filter(s, p)| < |s| <==> exists x :: x in s && !p(x)
  {
    if s != [] {
      FilterShorter(s[1..], p);
      assert forall x :: x in s <==> x == s[0] || x in s[1..];
    }
  }

  /** The index of the first element of `s` satisfying `p` (a `next(...)` over a generator). */
  function FindFirst<T>(s: seq<T>, p: T -> bool): (r: Option<nat>)
    ensures r.Some? ==> r.value < |s| && p(s[r.value]) && forall j :: 0 <= j < r.value ==> !p(s[j])
    ensures r.None? ==> forall j :: 0 <= j < |s| ==> !p(s[j])
  {
    if s == [] then None
    else if p(s[0]) then Some(0)
    else
      var k := FindFirst(s[1..], p);
      if k.None? then None else Some(k.value + 1)
  }

  /** No two elements of `s` share a key. */
  predicate Distinct<T, K(==)>(s: seq<T>, key: T -> K) {
    forall i, j :: 0 <= i < j < |s| ==> key(s[i]) != key(s[j])
  }

  /** Adding an element to a distinct sequence at the front keeps it distinct when its key is new. */
  lemma DistinctCons<T(!new), K>(x: T, t: seq<T>, key: T -> K)
    requires Distinct(t, key)
    requires forall y :: y in t ==> key(y) != key(x)
    ensures Distinct([x] + t, key)
  {
    var s := [x] + t;
    forall i, j | 0 <= i < j < |s| ensures key(s[i]) != key(s[j]) {
      assert s[j] == t[j - 1];
      if i > 0 {
        assert s[i] == t[i - 1];
      } else {
        assert s[j] in t;
      }
    }
  }

  /** Appending an element whose key is new keeps a sequence distinct. */
  lemma DistinctSnoc<T(!new), K>(s: seq<T>, x: T, key: T -> K)
    requires Distinct(s, key)
    requires forall y :: y in s ==> key(y) != key(x)
    ensures Distinct(s + [x], key)
  {
    var t := s + [x];
    forall i, j | 0 <= i < j < |t| ensures key(t[i]) != key(t[j]) {
      if j == |s| {
        assert t[i] in s;
      } else {
        assert t[i] == s[i] && t[j] == s[j];
      }
    }
  }

  /** Filtering keeps a sequence distinct. */
  lemma {:induction false} FilterDistinct<T(!new), K>(s: seq<T>, p: T -> bool, key: T -> K)
    requires Distinct(s, key)
    ensures Distinct(Filter(s, p), key)
  {
    if s != [] {
      var t := s[1..];
      assert Distinct(t, key) by {
        forall i, j | 0 <= i < j < |t| ensures key(t[i]) != key(t[j]) {
          assert t[i] == s[i + 1] && t[j] == s[j + 1];
        }
      }
      FilterDistinct(t, p, key);
      if p(s[0]) {
        forall y | y in Filter(t, p) ensures key(y) != key(s[0]) {
          var k :| 0 <= k < |t| && t[k] == y;
          assert s[k + 1] == y;
        }
        DistinctCons(s[0], Filter(t, p), key);
      }
    }
  }

  /** Replacing elements by ones with the same keys keeps a sequence distinct. */
  lemma SameKeysDistinct<T, K>(s: seq<T>, t: seq<T>, key: T -> K)
    requires |s| == |t| && forall i :: 0 <= i < |s| ==> key(s[i]) == key(t[i])
    requires Distinct(s, key)
    ensures Distinct(t, key)
  {
  }
}
