/** Stable sorting by a numeric key, the behaviour of `Array.prototype.sort`
    (stable since ECMAScript 2019) with a comparator `(a, b) => key(a) - key(b)`
    that is consistent. */
module Sorting {

  /** Keys never decrease from left to right. */
  ghost predicate SortedBy<T>(xs: seq<T>, key: T -> real) {
    forall i, j :: 0 <= i < j < |xs| ==> key(xs[i]) <= key(xs[j])
  }

  /** The subsequence of elements whose key is `k`, in their order. Two
      arrangements agree on every `WithKey` exactly when equal-keyed elements
      keep their relative order. */
  function WithKey<T>(xs: seq<T>, key: T -> real, k: real): seq<T> {
    if |xs| == 0 then []
    else (if key(xs[0]) == k then [xs[0]] else []) + WithKey(xs[1..], key, k)
  }

  /** `x` placed before the first element whose key is at least its own. */
  function Insert<T>(x: T, s: seq<T>, key: T -> real): seq<T> {
    if |s| == 0 || key(x) <= key(s[0]) then [x] + s
    else [s[0]] + Insert(x, s[1..], key)
  }

  /** Stable insertion sort. */
  function SortBy<T>(xs: seq<T>, key: T -> real): (r: seq<T>)
    ensures multiset(r) == multiset(xs)
    ensures |r| == |xs|
    ensures SortedBy(r, key)
    ensures forall k :: WithKey(r, key, k) == WithKey(xs, key, k)
  {
    if |xs| == 0 then []
    else
      var rest := SortBy(xs[1..], key);
      InsertFacts(xs[0], rest, key);
      SortStep(xs, rest, key);
      Insert(xs[0], rest, key)
  }

  lemma {:induction false} InsertFacts<T>(x: T, s: seq<T>, key: T -> real)
    requires SortedBy(s, key)
    ensures multiset(Insert(x, s, key)) == multiset(s) + multiset{x}
    ensures |Insert(x, s, key)| == |s| + 1
    ensures SortedBy(Insert(x, s, key), key)
  {
    InsertMultiset(x, s, key);
    InsertSorted(x, s, key);
  }

  lemma {:induction false} InsertMultiset<T>(x: T, s: seq<T>, key: T -> real)
    ensures multiset(Insert(x, s, key)) == multiset(s) + multiset{x}
    ensures |Insert(x, s, key)| == |s| + 1
    ensures forall y :: y in Insert(x, s, key) <==> y == x || y in s
  {
    if |s| > 0 && key(x) > key(s[0]) {
      InsertMultiset(x, s[1..], key);
      assert s == [s[0]] + s[1..];
    }
  }

  lemma {:induction false} InsertSorted<T>(x: T, s: seq<T>, key: T -> real)
    requires SortedBy(s, key)
    ensures SortedBy(Insert(x, s, key), key)
  {
    if |s| > 0 && key(x) > key(s[0]) {
      var t := Insert(x, s[1..], key);
      InsertSorted(x, s[1..], key);
      InsertMultiset(x, s[1..], key);
      assert forall i :: 0 <= i < |t| ==> key(s[0]) <= key(t[i]) by {
        forall i | 0 <= i < |t| ensures key(s[0]) <= key(t[i]) {
          InsertMember(x, s[1..], key, t[i]);
        }
      }
    }
  }

  lemma InsertMember<T>(x: T, s: seq<T>, key: T -> real, z: T)
    requires z in Insert(x, s, key)
    ensures z == x || z in s
  {
    InsertMultiset(x, s, key);
  }

  /** Inserting the head into the sorted tail keeps the elements and the
      per-key order of the whole sequence. */
  lemma SortStep<T>(xs: seq<T>, rest: seq<T>, key: T -> real)
    requires |xs| > 0 && multiset(rest) == multiset(xs[1..])
    requires forall k :: WithKey(rest, key, k) == WithKey(xs[1..], key, k)
    ensures multiset(Insert(xs[0], rest, key)) == multiset(xs)
    ensures forall k :: WithKey(Insert(xs[0], rest, key), key, k) == WithKey(xs, key, k)
  {
    assert xs == [xs[0]] + xs[1..];
    InsertMultiset(xs[0], rest, key);
    forall k ensures WithKey(Insert(xs[0], rest, key), key, k) == WithKey(xs, key, k) {
      InsertWithKey(xs[0], rest, key, k);
    }
  }

  /** Inserting `x` adds it in front of the elements sharing its key. */
  lemma {:induction false} InsertWithKey<T>(x: T, s: seq<T>, key: T -> real, k: real)
    ensures WithKey(Insert(x, s, key), key, k)
         == (if key(x) == k then [x] else []) + WithKey(s, key, k)
  {
    if |s| == 0 || key(x) <= key(s[0]) {
      assert ([x] + s)[1..] == s;
    } else {
      var t := Insert(x, s[1..], key);
      InsertWithKey(x, s[1..], key, k);
      assert ([s[0]] + t)[1..] == t;
      var head := if key(s[0]) == k then [s[0]] else [];
      var mine := if key(x) == k then [x] else [];
      assert WithKey(s, key, k) == head + WithKey(s[1..], key, k);
      assert WithKey([s[0]] + t, key, k) == head + (mine + WithKey(s[1..], key, k));
      assert head == [] || mine == [];
    }
  }

  /** An element is in `WithKey(xs, key, k)` exactly when it is in `xs` with
      key `k`. */
  lemma {:induction false} WithKeyMember<T>(xs: seq<T>, key: T -> real, k: real, x: T)
    ensures x in WithKey(xs, key, k) <==> x in xs && key(x) == k
  {
    if |xs| > 0 {
      WithKeyMember(xs[1..], key, k, x);
      assert xs == [xs[0]] + xs[1..];
    }
  }

  /** Equal per-key subsequences of two sequences whose first elements share
      a key stay equal without those first elements, which are equal. */
  lemma {:induction false} WithKeyTail<T>(r: seq<T>, s: seq<T>, key: T -> real, k: real)
    requires |r| > 0 && |s| > 0 && key(r[0]) == key(s[0])
    requires WithKey(r, key, k) == WithKey(s, key, k)
    ensures WithKey(r[1..], key, k) == WithKey(s[1..], key, k)
    ensures k == key(r[0]) ==> r[0] == s[0]
  {
    var a := WithKey(r[1..], key, k);
    var b := WithKey(s[1..], key, k);
    assert WithKey(r, key, k) == (if key(r[0]) == k then [r[0]] else []) + a;
    assert WithKey(s, key, k) == (if key(s[0]) == k then [s[0]] else []) + b;
    if k != key(r[0]) {
      assert [] + a == a && [] + b == b;
    } else {
      assert ([r[0]] + a)[0] == r[0] && ([s[0]] + b)[0] == s[0];
      assert ([r[0]] + a)[1..] == a && ([s[0]] + b)[1..] == b;
    }
  }

  /** A sorted arrangement is determined by its per-key subsequences: the
      stable sort of an already sorted sequence is that sequence. */
  lemma {:induction false} SortedUnique<T>(r: seq<T>, s: seq<T>, key: T -> real)
    requires SortedBy(r, key) && SortedBy(s, key)
    requires forall k :: WithKey(r, key, k) == WithKey(s, key, k)
    ensures r == s
    decreases |r| + |s|
  {
    if |r| == 0 || |s| == 0 {
      if |r| > 0 {
        WithKeyMember(r, key, key(r[0]), r[0]);
        WithKeyMember(s, key, key(r[0]), r[0]);
      } else if |s| > 0 {
        WithKeyMember(s, key, key(s[0]), s[0]);
        WithKeyMember(r, key, key(s[0]), s[0]);
      }
    } else {
      var k0 := key(r[0]);
      var k1 := key(s[0]);
      WithKeyMember(r, key, k0, r[0]);
      WithKeyMember(s, key, k0, r[0]);
      WithKeyMember(s, key, k1, s[0]);
      WithKeyMember(r, key, k1, s[0]);
      assert k0 == k1 by {
        var i :| 0 <= i < |s| && s[i] == r[0];
        var j :| 0 <= j < |r| && r[j] == s[0];
        assert k1 <= key(s[i]) && k0 <= key(r[j]);
      }
      forall k
        ensures WithKey(r[1..], key, k) == WithKey(s[1..], key, k)
      {
        WithKeyTail(r, s, key, k);
      }
      assert r[0] == s[0] by {
        WithKeyTail(r, s, key, k0);
      }
      SortedUnique(r[1..], s[1..], key);
      assert r == [r[0]] + r[1..] && s == [s[0]] + s[1..];
    }
  }
}
