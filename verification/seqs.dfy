/** Sequence helpers shared by the model: first-occurrence deduplication
    (JavaScript's `Array.from(new Set(xs))`), joining and counting. */
module Seqs {
  import opened Wrappers

  /** No element occurs twice. */
  ghost predicate NoDups<T>(xs: seq<T>) {
    forall i, j :: 0 <= i < j < |xs| ==> xs[i] != xs[j]
  }

  /** Every occurrence of `b` in `xs` is preceded by an occurrence of `a`,
      that is, `a` occurs first. */
  ghost predicate OccursBefore<T>(xs: seq<T>, a: T, b: T) {
    forall k :: 0 <= k < |xs| && xs[k] == b ==> a in xs[..k]
  }

  /** The distinct elements of `xs` in order of first occurrence, as a
      JavaScript `Set` built by inserting `xs` in order enumerates them. */
  function Dedup<T(==,!new)>(xs: seq<T>): (r: seq<T>)
    ensures NoDups(r)
    ensures forall x :: x in r <==> x in xs
    ensures |r| <= |xs|
  {
    if |xs| == 0 then []
    else
      var d := Dedup(xs[..|xs| - 1]);
      assert xs == xs[..|xs| - 1] + [xs[|xs| - 1]];
      if xs[|xs| - 1] in d then d else d + [xs[|xs| - 1]]
  }

  /** Dedup keeps first-occurrence order: of two kept elements, the earlier
      one occurs in `xs` before any occurrence of the later one. */
  lemma {:induction false} DedupKeepsFirstOccurrenceOrder<T(!new)>(xs: seq<T>)
    ensures forall i, j :: 0 <= i < j < |Dedup(xs)| ==> OccursBefore(xs, Dedup(xs)[i], Dedup(xs)[j])
  {
    if |xs| > 0 {
      var p := xs[..|xs| - 1];
      var last := xs[|xs| - 1];
      var d := Dedup(p);
      DedupKeepsFirstOccurrenceOrder(p);
      assert xs == p + [last];
      forall i, j | 0 <= i < j < |d|
        ensures OccursBefore(xs, d[i], d[j])
      {
        PrefixOrder(xs, d[i], d[j]);
      }
      if last !in d {
        forall i | 0 <= i < |d|
          ensures OccursBefore(xs, d[i], last)
        {
          forall k | 0 <= k < |xs| && xs[k] == last
            ensures d[i] in xs[..k]
          {
            assert k == |xs| - 1 by {
              assert forall m :: 0 <= m < |p| ==> p[m] == xs[m] && p[m] != last;
            }
            assert xs[..k] == p;
          }
        }
      }
    }
  }

  /** Deduplicating a longer sequence only appends: the distinct elements
      of `a` come first, in their own order. */
  lemma {:induction false} DedupPrefix<T(!new)>(a: seq<T>, b: seq<T>)
    ensures |Dedup(a)| <= |Dedup(a + b)| && Dedup(a + b)[..|Dedup(a)|] == Dedup(a)
    decreases |b|
  {
    if |b| == 0 {
      assert a + b == a;
    } else {
      var b' := b[..|b| - 1];
      DedupPrefix(a, b');
      assert (a + b)[..|a + b| - 1] == a + b';
    }
  }

  /** An order established on all but the last element extends to the whole
      sequence when the later element already occurred in the prefix. */
  lemma PrefixOrder<T>(xs: seq<T>, a: T, b: T)
    requires |xs| > 0
    requires b in xs[..|xs| - 1]
    requires OccursBefore(xs[..|xs| - 1], a, b)
    ensures OccursBefore(xs, a, b)
  {
    var p := xs[..|xs| - 1];
    forall k | 0 <= k < |xs| && xs[k] == b
      ensures a in xs[..k]
    {
      if k < |xs| - 1 {
        assert p[k] == b;
        assert p[..k] == xs[..k];
      } else {
        var k' :| 0 <= k' < |p| && p[k'] == b;
        assert a in p[..k'];
        assert p[..k'] == xs[..k'];
        assert xs[..k'] <= xs[..k];
      }
    }
  }

  /** `parts` joined with `sep` between consecutive elements (`Array.prototype.join`). */
  function Join(sep: string, parts: seq<string>): string {
    if |parts| == 0 then ""
    else if |parts| == 1 then parts[0]
    else parts[0] + sep + Join(sep, parts[1..])
  }

  /** The lists of `xss` one after the other (`Array.prototype.flat`). */
  function Flatten<T>(xss: seq<seq<T>>): seq<T> {
    if |xss| == 0 then [] else xss[0] + Flatten(xss[1..])
  }

  /** The number of elements of `xs` satisfying `p`. */
  function CountWhere<T>(xs: seq<T>, p: T -> bool): nat {
    if |xs| == 0 then 0
    else (if p(xs[0]) then 1 else 0) + CountWhere(xs[1..], p)
  }

  /** The elements of `xs` satisfying `p`, in order (`Array.prototype.filter`). */
  function Filter<T(!new)>(xs: seq<T>, p: T -> bool): (r: seq<T>)
    ensures |r| <= |xs|
    ensures forall x :: x in r <==> x in xs && p(x)
  {
    if |xs| == 0 then []
    else (if p(xs[0]) then [xs[0]] else []) + Filter(xs[1..], p)
  }

  /** Counting over a concatenation. */
  lemma {:induction false} CountWhereConcat<T>(a: seq<T>, b: seq<T>, p: T -> bool)
    ensures CountWhere(a + b, p) == CountWhere(a, p) + CountWhere(b, p)
  {
    if |a| > 0 {
      assert (a + b)[1..] == a[1..] + b;
      CountWhereConcat(a[1..], b, p);
    } else {
      assert a + b == b;
    }
  }

  /** Of two tests where the first implies the second, they count the same
      elements exactly when every element passing the second also passes the
      first. */
  lemma {:induction false} CountWhereSame<T>(xs: seq<T>, p: T -> bool, q: T -> bool)
    requires forall x :: x in xs && p(x) ==> q(x)
    ensures CountWhere(xs, p) == CountWhere(xs, q) <==> forall x :: x in xs && q(x) ==> p(x)
  {
    if |xs| > 0 {
      assert forall x :: x in xs <==> x == xs[0] || x in xs[1..];
      CountWhereSame(xs[1..], p, q);
      CountWhereMono(xs[1..], p, q);
    }
  }

  /** The filter lists the passing elements in order: the element at
      position `i` sits behind as many kept elements as pass before it. */
  ghost predicate FilteredInOrder<T>(r: seq<T>, xs: seq<T>, p: T -> bool) {
    && |r| == CountWhere(xs, p)
    && forall i :: 0 <= i < |xs| && p(xs[i]) ==>
         CountWhere(xs[..i], p) < |r| && r[CountWhere(xs[..i], p)] == xs[i]
  }

  /** `Filter` keeps the passing elements in their order. */
  lemma {:induction false} FilterInOrder<T(!new)>(xs: seq<T>, p: T -> bool)
    ensures FilteredInOrder(Filter(xs, p), xs, p)
  {
    if |xs| > 0 {
      FilterInOrder(xs[1..], p);
      var r := Filter(xs, p);
      var rest := Filter(xs[1..], p);
      var h := if p(xs[0]) then 1 else 0;
      assert r == (if p(xs[0]) then [xs[0]] else []) + rest;
      forall i | 0 <= i < |xs| && p(xs[i])
        ensures CountWhere(xs[..i], p) < |r| && r[CountWhere(xs[..i], p)] == xs[i]
      {
        if i == 0 {
          assert xs[..0] == [];
        } else {
          assert xs[..i][1..] == xs[1..][..i - 1];
          assert xs[1..][i - 1] == xs[i];
        }
      }
    }
  }

  /** The number of elements `f` yields a value for. */
  function CountSome<A, B>(xs: seq<A>, f: A -> Option<B>): nat {
    if |xs| == 0 then 0
    else (if f(xs[0]).Some? then 1 else 0) + CountSome(xs[1..], f)
  }

  /** `xs.map(f).filter(...)` where the filter drops exactly the `null`s:
      the values `f` yields, in order. */
  function Choose<A, B>(xs: seq<A>, f: A -> Option<B>): seq<B> {
    if |xs| == 0 then [] else Yield(xs[0], f) + Choose(xs[1..], f)
  }

  /** The value `f` yields for `x`, as a list of zero or one element. */
  function Yield<A, B>(x: A, f: A -> Option<B>): seq<B> {
    if f(x).Some? then [f(x).value] else []
  }

  /** A value is chosen exactly when some element yields it. */
  lemma {:induction false} ChooseMembers<A(!new), B(!new)>(xs: seq<A>, f: A -> Option<B>)
    ensures forall y :: y in Choose(xs, f) ==> exists x :: x in xs && f(x) == Some(y)
    ensures forall x :: x in xs && f(x).Some? ==> f(x).value in Choose(xs, f)
  {
    if |xs| > 0 {
      ChooseMembers(xs[1..], f);
      assert forall x :: x in xs <==> x == xs[0] || x in xs[1..];
    }
  }

  /** Choosing over two lists one after the other is choosing over their
      concatenation. */
  lemma {:induction false} ChooseConcat<A(!new), B(!new)>(a: seq<A>, b: seq<A>, f: A -> Option<B>)
    ensures Choose(a + b, f) == Choose(a, f) + Choose(b, f)
  {
    if |a| == 0 {
      assert a + b == b;
    } else {
      ChooseConcat(a[1..], b, f);
      assert a + b == [a[0]] + (a[1..] + b);
      ChooseCons(a[0], a[1..] + b, f);
      var h := Yield(a[0], f);
      assert h + (Choose(a[1..], f) + Choose(b, f)) == (h + Choose(a[1..], f)) + Choose(b, f);
    }
  }

  /** Choosing over a list with a first element. */
  lemma ChooseCons<A, B>(x: A, xs: seq<A>, f: A -> Option<B>)
    ensures Choose([x] + xs, f) == Yield(x, f) + Choose(xs, f)
  {
    assert ([x] + xs)[1..] == xs;
  }

  /** `r` lists the values `f` yields on `xs` in order: the value of the
      element at position `i` sits behind as many values as the elements
      before it yield. */
  ghost predicate ChosenInOrder<A, B>(r: seq<B>, xs: seq<A>, f: A -> Option<B>) {
    && |r| == CountSome(xs, f)
    && forall i :: 0 <= i < |xs| && f(xs[i]).Some? ==>
         CountSome(xs[..i], f) < |r| && r[CountSome(xs[..i], f)] == f(xs[i]).value
  }

  /** `Choose` keeps the yielded values in the order of their elements. */
  lemma {:induction false} ChooseInOrder<A(!new), B(!new)>(xs: seq<A>, f: A -> Option<B>)
    ensures ChosenInOrder(Choose(xs, f), xs, f)
  {
    if |xs| > 0 {
      ChooseInOrder(xs[1..], f);
      var r := Choose(xs, f);
      var rest := Choose(xs[1..], f);
      assert r == (if f(xs[0]).Some? then [f(xs[0]).value] else []) + rest;
      forall i | 0 <= i < |xs| && f(xs[i]).Some?
        ensures CountSome(xs[..i], f) < |r| && r[CountSome(xs[..i], f)] == f(xs[i]).value
      {
        if i == 0 {
          assert xs[..0] == [];
        } else {
          assert xs[..i][1..] == xs[1..][..i - 1];
          assert xs[1..][i - 1] == xs[i];
        }
      }
    }
  }

  /** The in-order description determines the list: two lists that both
      list the values of `f` on `xs` in order are equal. */
  lemma {:induction false} ChosenInOrderUnique<A(!new), B(!new)>(r1: seq<B>, r2: seq<B>, xs: seq<A>, f: A -> Option<B>)
    requires ChosenInOrder(r1, xs, f) && ChosenInOrder(r2, xs, f)
    ensures r1 == r2
  {
    ChooseInOrder(xs, f);
    ChosenIsChoose(r1, xs, f);
    ChosenIsChoose(r2, xs, f);
  }

  /** A list described in order is the one `Choose` computes. */
  lemma {:induction false} ChosenIsChoose<A(!new), B(!new)>(r: seq<B>, xs: seq<A>, f: A -> Option<B>)
    requires ChosenInOrder(r, xs, f)
    ensures r == Choose(xs, f)
  {
    if |xs| > 0 {
      var h := if f(xs[0]).Some? then 1 else 0;
      var tail := r[h..];
      forall i | 0 <= i < |xs[1..]| && f(xs[1..][i]).Some?
        ensures CountSome(xs[1..][..i], f) < |tail| && tail[CountSome(xs[1..][..i], f)] == f(xs[1..][i]).value
      {
        assert xs[1..][i] == xs[i + 1];
        assert xs[..i + 1][1..] == xs[1..][..i];
        assert CountSome(xs[..i + 1], f) == h + CountSome(xs[1..][..i], f);
      }
      ChosenIsChoose(tail, xs[1..], f);
      if h == 1 {
        assert xs[..0] == [];
        assert r[0] == f(xs[0]).value;
        assert r == [r[0]] + tail;
      } else {
        assert tail == r;
      }
    }
  }

  /** `xs.map(f)`. */
  function Map<A, B>(xs: seq<A>, f: A -> B): (r: seq<B>)
    ensures |r| == |xs|
    ensures forall i :: 0 <= i < |xs| ==> r[i] == f(xs[i])
  {
    seq(|xs|, i requires 0 <= i < |xs| => f(xs[i]))
  }

  lemma MapConcat<A, B>(a: seq<A>, b: seq<A>, f: A -> B)
    ensures Map(a + b, f) == Map(a, f) + Map(b, f)
  {
  }

  /** Removing the element at `k` removes one occurrence of it. */
  lemma RemoveAt<T>(b: seq<T>, k: nat, rest: seq<T>)
    requires k < |b| && rest == b[..k] + b[k + 1..]
    ensures multiset(b) == multiset(rest) + multiset{b[k]}
  {
    assert b == b[..k] + [b[k]] + b[k + 1..];
  }

  /** The same for the images under `f`. */
  lemma MapRemoveAt<A, B>(b: seq<A>, k: nat, rest: seq<A>, f: A -> B)
    requires k < |b| && rest == b[..k] + b[k + 1..]
    ensures multiset(Map(b, f)) == multiset(Map(rest, f)) + multiset{f(b[k])}
  {
    var m := Map(b, f);
    assert m[..k] + m[k + 1..] == Map(rest, f);
    RemoveAt(m, k, Map(rest, f));
  }

  /** Adding the same element to two multisets keeps them apart. */
  lemma Cancel<T>(p: multiset<T>, q: multiset<T>, x: T)
    requires p + multiset{x} == q + multiset{x}
    ensures p == q
  {
    forall y ensures p[y] == q[y] {
      assert (p + multiset{x})[y] == p[y] + multiset{x}[y];
      assert (q + multiset{x})[y] == q[y] + multiset{x}[y];
    }
  }

  /** One step of `MapPermutation`: the heads match and the rests map to
      the same images. */
  lemma MapPermutationStep<A, B>(a: seq<A>, b: seq<A>, k: nat, f: A -> B)
    requires 0 < |a| && k < |b| && b[k] == a[0]
    requires multiset(Map(a[1..], f)) == multiset(Map(b[..k] + b[k + 1..], f))
    ensures multiset(Map(a, f)) == multiset(Map(b, f))
  {
    assert a[1..] == a[..0] + a[0 + 1..];
    MapRemoveAt(a, 0, a[1..], f);
    MapRemoveAt(b, k, b[..k] + b[k + 1..], f);
  }

  /** Mapping two rearrangements of the same elements gives two
      rearrangements of the same images. */
  lemma {:induction false} MapPermutation<A, B>(a: seq<A>, b: seq<A>, f: A -> B)
    requires multiset(a) == multiset(b)
    ensures multiset(Map(a, f)) == multiset(Map(b, f))
    decreases |a|
  {
    if |a| == 0 {
      assert |b| == |multiset(b)| == 0;
    } else {
      var x := a[0];
      assert x in multiset(b);
      var k :| 0 <= k < |b| && b[k] == x;
      var a', b' := a[1..], b[..k] + b[k + 1..];
      assert a' == a[..0] + a[1..];
      RemoveAt(a, 0, a');
      RemoveAt(b, k, b');
      Cancel(multiset(a'), multiset(b'), x);
      MapPermutation(a', b', f);
      MapPermutationStep(a, b, k, f);
    }
  }

  /** Two positions of a rearrangement of a duplicate-free sequence hold
      different elements. */
  lemma DistinctAfterPermutation<T>(d: seq<T>, r: seq<T>, i: int, j: int)
    requires NoDups(d) && multiset(r) == multiset(d)
    requires 0 <= i < j < |r|
    ensures r[i] != r[j]
  {
    if r[i] == r[j] {
      var x := r[i];
      assert multiset(r)[x] >= 2 by {
        assert r == r[..i] + [x] + r[i + 1..j] + [x] + r[j + 1..];
      }
      AtMostOnce(d, x);
      assert false;
    }
  }

  /** A rearrangement of a duplicate-free sequence is duplicate-free. */
  lemma NoDupsAfterPermutation<T>(d: seq<T>, r: seq<T>)
    requires NoDups(d) && multiset(r) == multiset(d)
    ensures NoDups(r)
  {
    forall i, j | 0 <= i < j < |r|
      ensures r[i] != r[j]
    {
      DistinctAfterPermutation(d, r, i, j);
    }
  }

  /** An element of a duplicate-free sequence occurs at most once. */
  lemma {:induction false} AtMostOnce<T>(d: seq<T>, x: T)
    requires NoDups(d)
    ensures multiset(d)[x] <= 1
  {
    if |d| > 0 {
      assert d == [d[0]] + d[1..];
      AtMostOnce(d[1..], x);
      if d[0] == x {
        assert x !in d[1..];
      }
    }
  }

  /** Counting over a sequence extended at the end. */
  lemma {:induction false} CountWhereAppend<T>(xs: seq<T>, x: T, p: T -> bool)
    ensures CountWhere(xs + [x], p) == CountWhere(xs, p) + (if p(x) then 1 else 0)
  {
    if |xs| > 0 {
      assert (xs + [x])[1..] == xs[1..] + [x];
      CountWhereAppend(xs[1..], x, p);
    }
  }

  /** A weaker test counts at least as many elements, and no test counts
      more elements than there are. */
  lemma {:induction false} CountWhereMono<T>(xs: seq<T>, p: T -> bool, q: T -> bool)
    requires forall x :: x in xs && p(x) ==> q(x)
    ensures CountWhere(xs, p) <= CountWhere(xs, q) <= |xs|
  {
    if |xs| > 0 {
      assert forall x :: x in xs[1..] ==> x in xs;
      CountWhereMono(xs[1..], p, q);
    }
  }

  /** The sum of `xs`. */
  function Sum(xs: seq<int>): int {
    if |xs| == 0 then 0 else xs[0] + Sum(xs[1..])
  }

  lemma {:induction false} SumConcat(a: seq<int>, b: seq<int>)
    ensures Sum(a + b) == Sum(a) + Sum(b)
  {
    if |a| > 0 {
      assert (a + b)[1..] == a[1..] + b;
      SumConcat(a[1..], b);
    } else {
      assert a + b == b;
    }
  }

  /** A rearrangement has the same sum. */
  lemma {:induction false} SumPermutation(a: seq<int>, b: seq<int>)
    requires multiset(a) == multiset(b)
    ensures Sum(a) == Sum(b)
    decreases |a|
  {
    if |a| == 0 {
      assert |b| == |multiset(b)| == 0;
    } else {
      var x := a[0];
      assert x in multiset(b);
      var k :| 0 <= k < |b| && b[k] == x;
      var a', b' := a[1..], b[..k] + b[k + 1..];
      assert a' == a[..0] + a[1..];
      RemoveAt(a, 0, a');
      RemoveAt(b, k, b');
      Cancel(multiset(a'), multiset(b'), x);
      SumPermutation(a', b');
      SumWithout(b, k);
    }
  }

  /** The sum of `b` is that of `b` without its `k`-th element, plus that
      element. */
  lemma {:induction false} SumWithout(b: seq<int>, k: nat)
    requires k < |b|
    ensures Sum(b) == Sum(b[..k] + b[k + 1..]) + b[k]
  {
    var r := b[..k] + b[k + 1..];
    if k == 0 {
      assert r == b[1..];
    } else {
      var t := b[1..];
      SumWithout(t, k - 1);
      assert r[0] == b[0];
      assert r[1..] == t[..k - 1] + t[k..];
    }
  }

  /** Some element passes exactly when the count is positive. */
  lemma {:induction false} CountWherePositive<T>(xs: seq<T>, p: T -> bool)
    ensures CountWhere(xs, p) > 0 <==> exists x :: x in xs && p(x)
  {
    if |xs| > 0 {
      CountWherePositive(xs[1..], p);
      assert forall x :: x in xs <==> x == xs[0] || x in xs[1..];
    }
  }

  /** A sequence is the prefix of what is appended to it. */
  lemma PrefixOfConcat<T>(a: seq<T>, b: seq<T>)
    ensures |a + b| >= |a| && (a + b)[..|a|] == a
  {
  }

  /** A subset is no larger. */
  lemma SubsetCard<T>(a: set<T>, b: set<T>)
    requires a <= b
    ensures |a| <= |b|
  {
    assert b == a + (b - a);
  }

  /** Replacing one element changes the sum by the difference. */
  lemma SumUpdate(xs: seq<int>, k: nat, v: int)
    requires k < |xs|
    ensures Sum(xs[k := v]) == Sum(xs) - xs[k] + v
  {
    var ys := xs[k := v];
    SumWithout(xs, k);
    SumWithout(ys, k);
    assert ys[..k] + ys[k + 1..] == xs[..k] + xs[k + 1..];
  }
}
