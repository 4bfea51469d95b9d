/** `shuffle` and `sampleK` from the utilities: an in-place Fisher-Yates
    shuffle of a copy, driven by a random generator whose fractions are
    `numerator / 2^32` (as `mulberry32` returns them). */
module Shuffling {

  /** `Math.floor(rng() * (i + 1))` for `rng() = numerator / 2^32`; the
      numerator is read modulo 2^32, the range the generator's numerators
      lie in. */
  function DrawIndex(numerator: int, i: nat): (j: nat)
    ensures j <= i
  {
    var p := Times(numerator % 0x1_0000_0000, i + 1);
    QuotientBound(p, i + 1);
    Quotient(p)
  }

  /** `x * n` by repeated addition, for a 32-bit `x`. */
  function Times(x: nat, n: nat): (p: nat)
    requires x < 0x1_0000_0000
    ensures p < 0x1_0000_0000 * n || p == n == 0
  {
    if n == 0 then 0 else Times(x, n - 1) + x
  }

  /** `floor(p / 2^32)` by repeated subtraction. */
  function Quotient(p: nat): nat {
    if p < 0x1_0000_0000 then 0 else 1 + Quotient(p - 0x1_0000_0000)
  }

  lemma {:induction false} QuotientBound(p: nat, n: nat)
    requires p < 0x1_0000_0000 * n
    ensures Quotient(p) < n
  {
    if p >= 0x1_0000_0000 {
      QuotientBound(p - 0x1_0000_0000, n - 1);
    }
  }

  /** The index is the floor of the exact product. */
  lemma DrawIndexIsFloor(numerator: int, i: nat)
    ensures DrawIndex(numerator, i) == (numerator % 0x1_0000_0000) * (i + 1) / 0x1_0000_0000
  {
    TimesIsProduct(numerator % 0x1_0000_0000, i + 1);
    QuotientIsDivision(Times(numerator % 0x1_0000_0000, i + 1));
  }

  lemma {:induction false} TimesIsProduct(x: nat, n: nat)
    requires x < 0x1_0000_0000
    ensures Times(x, n) == x * n
  {
    if n > 0 {
      TimesIsProduct(x, n - 1);
    }
  }

  lemma {:induction false} QuotientIsDivision(p: nat)
    ensures Quotient(p) == p / 0x1_0000_0000
  {
    if p >= 0x1_0000_0000 {
      QuotientIsDivision(p - 0x1_0000_0000);
    }
  }

  /** Exchanges positions `i` and `j`. */
  function Swap<T>(a: seq<T>, i: nat, j: nat): (r: seq<T>)
    requires i < |a| && j < |a|
    ensures |r| == |a|
  {
    seq(|a|, m requires 0 <= m < |a| => if m == i then a[j] else if m == j then a[i] else a[m])
  }

  lemma StepPermutes<T>(a: seq<T>, p: seq<T>, q: seq<T>, i: nat, j: nat)
    requires i < |p| && j < |p|
    requires multiset(p) == multiset(a) && q == Swap(p, i, j)
    ensures multiset(q) == multiset(a)
  {
    SwapPermutes(p, i, j);
  }

  lemma SwapPermutes<T>(a: seq<T>, i: nat, j: nat)
    requires i < |a| && j < |a|
    ensures multiset(Swap(a, i, j)) == multiset(a)
  {
    assert Swap(a, i, j) == a[i := a[j]][j := a[i]];
  }

  /** The number of Fisher-Yates passes over an array of length `n`: one for
      each position from `n - 1` down to 1. */
  function PassCount(n: nat): nat {
    if n == 0 then 0 else n - 1
  }

  /** The array after the first `k` passes; pass number `k` (counting from 0)
      works on position `|a| - 1 - k` and uses the generator's call number
      `k`, whose numerator is `draw(k)`. The result is a permutation of `a`. */
  function Passes<T>(a: seq<T>, k: nat, draw: nat -> int): (r: seq<T>)
    requires k <= PassCount(|a|)
    ensures |r| == |a|
  {
    if k == 0 then a
    else
      var i := |a| - k;
      Swap(Passes(a, k - 1, draw), i, DrawIndex(draw(k - 1), i))
  }

  /** Every pass exchanges two elements, so the passes permute `a`. */
  lemma {:induction false} PassesPermute<T>(a: seq<T>, k: nat, draw: nat -> int)
    requires k <= PassCount(|a|)
    ensures multiset(Passes(a, k, draw)) == multiset(a)
  {
    if k > 0 {
      var p := Passes(a, k - 1, draw);
      var i := |a| - k;
      PassesPermute(a, k - 1, draw);
      StepPermutes(a, p, Passes(a, k, draw), i, DrawIndex(draw(k - 1), i));
    }
  }

  lemma PassesStep<T>(a: seq<T>, k: nat, draw: nat -> int)
    requires k < PassCount(|a|)
    ensures Passes(a, k + 1, draw)
         == Swap(Passes(a, k, draw), |a| - 1 - k, DrawIndex(draw(k), |a| - 1 - k))
  {
  }

  /** `shuffle(arr, rng)`: a new array (the input is a value and is not
      changed) holding a permutation of `arr`, the one all Fisher-Yates
      passes produce for the generator's draws. */
  method Shuffle<T>(arr: seq<T>, draw: nat -> int) returns (r: seq<T>)
    ensures r == Passes(arr, PassCount(|arr|), draw)
    ensures |r| == |arr| && multiset(r) == multiset(arr)
  {
    var a := arr;
    var i := |arr| - 1;
    var k: nat := 0;
    while i > 0
      invariant k == |arr| - 1 - i <= PassCount(|arr|)
      invariant a == Passes(arr, k, draw)
    {
      PassesStep(arr, k, draw);
      a := Swap(a, i, DrawIndex(draw(k), i));
      i := i - 1;
      k := k + 1;
    }
    r := a;
    PassesPermute(arr, k, draw);
  }

  /** The length `arr.slice(0, k)` keeps: `k` capped at the length, and a
      negative `k` counted from the end. */
  function SliceEnd(len: nat, k: int): (n: nat)
    ensures n <= len
    ensures k >= 0 ==> n == if k < len then k else len
  {
    if k >= 0 then (if k < len then k else len)
    else if len + k > 0 then len + k else 0
  }

  /** `sampleK(arr, k, rng)`: the first `k` elements of a shuffle of `arr`,
      hence a sub-multiset of `arr` with `min(k, |arr|)` elements for
      `k >= 0`. */
  method SampleK<T>(arr: seq<T>, k: int, draw: nat -> int) returns (r: seq<T>)
    ensures r == Passes(arr, PassCount(|arr|), draw)[..SliceEnd(|arr|, k)]
    ensures multiset(r) <= multiset(arr)
    ensures k >= 0 ==> |r| == if k < |arr| then k else |arr|
  {
    var a := Shuffle(arr, draw);
    PassesPermute(arr, PassCount(|arr|), draw);
    var n := SliceEnd(|a|, k);
    r := a[..n];
    PrefixSubMultiset(a, n);
  }

  lemma PrefixSubMultiset<T>(a: seq<T>, n: nat)
    requires n <= |a|
    ensures multiset(a[..n]) <= multiset(a)
  {
    assert a == a[..n] + a[n..];
  }
}
