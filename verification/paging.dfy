/** The paging arithmetic of src/ui/render.js: `renderPager` clamps the page
    size and the page number read from two input fields, `renderQuestionList`
    renders the slice of the chosen page, and `jumpToQuestion` chooses the
    page that should hold a question. Numbers are JavaScript numbers: an
    unparsable input gives `NaN`, which `Math.min` and `Math.max` pass on. */
module Paging {
  import opened Js

  /** Up to this many questions are rendered without paging. */
  const MaxRenderNoPaging: nat := 1000

  /** `a <= b` for numbers other than `NaN`. */
  predicate NumLe(a: Num, b: Num)
    requires !a.NaN? && !b.NaN?
  {
    match (a, b)
    case (NegInfinity, _) => true
    case (_, Infinity) => true
    case (Finite(x), Finite(y)) => x <= y
    case _ => false
  }

  /** `Math.min(a, b)`. */
  function NumMin(a: Num, b: Num): (r: Num)
    ensures r.NaN? <==> a.NaN? || b.NaN?
    ensures !r.NaN? ==> (r == a || r == b) && NumLe(r, a) && NumLe(r, b)
  {
    if a.NaN? || b.NaN? then NaN else if NumLe(a, b) then a else b
  }

  /** `Math.max(a, b)`. */
  function NumMax(a: Num, b: Num): (r: Num)
    ensures r.NaN? <==> a.NaN? || b.NaN?
    ensures !r.NaN? ==> (r == a || r == b) && NumLe(a, r) && NumLe(b, r)
  {
    if a.NaN? || b.NaN? then NaN else if NumLe(a, b) then b else a
  }

  /** `Math.ceil(x)` for a finite number. */
  function Ceil(x: real): (c: int)
    ensures c as real >= x > c as real - 1.0
  {
    -((-x).Floor)
  }

  lemma MulLe(a: real, b: real, d: real)
    requires a <= b && d >= 0.0
    ensures a * d <= b * d
  {
    assert b * d - a * d == (b - a) * d;
  }

  lemma MulLt(a: real, b: real, d: real)
    requires a < b && d > 0.0
    ensures a * d < b * d
  {
    assert b * d - a * d == (b - a) * d;
  }

  /** A value at least `a * d` and below a value at most `b * d` puts `a`
      below `b`. */
  lemma CancelBetween(a: real, b: real, x: real, y: real, d: real)
    requires d > 0.0 && a * d <= x && x < y && y <= b * d
    ensures a < b
  {
    CancelBelow(a, b, x, d);
  }

  /** A value at least `a * d` and below `b * d` puts `a` below `b`. */
  lemma CancelBelow(a: real, b: real, x: real, d: real)
    requires d > 0.0 && a * d <= x && x < b * d
    ensures a < b
  {
    MulLtCancel(a, b, d);
  }

  /** Dividing both sides of `a * d < b * d` by a positive `d`. */
  lemma MulLtCancel(a: real, b: real, d: real)
    requires a * d < b * d && d > 0.0
    ensures a < b
  {
    if b <= a {
      MulLe(b, a, d);
    }
  }

  lemma CastMul(a: int, b: int)
    ensures a as real * b as real == (a * b) as real
  {
  }

  /** `Number(input.value || fallback)`: an empty field reads as the
      fallback, anything else is parsed. */
  function InputNumber(e: Engine, value: string, fallback: real): Num {
    if value == "" then Finite(fallback) else e.parseNumber(value)
  }

  /** `Math.max(10, Math.min(300, n))`: the page size. */
  function ClampPageSize(n: Num): (r: Num)
    ensures r.NaN? <==> n.NaN?
    ensures !r.NaN? ==> r.Finite? && 10.0 <= r.value <= 300.0
    ensures n.Finite? && 10.0 <= n.value <= 300.0 ==> r == n
    ensures n.NegInfinity? || (n.Finite? && n.value < 10.0) ==> r == Finite(10.0)
    ensures n.Infinity? || (n.Finite? && n.value > 300.0) ==> r == Finite(300.0)
  {
    NumMax(Finite(10.0), NumMin(Finite(300.0), n))
  }

  /** `Math.max(1, Math.ceil(totalCount / pageSize))` for a finite page
      size: the fewest pages of that size holding every question, and at
      least one page. */
  function TotalPages(totalCount: nat, pageSize: real): (t: int)
    requires pageSize > 0.0
    ensures t >= 1
    ensures totalCount as real <= t as real * pageSize
    ensures t == 1 || (t - 1) as real * pageSize < totalCount as real
  {
    var c := Ceil(totalCount as real / pageSize);
    CeilBounds(totalCount as real, pageSize, c);
    if c >= 1 then c else 1
  }

  /** `c = ceil(x / d)` places `x` in the `c`-th stretch of length `d`. */
  lemma CeilBounds(x: real, d: real, c: int)
    requires d > 0.0 && c == Ceil(x / d)
    ensures x <= c as real * d && (c - 1) as real * d < x
  {
    var q := x / d;
    assert q * d == x;
    assert q <= c as real && (c - 1) as real < q;
    MulLe(q, c as real, d);
    MulLt((c - 1) as real, q, d);
  }

  /** The numbers `renderPager` returns. */
  datatype Pager = Pager(page: Num, pageSize: Num, totalPages: Num)

  /** `renderPager` on the numbers read from its two fields. */
  function PagerOf(totalCount: nat, sizeInput: Num, pageInput: Num): (p: Pager)
    ensures p.pageSize == ClampPageSize(sizeInput)
    ensures p.totalPages.NaN? <==> sizeInput.NaN?
    ensures !sizeInput.NaN? ==> p.totalPages == Finite(TotalPages(totalCount, p.pageSize.value) as real)
    ensures p.page.NaN? <==> sizeInput.NaN? || pageInput.NaN?
    ensures !p.page.NaN? ==> p.page.Finite? && 1.0 <= p.page.value <= p.totalPages.value
    ensures !p.page.NaN? && pageInput.Finite? && 1.0 <= pageInput.value <= p.totalPages.value ==> p.page == pageInput
    ensures !sizeInput.NaN? && (pageInput.NegInfinity? || (pageInput.Finite? && pageInput.value < 1.0)) ==>
              p.page == Finite(1.0)
    ensures !sizeInput.NaN? && (pageInput.Infinity? || (pageInput.Finite? && pageInput.value > p.totalPages.value)) ==>
              p.page == p.totalPages
  {
    var pageSize := ClampPageSize(sizeInput);
    var totalPages := if pageSize.NaN? then NaN else Finite(TotalPages(totalCount, pageSize.value) as real);
    var page := NumMax(Finite(1.0), NumMin(totalPages, pageInput));
    Pager(page, pageSize, totalPages)
  }

  /** `renderPager(totalCount)` with the texts of the page-size and
      page-number fields. */
  function RenderPager(e: Engine, totalCount: nat, sizeValue: string, numberValue: string): (p: Pager)
    ensures p == PagerOf(totalCount, InputNumber(e, sizeValue, 50.0), InputNumber(e, numberValue, 1.0))
    ensures sizeValue == "" ==> p.pageSize == Finite(50.0)
    ensures sizeValue == "" && numberValue == "" ==> p.page == Finite(1.0)
  {
    PagerOf(totalCount, InputNumber(e, sizeValue, 50.0), InputNumber(e, numberValue, 1.0))
  }

  /** With integers in both fields the pager works on integers: the page
      size is an integer in [10, 300] and the page an integer between 1 and
      the page count. */
  lemma PagerIntegers(totalCount: nat, size: int, page: int)
    ensures var p := PagerOf(totalCount, Finite(size as real), Finite(page as real));
            && p.pageSize.Finite? && IsInteger(p.pageSize) && 10 <= IntOf(p.pageSize) <= 300
            && p.page.Finite? && IsInteger(p.page) && 1 <= IntOf(p.page) <= IntOf(p.totalPages)
  {
  }

  /** The index `slice` uses for a non-negative bound `x` on a list of
      length `n`: `x` truncated towards zero, cut to `n`. */
  function SliceIndex(n: nat, x: real): (i: int)
    requires x >= 0.0
    ensures 0 <= i <= n
    ensures i == n || i as real <= x < i as real + 1.0
    ensures i < n ==> i == x.Floor
    ensures i == n <==> x >= n as real
  {
    if x.Floor < n then x.Floor else n
  }

  /** `qs.slice((page - 1) * pageSize, page * pageSize)` for a page of at
      least 1, which may be fractional when the page field holds a
      fraction: each bound is the product truncated towards zero and cut to
      the length of the list. */
  function SliceBounds(n: nat, page: real, pageSize: real): (b: (int, int))
    requires page >= 1.0 && pageSize > 0.0
    ensures 0 <= b.0 <= b.1 <= n
    ensures b.0 == n || b.0 as real <= (page - 1.0) * pageSize < b.0 as real + 1.0
    ensures b.1 == n || b.1 as real <= page * pageSize < b.1 as real + 1.0
  {
    MulLe(page - 1.0, page, pageSize);
    (SliceIndex(n, (page - 1.0) * pageSize), SliceIndex(n, page * pageSize))
  }

  /** Consecutive pages meet: the slice of one page ends where the slice of
      the next begins, so paging through the list skips no question and
      shows none twice. */
  lemma PagesMeet(n: nat, page: real, pageSize: real)
    requires page >= 1.0 && pageSize > 0.0
    ensures SliceBounds(n, page, pageSize).1 == SliceBounds(n, page + 1.0, pageSize).0
  {
    assert (page + 1.0) - 1.0 == page;
  }

  /** The slice `renderQuestionList` renders for the two field values: the
      bounds of the pager's page, or nothing when a field reads as `NaN`
      (`slice(NaN, NaN)` is empty). */
  function PageSlice(n: nat, sizeInput: Num, pageInput: Num): (b: (int, int))
    ensures 0 <= b.0 <= b.1 <= n
    ensures sizeInput.NaN? || pageInput.NaN? ==> b == (0, 0)
    ensures !sizeInput.NaN? && !pageInput.NaN? ==>
              var p := PagerOf(n, sizeInput, pageInput);
              p.page.Finite? && p.pageSize.Finite? && b == SliceBounds(n, p.page.value, p.pageSize.value)
  {
    var p := PagerOf(n, sizeInput, pageInput);
    if p.page.NaN? then (0, 0)
    else SliceBounds(n, p.page.value, p.pageSize.value)
  }

  /** `Math.floor(idx / pageSize) + 1`: the page `jumpToQuestion` sets for
      the question at position `idx`. */
  function JumpPage(idx: nat, pageSize: real): (page: int)
    requires pageSize > 0.0
    ensures page >= 1
    ensures (page - 1) as real * pageSize <= idx as real < page as real * pageSize
  {
    var q := (idx as real / pageSize).Floor;
    FloorBounds(idx as real, pageSize, q);
    q + 1
  }

  /** `q = floor(x / d)` places `x` in the stretch after the `q`-th. */
  lemma FloorBounds(x: real, d: real, q: int)
    requires d > 0.0 && x >= 0.0 && q == (x / d).Floor
    ensures q >= 0 && q as real * d <= x < (q + 1) as real * d
  {
    var y := x / d;
    assert y * d == x;
    assert y >= 0.0;
    assert q as real <= y < (q + 1) as real;
    MulLe(q as real, y, d);
    MulLt(y, (q + 1) as real, d);
    calc {
      x;
    ==
      y * d;
    <
      (q + 1) as real * d;
    }
  }

  /** The page `jumpToQuestion` sets survives the clamping of `renderPager`:
      for a question of the list it is at most the page count. */
  lemma JumpPageWithinPager(idx: nat, n: nat, pageSize: real)
    requires idx < n && pageSize > 0.0
    ensures JumpPage(idx, pageSize) <= TotalPages(n, pageSize)
  {
    var p := JumpPage(idx, pageSize);
    var t := TotalPages(n, pageSize);
    CancelBetween((p - 1) as real, t as real, idx as real, n as real, pageSize);
  }

  /** With an integer page size, the slice of the page `jumpToQuestion`
      sets holds the question, and the pager renders that page. */
  lemma JumpRendersQuestion(idx: nat, n: nat, size: int)
    requires idx < n && 10 <= size <= 300
    ensures var page := JumpPage(idx, size as real);
            && PagerOf(n, Finite(size as real), Finite(page as real)).page == Finite(page as real)
            && var (lo, hi) := SliceBounds(n, page as real, size as real);
               lo <= idx < hi
  {
    var page := JumpPage(idx, size as real);
    JumpPageWithinPager(idx, n, size as real);
    PageKept(n, size as real, page);
    JumpSliceHolds(idx, n, size, page);
  }

  /** A page between 1 and the page count passes the pager's clamping
      unchanged. */
  lemma PageKept(n: nat, pageSize: real, page: int)
    requires 10.0 <= pageSize <= 300.0 && 1 <= page <= TotalPages(n, pageSize)
    ensures PagerOf(n, Finite(pageSize), Finite(page as real)).page == Finite(page as real)
  {
  }

  lemma JumpSliceHolds(idx: nat, n: nat, size: int, page: int)
    requires idx < n && size > 0 && page == JumpPage(idx, size as real)
    ensures var (lo, hi) := SliceBounds(n, page as real, size as real);
            lo <= idx < hi
  {
    CastMul(page, size);
    assert idx as real < (page * size) as real;
    assert idx + 1 <= page * size;
    assert (idx + 1) as real <= (page * size) as real;
    assert (page as real - 1.0) * size as real == (page - 1) as real * size as real;
    SliceHolds(idx, n, page as real, size as real);
  }

  /** A position `idx` with `idx + 1` beyond the start of the page and at
      most its end lies in the page's slice. */
  lemma SliceHolds(idx: nat, n: nat, page: real, pageSize: real)
    requires idx < n && page >= 1.0 && pageSize > 0.0
    requires (page - 1.0) * pageSize < (idx + 1) as real <= page * pageSize
    ensures var (lo, hi) := SliceBounds(n, page, pageSize);
            lo <= idx < hi
  {
  }

  /** With a fractional page size the slice boundaries are truncated, and
      the page chosen from `floor(idx / pageSize)` can end just before the
      question: a page size of 10.5 sends the question at position 10 to
      page 1, whose slice holds positions 0 to 9, while page 2 starts at
      position 10. Paging is on only beyond 1000 questions, hence 2000. */
  lemma JumpMissesQuestionAsWritten()
    ensures JumpPage(10, 10.5) == 1
    ensures SliceBounds(2000, 1.0, 10.5) == (0, 10)
    ensures SliceBounds(2000, 2.0, 10.5) == (10, 21)
  {
    assert (10 as real / 10.5).Floor == 0;
    assert (1 as real * 10.5).Floor == 10;
    assert (2 as real * 10.5).Floor == 21;
  }

  /** The page whose truncated slice holds position `idx`:
      `Math.ceil((idx + 1) / pageSize)`. */
  function JumpPageCorrected(idx: nat, pageSize: real): (page: int)
    requires pageSize > 0.0
    ensures page >= 1
    ensures (page - 1) as real * pageSize < (idx + 1) as real <= page as real * pageSize
  {
    var c := Ceil((idx + 1) as real / pageSize);
    CeilBounds((idx + 1) as real, pageSize, c);
    c
  }

  /** The corrected page is rendered, and its slice holds the question, for
      every page size the pager can produce. */
  lemma JumpPageCorrectedRendersQuestion(idx: nat, n: nat, pageSize: real)
    requires idx < n && 10.0 <= pageSize <= 300.0
    ensures var page := JumpPageCorrected(idx, pageSize);
            && page <= TotalPages(n, pageSize)
            && PagerOf(n, Finite(pageSize), Finite(page as real)).page == Finite(page as real)
            && var (lo, hi) := SliceBounds(n, page as real, pageSize);
               lo <= idx < hi
  {
    var page := JumpPageCorrected(idx, pageSize);
    CorrectedWithinPages(idx, n, pageSize, page);
    PageKept(n, pageSize, page);
    CorrectedSliceHolds(idx, n, pageSize, page);
  }

  lemma CorrectedWithinPages(idx: nat, n: nat, pageSize: real, page: int)
    requires idx < n && pageSize > 0.0 && page == JumpPageCorrected(idx, pageSize)
    ensures page <= TotalPages(n, pageSize)
  {
    var t := TotalPages(n, pageSize);
    assert (page - 1) as real * pageSize < (idx + 1) as real <= n as real <= t as real * pageSize;
    MulLtCancel((page - 1) as real, t as real, pageSize);
  }

  lemma CorrectedSliceHolds(idx: nat, n: nat, pageSize: real, page: int)
    requires idx < n && pageSize > 0.0 && page == JumpPageCorrected(idx, pageSize)
    ensures var (lo, hi) := SliceBounds(n, page as real, pageSize);
            lo <= idx < hi
  {
    assert (page as real - 1.0) * pageSize == (page - 1) as real * pageSize;
    SliceHolds(idx, n, page as real, pageSize);
  }

  /** For the integer page sizes the fields normally hold, the corrected
      page is the page `jumpToQuestion` computes. */
  lemma JumpPageCorrectedAgrees(idx: nat, size: int)
    requires size > 0
    ensures JumpPageCorrected(idx, size as real) == JumpPage(idx, size as real)
  {
    var a := JumpPageCorrected(idx, size as real);
    var b := JumpPage(idx, size as real);
    CorrectedNotLater(idx, size, a, b);
    CorrectedNotEarlier(idx, size, a, b);
  }

  lemma CorrectedNotLater(idx: nat, size: int, a: int, b: int)
    requires size > 0 && a == JumpPageCorrected(idx, size as real) && b == JumpPage(idx, size as real)
    ensures a <= b
  {
    var s := size as real;
    var m := (a - 1) * size;
    CastMul(a - 1, size);
    assert m as real < (idx + 1) as real;
    assert m <= idx;
    CancelBelow((a - 1) as real, b as real, idx as real, s);
  }

  lemma CorrectedNotEarlier(idx: nat, size: int, a: int, b: int)
    requires size > 0 && a == JumpPageCorrected(idx, size as real) && b == JumpPage(idx, size as real)
    ensures b <= a
  {
    var s := size as real;
    calc {
      (b - 1) as real * s;
    <=
      idx as real;
    <
      (idx + 1) as real;
    <=
      a as real * s;
    }
    MulLtCancel((b - 1) as real, a as real, s);
  }
}
