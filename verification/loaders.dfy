/** Question ingestion (src/data/loaders.js): coercion helpers, index
    normalization, citation gathering, `normalizeQuestion`, the merge of
    several payloads by id, and the cluster annotation. */
module Loaders {
  import opened Wrappers
  import opened Js
  import opened Questions
  import Seqs
  import Sorting
  import Utils

  /** What the loader calls but does not define: the engine's number/string
      conversions, `decodeHtmlEntities` (applied to `value || ""`), and the two
      presentation rules `evaluateAiChangedLabel` and `resolveAiDisplayText`. */
  datatype Env = Env(
    engine: Engine,
    decodeHtmlEntities: Json -> string,
    evaluateAiChangedLabel: (Json, seq<int>, seq<int>) -> Json,
    resolveAiDisplayText: (Json, string) -> Json)

  // ---------------------------------------------------------------------
  // toNumberOrNull, cleanText

  /** `toNumberOrNull(v)`: the number `Number(v)` when it is finite, else
      `null`. `Number(null)` is 0, so `null` becomes 0 and not `null`. */
  function ToNumberOrNull(e: Engine, v: Json): (r: Option<real>)
    ensures v.Null? ==> r == Some(0.0)
    ensures v.Undefined? ==> r == None
    ensures v.Number? ==> (r.Some? <==> v.n.Finite?)
    ensures v.Number? && v.n.Finite? ==> r == Some(v.n.value)
    ensures v.Bool? ==> r == Some(if v.b then 1.0 else 0.0)
  {
    var n := ToNumber(e, v);
    if IsFinite(n) then Some(n.value) else None
  }

  /** `cleanText(v)`: entity decoding of `v || ""`, then `normSpace`. The
      result is the words of the decoded text joined by single spaces: it
      has no white space at either end and no two white-space characters in
      a row, and keeps the decoded text's other characters. */
  function CleanText(env: Env, v: Json): (r: string)
    ensures Utils.IsNormalized(r)
    ensures Utils.NonSpace(r) == Utils.NonSpace(env.decodeHtmlEntities(Or(v, Str(""))))
  {
    Utils.NormSpace(env.decodeHtmlEntities(Or(v, Str(""))))
  }

  /** The cleaned text is the words of the decoded text joined by single
      spaces. */
  lemma CleanTextWords(env: Env, v: Json)
    ensures CleanText(env, v) == Seqs.Join(" ", Utils.Words(env.decodeHtmlEntities(Or(v, Str("")))))
  {
    Utils.NormSpaceIsJoinedWords(env.decodeHtmlEntities(Or(v, Str(""))));
  }

  /** Every falsy value cleans to the same text as the empty string. */
  lemma CleanTextOfFalsy(env: Env, v: Json)
    requires !Truthy(v)
    ensures CleanText(env, v) == CleanText(env, Str(""))
  {
  }

  /** `cleanText(String(v || ""))`. */
  function CleanString(env: Env, v: Json): (r: string)
    ensures Utils.IsNormalized(r)
  {
    CleanText(env, Str(ToString(env.engine, Or(v, Str("")))))
  }

  /** `s || null` for a string. */
  function OrNull(s: string): (r: Option<string>)
    ensures r.None? <==> s == ""
    ensures r.Some? ==> r.value == s
  {
    if s == "" then None else Some(s)
  }

  // ---------------------------------------------------------------------
  // normalizeIndices

  /** `indices.map(Number).filter(Number.isInteger)`, as integers. */
  function IntegerEntries(e: Engine, items: seq<Json>): (r: seq<int>)
    ensures |r| <= |items|
  {
    if |items| == 0 then []
    else
      var n := ToNumber(e, items[0]);
      (if IsInteger(n) then [IntOf(n)] else []) + IntegerEntries(e, items[1..])
  }

  ghost predicate Ascending(xs: seq<int>) {
    forall i, j :: 0 <= i < j < |xs| ==> xs[i] <= xs[j]
  }

  /** `xs.sort((a, b) => a - b)` on integers. */
  function SortAscending(xs: seq<int>): (r: seq<int>)
    ensures Ascending(r)
    ensures multiset(r) == multiset(xs)
    ensures |r| == |xs|
  {
    Sorting.SortBy(xs, (x: int) => x as real)
  }

  /** `xs` with `d` added to every element. */
  function Shift(xs: seq<int>, d: int): (r: seq<int>)
    ensures |r| == |xs|
    ensures forall i :: 0 <= i < |xs| ==> r[i] == xs[i] + d
  {
    seq(|xs|, i requires 0 <= i < |xs| => xs[i] + d)
  }

  /** The guard of the 1-based reading: a positive answer count and every
      value in `[1, answerCount]` (which already excludes 0). */
  predicate OneBased(xs: seq<int>, answerCount: int) {
    answerCount > 0
    && (forall i :: 0 <= i < |xs| ==> 1 <= xs[i] <= answerCount)
    && 0 !in xs
  }

  /** The last step of `normalizeIndices` on the sorted values. */
  function FromOneBased(sorted: seq<int>, answerCount: int): (r: seq<int>)
    ensures |r| == |sorted|
  {
    if |sorted| == 0 then []
    else if OneBased(sorted, answerCount) then Shift(sorted, -1)
    else sorted
  }

  /** `normalizeIndices(indices, answerCount)`: the integer-valued entries,
      sorted ascending with duplicates kept, and shifted down by one exactly
      when they all read as 1-based indices of the answers. */
  function NormalizeIndices(e: Engine, indices: Json, answerCount: int): (r: seq<int>)
    ensures !indices.Arr? ==> r == []
    ensures indices.Arr? ==> |r| == |IntegerEntries(e, indices.items)|
    ensures Ascending(r)
    ensures indices.Arr? && OneBased(IntegerEntries(e, indices.items), answerCount) ==>
              multiset(Shift(r, 1)) == multiset(IntegerEntries(e, indices.items))
              && forall i :: 0 <= i < |r| ==> 0 <= r[i] < answerCount
    ensures indices.Arr? && !OneBased(IntegerEntries(e, indices.items), answerCount) ==>
              multiset(r) == multiset(IntegerEntries(e, indices.items))
  {
    if !indices.Arr? then []
    else
      var ints := IntegerEntries(e, indices.items);
      var sorted := SortAscending(ints);
      OneBasedSameElements(ints, sorted, answerCount);
      OneBasedSameElements(sorted, ints, answerCount);
      FromOneBasedFacts(sorted, answerCount);
      FromOneBased(sorted, answerCount)
  }

  lemma FromOneBasedFacts(sorted: seq<int>, answerCount: int)
    requires Ascending(sorted)
    ensures Ascending(FromOneBased(sorted, answerCount))
    ensures OneBased(sorted, answerCount) ==>
              Shift(FromOneBased(sorted, answerCount), 1) == sorted
              && forall i :: 0 <= i < |sorted| ==> 0 <= FromOneBased(sorted, answerCount)[i] < answerCount
    ensures !OneBased(sorted, answerCount) ==> FromOneBased(sorted, answerCount) == sorted
  {
    if |sorted| > 0 && OneBased(sorted, answerCount) {
      assert Shift(Shift(sorted, -1), 1) == sorted;
    }
  }

  /** The 1-based guard depends only on the values, not on their order. */
  lemma OneBasedSameElements(a: seq<int>, b: seq<int>, answerCount: int)
    requires multiset(a) == multiset(b)
    ensures OneBased(a, answerCount) ==> OneBased(b, answerCount)
  {
    if OneBased(a, answerCount) {
      forall i | 0 <= i < |b| ensures 1 <= b[i] <= answerCount {
        assert b[i] in multiset(a);
        var k :| 0 <= k < |a| && a[k] == b[i];
      }
      assert 0 !in multiset(a);
    }
  }

  /** The JSON array `[x, y]` of two integer indices. */
  function IndexPair(x: int, y: int): Json
  {
    Arr([Number(Finite(x as real)), Number(Finite(y as real))])
  }

  /** The normalization is not idempotent: two indices `2 <= x < y <= n`
      with `n` answers read as 1-based and move down by one, and the result
      `[x - 1, y - 1]` reads as 1-based once more; `[2, 3]` with four answers
      becomes `[1, 2]` and then `[0, 1]`. */
  lemma NormalizeIndicesNotIdempotent(e: Engine, x: int, y: int, n: int)
    requires 2 <= x < y <= n
    ensures NormalizeIndices(e, IndexPair(x, y), n) == [x - 1, y - 1]
    ensures NormalizeIndices(e, IndexPair(x - 1, y - 1), n) == [x - 2, y - 2]
  {
    NormalizeOneBasedPair(e, x, y, n);
    NormalizeShiftedPair(e, x, y, n);
  }

  lemma NormalizeShiftedPair(e: Engine, x: int, y: int, n: int)
    requires 2 <= x < y <= n
    ensures NormalizeIndices(e, IndexPair(x - 1, y - 1), n) == [x - 2, y - 2]
  {
    NormalizeOneBasedPair(e, x - 1, y - 1, n);
  }

  lemma NormalizeOneBasedPair(e: Engine, x: int, y: int, n: int)
    requires 1 <= x < y <= n
    ensures NormalizeIndices(e, IndexPair(x, y), n) == [x - 1, y - 1]
  {
    IntegerPair(e, x, y);
    SortedPairIsFixed(x, y);
    OneBasedPair(x, y, n);
  }

  lemma IntegerPair(e: Engine, x: int, y: int)
    ensures IntegerEntries(e, [Number(Finite(x as real)), Number(Finite(y as real))]) == [x, y]
  {
    var a := [Number(Finite(x as real)), Number(Finite(y as real))];
    assert IsInteger(Finite(x as real)) && IntOf(Finite(x as real)) == x;
    assert IsInteger(Finite(y as real)) && IntOf(Finite(y as real)) == y;
    assert a[1..] == [Number(Finite(y as real))];
    assert a[1..][1..] == [];
  }

  lemma OneBasedPair(x: int, y: int, n: int)
    requires 1 <= x < y <= n
    ensures FromOneBased([x, y], n) == [x - 1, y - 1]
  {
    assert OneBased([x, y], n);
    var s := Shift([x, y], -1);
    assert s[0] == x - 1 && s[1] == y - 1;
  }

  /** An ascending pair sorts to itself. */
  lemma SortedPairIsFixed(x: int, y: int)
    requires x < y
    ensures SortAscending([x, y]) == [x, y]
  {
    var r := SortAscending([x, y]);
    assert x in multiset(r) && y in multiset(r);
    assert r[0] in multiset([x, y]) && r[1] in multiset([x, y]);
  }

  // ---------------------------------------------------------------------
  // wrong-option explanations and maintenance reasons

  /** One entry of `explainer.wrongOptionExplanations`: kept when its cleaned
      `whyWrong` is non-empty and `Number(answerIndex)` is an integer that
      reads as a 1-based index in `[1, answerCount]` (tried first) or a
      0-based one in `[0, answerCount)`. */
  function WrongOptionOf(env: Env, entry: Json, answerCount: int): (r: Option<WrongOption>)
    ensures r.Some? ==> r.value.whyWrong != "" && 0 <= r.value.answerIndex < answerCount
    ensures r.Some? <==>
              CleanText(env, Or(Get(entry, "whyWrong"), Str(""))) != ""
              && IsInteger(ToNumber(env.engine, Get(entry, "answerIndex")))
              && answerCount > 0
              && 0 <= IntOf(ToNumber(env.engine, Get(entry, "answerIndex"))) <= answerCount
    ensures r.Some? ==>
              var raw := IntOf(ToNumber(env.engine, Get(entry, "answerIndex")));
              r.value.answerIndex == (if raw >= 1 then raw - 1 else raw)
              && r.value.whyWrong == CleanText(env, Or(Get(entry, "whyWrong"), Str("")))
  {
    var whyWrong := OrNull(CleanText(env, Or(Get(entry, "whyWrong"), Str(""))));
    if whyWrong.None? then None
    else
      var rawIndex := ToNumber(env.engine, Get(entry, "answerIndex"));
      if !IsInteger(rawIndex) then None
      else
        var n := IntOf(rawIndex);
        if n >= 1 && n <= answerCount then Some(WrongOption(n - 1, whyWrong.value))
        else if n >= 0 && n < answerCount then Some(WrongOption(n, whyWrong.value))
        else None
  }

  function WrongOptionOfFn(env: Env, answerCount: int): Json -> Option<WrongOption> {
    (entry: Json) => WrongOptionOf(env, entry, answerCount)
  }

  /** The kept explanations of `entries`, in order
      (`map(...).filter(Boolean)`): the explanation of the entry at position
      `i` follows those of the kept entries before it. */
  function WrongOptionList(env: Env, entries: seq<Json>, answerCount: int): (r: seq<WrongOption>)
    ensures Seqs.ChosenInOrder(r, entries, WrongOptionOfFn(env, answerCount))
    ensures forall w :: w in r ==> w.whyWrong != "" && 0 <= w.answerIndex < answerCount
  {
    Seqs.ChooseInOrder(entries, WrongOptionOfFn(env, answerCount));
    Seqs.ChooseMembers(entries, WrongOptionOfFn(env, answerCount));
    Seqs.Choose(entries, WrongOptionOfFn(env, answerCount))
  }

  /** `aiWrongOptionExplanations`: the kept explanations of the list in
      order, when it is an array, and none otherwise. Every kept
      explanation has a non-empty reason and a 0-based index below the
      answer count. */
  function WrongOptionExplanations(env: Env, explainer: Json, answerCount: int): (r: seq<WrongOption>)
    ensures Get(explainer, "wrongOptionExplanations").Arr? ==>
              Seqs.ChosenInOrder(r, Get(explainer, "wrongOptionExplanations").items, WrongOptionOfFn(env, answerCount))
    ensures !Get(explainer, "wrongOptionExplanations").Arr? ==> r == []
    ensures forall w :: w in r ==> w.whyWrong != "" && 0 <= w.answerIndex < answerCount
  {
    var list := Get(explainer, "wrongOptionExplanations");
    if list.Arr? then WrongOptionList(env, list.items, answerCount) else []
  }

  /** `xs.map(x => cleanText(String(x || "")))`. */
  function CleanedTexts(env: Env, xs: seq<Json>): (c: seq<string>)
    ensures |c| == |xs|
    ensures forall i :: 0 <= i < |xs| ==> c[i] == CleanString(env, xs[i])
  {
    seq(|xs|, i requires 0 <= i < |xs| => CleanString(env, xs[i]))
  }

  /** `Boolean(s)` for a string. */
  predicate NonEmptyText(s: string) {
    s != ""
  }

  /** `xs.map(x => cleanText(String(x || ""))).filter(Boolean)`: the
      non-empty cleaned texts, in the order of their elements. */
  function CleanedNonEmpty(env: Env, xs: seq<Json>): (r: seq<string>)
    ensures Seqs.FilteredInOrder(r, CleanedTexts(env, xs), NonEmptyText)
    ensures forall s :: s in r <==> s != "" && exists x :: x in xs && CleanString(env, x) == s
    ensures forall s :: s in r ==> Utils.IsNormalized(s)
  {
    var cleaned := CleanedTexts(env, xs);
    CleanedMembers(env, xs, cleaned);
    Seqs.FilterInOrder(cleaned, NonEmptyText);
    Seqs.Filter(cleaned, NonEmptyText)
  }

  /** The cleaned strings of a list are those of its elements. */
  lemma CleanedMembers(env: Env, xs: seq<Json>, cleaned: seq<string>)
    requires |cleaned| == |xs| && forall i :: 0 <= i < |xs| ==> cleaned[i] == CleanString(env, xs[i])
    ensures forall s :: s in cleaned <==> exists x :: x in xs && CleanString(env, x) == s
    ensures forall s :: s in cleaned ==> Utils.IsNormalized(s)
  {
    forall s | s in cleaned ensures exists x :: x in xs && CleanString(env, x) == s {
      var i :| 0 <= i < |cleaned| && cleaned[i] == s;
      assert xs[i] in xs;
    }
    forall s | exists x :: x in xs && CleanString(env, x) == s ensures s in cleaned {
      var x :| x in xs && CleanString(env, x) == s;
      var i :| 0 <= i < |xs| && xs[i] == x;
      assert cleaned[i] == s;
    }
  }

  /** `aiMaintenanceReasons`: the top-level list when it is an array, else
      `aiAudit.maintenance.reasons` when that is one, else none. */
  function MaintenanceReasons(env: Env, q: Json): (r: seq<string>)
    ensures forall s :: s in r ==> s != "" && Utils.IsNormalized(s)
    ensures Get(q, "aiMaintenanceReasons").Arr? ==>
              r == CleanedNonEmpty(env, Get(q, "aiMaintenanceReasons").items)
    ensures !Get(q, "aiMaintenanceReasons").Arr? && Path(q, ["aiAudit", "maintenance", "reasons"]).Arr? ==>
              r == CleanedNonEmpty(env, Path(q, ["aiAudit", "maintenance", "reasons"]).items)
    ensures !Get(q, "aiMaintenanceReasons").Arr? && !Path(q, ["aiAudit", "maintenance", "reasons"]).Arr? ==> r == []
  {
    var top := Get(q, "aiMaintenanceReasons");
    var nested := Path(q, ["aiAudit", "maintenance", "reasons"]);
    if top.Arr? then CleanedNonEmpty(env, top.items)
    else if nested.Arr? then CleanedNonEmpty(env, nested.items)
    else []
  }
}
