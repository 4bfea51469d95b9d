/** Text handling of src/ui/render.js that ends up in the page: `escapeHtml`
    and the segmentation `highlightText` performs before it creates text
    nodes and `<mark>` elements. Letter case is folded for ASCII letters
    only. */
module Markup {
  import opened Js

  // ---------------------------------------------------------------------
  // escapeHtml

  /** `s.replaceAll(c, rep)` for a one-character pattern and a replacement
      without `$` patterns. */
  function ReplaceAll(s: string, c: char, rep: string): string {
    if |s| == 0 then "" else (if s[0] == c then rep else [s[0]]) + ReplaceAll(s[1..], c, rep)
  }

  lemma {:induction false} ReplaceAllConcat(a: string, b: string, c: char, rep: string)
    ensures ReplaceAll(a + b, c, rep) == ReplaceAll(a, c, rep) + ReplaceAll(b, c, rep)
  {
    if |a| > 0 {
      assert (a + b)[1..] == a[1..] + b;
      ReplaceAllConcat(a[1..], b, c, rep);
    } else {
      assert a + b == b;
    }
  }

  lemma ReplaceAllSingle(x: char, c: char, rep: string)
    ensures ReplaceAll([x], c, rep) == if x == c then rep else [x]
  {
    assert [x][1..] == [];
  }

  lemma {:induction false} ReplaceAllAbsent(s: string, c: char, rep: string)
    requires c !in s
    ensures ReplaceAll(s, c, rep) == s
  {
    if |s| > 0 {
      ReplaceAllAbsent(s[1..], c, rep);
      assert s == [s[0]] + s[1..];
    }
  }

  /** The five `replaceAll` passes of `escapeHtml`, `&` first. */
  function EscapePasses(s: string): string {
    ReplaceAll(ReplaceAll(ReplaceAll(ReplaceAll(ReplaceAll(s,
      '&', "&amp;"), '<', "&lt;"), '>', "&gt;"), '"', "&quot;"), '\'', "&#39;")
  }

  /** The entity each character becomes, or the character itself. */
  function EscapeChar(c: char): string {
    match c
    case '&' => "&amp;"
    case '<' => "&lt;"
    case '>' => "&gt;"
    case '"' => "&quot;"
    case '\'' => "&#39;"
    case _ => [c]
  }

  /** Every character replaced by its escape, in one left-to-right pass. */
  function EscapeEach(s: string): string {
    if |s| == 0 then "" else EscapeChar(s[0]) + EscapeEach(s[1..])
  }

  lemma EscapePassesConcat(a: string, b: string)
    ensures EscapePasses(a + b) == EscapePasses(a) + EscapePasses(b)
  {
    var a1, b1 := ReplaceAll(a, '&', "&amp;"), ReplaceAll(b, '&', "&amp;");
    ReplaceAllConcat(a, b, '&', "&amp;");
    var a2, b2 := ReplaceAll(a1, '<', "&lt;"), ReplaceAll(b1, '<', "&lt;");
    ReplaceAllConcat(a1, b1, '<', "&lt;");
    var a3, b3 := ReplaceAll(a2, '>', "&gt;"), ReplaceAll(b2, '>', "&gt;");
    ReplaceAllConcat(a2, b2, '>', "&gt;");
    var a4, b4 := ReplaceAll(a3, '"', "&quot;"), ReplaceAll(b3, '"', "&quot;");
    ReplaceAllConcat(a3, b3, '"', "&quot;");
    ReplaceAllConcat(a4, b4, '\'', "&#39;");
  }

  /** The passes leave an entity written by an earlier pass alone. */
  lemma EscapePassesChar(c: char)
    ensures EscapePasses([c]) == EscapeChar(c)
  {
    if c == '&' {
      ReplaceAllSingle(c, '&', "&amp;");
      LaterPassesKeep("&amp;");
    } else {
      ReplaceAllSingle(c, '&', "&amp;");
      if c == '<' {
        ReplaceAllSingle(c, '<', "&lt;");
        ReplaceAllAbsent("&lt;", '>', "&gt;");
        ReplaceAllAbsent("&lt;", '"', "&quot;");
        ReplaceAllAbsent("&lt;", '\'', "&#39;");
      } else {
        ReplaceAllSingle(c, '<', "&lt;");
        LastPassesChar(c);
      }
    }
  }

  /** The passes after the first leave `&amp;` alone. */
  lemma LaterPassesKeep(e: string)
    requires e == "&amp;"
    ensures ReplaceAll(ReplaceAll(ReplaceAll(ReplaceAll(e, '<', "&lt;"), '>', "&gt;"), '"', "&quot;"), '\'', "&#39;") == e
  {
    ReplaceAllAbsent(e, '<', "&lt;");
    ReplaceAllAbsent(e, '>', "&gt;");
    ReplaceAllAbsent(e, '"', "&quot;");
    ReplaceAllAbsent(e, '\'', "&#39;");
  }

  /** The last three passes on a character other than `&` and `<`. */
  lemma LastPassesChar(c: char)
    requires c != '&' && c != '<'
    ensures ReplaceAll(ReplaceAll(ReplaceAll([c], '>', "&gt;"), '"', "&quot;"), '\'', "&#39;") == EscapeChar(c)
  {
    ReplaceAllSingle(c, '>', "&gt;");
    if c == '>' {
      ReplaceAllAbsent("&gt;", '"', "&quot;");
      ReplaceAllAbsent("&gt;", '\'', "&#39;");
    } else {
      ReplaceAllSingle(c, '"', "&quot;");
      if c == '"' {
        ReplaceAllAbsent("&quot;", '\'', "&#39;");
      } else {
        ReplaceAllSingle(c, '\'', "&#39;");
      }
    }
  }

  /** Replacing `&` first is what makes the chain of passes agree with
      escaping each character once. */
  lemma {:induction false} EscapePassesAreEscapeEach(s: string)
    ensures EscapePasses(s) == EscapeEach(s)
  {
    if |s| > 0 {
      assert s == [s[0]] + s[1..];
      EscapePassesConcat([s[0]], s[1..]);
      EscapePassesChar(s[0]);
      EscapePassesAreEscapeEach(s[1..]);
    }
  }

  /** `s[i..]` starts with `e`. */
  predicate StartsWithAt(s: string, i: int, e: string) {
    0 <= i && i + |e| <= |s| && s[i..i + |e|] == e
  }

  /** One of the five entities `escapeHtml` writes starts at position `i`. */
  predicate EntityAt(s: string, i: int) {
    || StartsWithAt(s, i, "&amp;") || StartsWithAt(s, i, "&lt;") || StartsWithAt(s, i, "&gt;")
    || StartsWithAt(s, i, "&quot;") || StartsWithAt(s, i, "&#39;")
  }

  /** The characters `escapeHtml` removes. */
  predicate Special(c: char) {
    c == '<' || c == '>' || c == '"' || c == '\''
  }

  /** An escaped text holds no markup character, and each of its `&` starts
      an entity. */
  ghost predicate Escaped(r: string) {
    && (forall i :: 0 <= i < |r| ==> !Special(r[i]))
    && (forall i :: 0 <= i < |r| && r[i] == '&' ==> EntityAt(r, i))
  }

  /** An escaped piece in front of an escaped text keeps it escaped. */
  lemma EscapedPrepend(x: string, rest: string)
    requires Escaped(x) && Escaped(rest)
    ensures Escaped(x + rest)
  {
    var r := x + rest;
    forall i | 0 <= i < |r| && r[i] == '&'
      ensures EntityAt(r, i)
    {
      if i < |x| {
        assert EntityAt(x, i);
        EntityLeft(x, rest, i);
      } else {
        assert rest[i - |x|] == '&';
        EntityRight(x, rest, i - |x|);
      }
    }
  }

  /** An entity of `x` at `i` is one of `x + rest` at `i`. */
  lemma EntityLeft(x: string, rest: string, i: int)
    requires 0 <= i < |x| && EntityAt(x, i)
    ensures EntityAt(x + rest, i)
  {
    if StartsWithAt(x, i, "&amp;") { StartsWithLeft(x, rest, i, "&amp;"); }
    else if StartsWithAt(x, i, "&lt;") { StartsWithLeft(x, rest, i, "&lt;"); }
    else if StartsWithAt(x, i, "&gt;") { StartsWithLeft(x, rest, i, "&gt;"); }
    else if StartsWithAt(x, i, "&quot;") { StartsWithLeft(x, rest, i, "&quot;"); }
    else { StartsWithLeft(x, rest, i, "&#39;"); }
  }

  /** An entity of `rest` at `i` is one of `x + rest` at `|x| + i`. */
  lemma EntityRight(x: string, rest: string, i: int)
    requires 0 <= i < |rest| && EntityAt(rest, i)
    ensures EntityAt(x + rest, |x| + i)
  {
    if StartsWithAt(rest, i, "&amp;") { StartsWithRight(x, rest, i, "&amp;"); }
    else if StartsWithAt(rest, i, "&lt;") { StartsWithRight(x, rest, i, "&lt;"); }
    else if StartsWithAt(rest, i, "&gt;") { StartsWithRight(x, rest, i, "&gt;"); }
    else if StartsWithAt(rest, i, "&quot;") { StartsWithRight(x, rest, i, "&quot;"); }
    else { StartsWithRight(x, rest, i, "&#39;"); }
  }

  lemma StartsWithLeft(x: string, rest: string, i: int, e: string)
    requires StartsWithAt(x, i, e)
    ensures StartsWithAt(x + rest, i, e)
  {
    assert (x + rest)[i..i + |e|] == x[i..i + |e|];
  }

  lemma StartsWithRight(x: string, rest: string, i: int, e: string)
    requires StartsWithAt(rest, i, e)
    ensures StartsWithAt(x + rest, |x| + i, e)
  {
    assert (x + rest)[|x| + i..|x| + i + |e|] == rest[i..i + |e|];
  }

  lemma EscapeCharEscaped(c: char)
    ensures Escaped(EscapeChar(c))
  {
    var x := EscapeChar(c);
    assert x[0] == '&' ==> EntityAt(x, 0);
  }

  lemma {:induction false} EscapeEachEscaped(s: string)
    ensures Escaped(EscapeEach(s))
  {
    if |s| > 0 {
      EscapeCharEscaped(s[0]);
      EscapeEachEscaped(s[1..]);
      EscapedPrepend(EscapeChar(s[0]), EscapeEach(s[1..]));
    }
  }

  /** `escapeHtml(text)` for a string argument. */
  function EscapeHtml(s: string): (r: string)
    ensures r == EscapeEach(s)
    ensures forall i :: 0 <= i < |r| ==> !Special(r[i])
    ensures forall i :: 0 <= i < |r| && r[i] == '&' ==> EntityAt(r, i)
  {
    EscapePassesAreEscapeEach(s);
    EscapeEachEscaped(s);
    EscapePasses(s)
  }

  /** `escapeHtml(text)`: `String(text || "")` escaped, so every falsy
      argument gives the empty string. */
  function EscapeHtmlOf(e: Engine, text: Json): (r: string)
    ensures !Truthy(text) ==> r == ""
    ensures Truthy(text) ==> r == EscapeHtml(ToString(e, text))
  {
    EscapeHtml(ToString(e, Or(text, Str(""))))
  }

  /** What a browser reads back from an escaped text: each entity is one
      character again; a `&` starting no entity stays. */
  function Unescape(r: string): string
    decreases |r|
  {
    if |r| == 0 then ""
    else if r[0] != '&' then [r[0]] + Unescape(r[1..])
    else if StartsWithAt(r, 0, "&amp;") then "&" + Unescape(r[5..])
    else if StartsWithAt(r, 0, "&lt;") then "<" + Unescape(r[4..])
    else if StartsWithAt(r, 0, "&gt;") then ">" + Unescape(r[4..])
    else if StartsWithAt(r, 0, "&quot;") then "\"" + Unescape(r[6..])
    else if StartsWithAt(r, 0, "&#39;") then "'" + Unescape(r[5..])
    else "&" + Unescape(r[1..])
  }

  /** `r` does not start with `e` when they differ at position `k`. */
  lemma DiffersAt(r: string, e: string, k: nat)
    requires k < |e| && k < |r| && r[k] != e[k]
    ensures !StartsWithAt(r, 0, e)
  {
  }

  /** `r` starts with the entity `e` followed by `rest`. */
  lemma EntityThenRest(e: string, rest: string)
    ensures StartsWithAt(e + rest, 0, e) && (e + rest)[|e|..] == rest
  {
    assert (e + rest)[0..|e|] == e;
  }

  lemma UnescapeChar(c: char, rest: string)
    ensures Unescape(EscapeChar(c) + rest) == [c] + Unescape(rest)
  {
    var e := EscapeChar(c);
    var r := e + rest;
    EntityThenRest(e, rest);
    if c == '<' || c == '>' {
      DiffersAt(r, "&amp;", 1);
    } else if c == '"' {
      DiffersAt(r, "&amp;", 1);
      DiffersAt(r, "&lt;", 1);
      DiffersAt(r, "&gt;", 1);
    } else if c == '\'' {
      DiffersAt(r, "&amp;", 1);
      DiffersAt(r, "&lt;", 1);
      DiffersAt(r, "&gt;", 1);
      DiffersAt(r, "&quot;", 1);
    } else if c != '&' {
      assert r[0] == c;
    }
    if c == '>' {
      DiffersAt(r, "&lt;", 1);
    }
  }

  /** Escaping loses nothing: the page shows the original text. */
  lemma {:induction false} UnescapeEscapeHtml(s: string)
    ensures Unescape(EscapeHtml(s)) == s
  {
    if |s| > 0 {
      UnescapeChar(s[0], EscapeEach(s[1..]));
      UnescapeEscapeHtml(s[1..]);
      assert s == [s[0]] + s[1..];
    }
  }

  // ---------------------------------------------------------------------
  // highlightText

  /** A text node or a `<mark class="hl">` element. */
  datatype Segment = Text(text: string) | Mark(text: string)

  /** The text content of the segments in order. */
  function Concat(segs: seq<Segment>): string {
    if |segs| == 0 then "" else Concat(segs[..|segs| - 1]) + segs[|segs| - 1].text
  }

  /** `needle` occurs in `hay` at position `j`. */
  predicate MatchAt(hay: string, needle: string, j: int) {
    0 <= j && j + |needle| <= |hay| && hay[j..j + |needle|] == needle
  }

  /** `hay.indexOf(needle, from)`, for a start position within `hay`. */
  function IndexOf(hay: string, needle: string, from: nat): (r: int)
    requires from <= |hay|
    ensures r >= 0 ==> from <= r && MatchAt(hay, needle, r)
    ensures r >= 0 ==> forall j :: from <= j < r ==> !MatchAt(hay, needle, j)
    ensures r < 0 ==> r == -1 && forall j :: from <= j ==> !MatchAt(hay, needle, j)
    decreases |hay| - from
  {
    if from + |needle| > |hay| then -1
    else if hay[from..from + |needle|] == needle then from
    else IndexOf(hay, needle, from + 1)
  }

  /** `needle` does not occur in `hay`. */
  ghost predicate NoMatch(hay: string, needle: string) {
    forall j :: !MatchAt(hay, needle, j)
  }

  /** A match-free stretch of the lower-cased text, seen as its own string. */
  lemma NoMatchInSlice(raw: string, needle: string, a: int, b: int)
    requires 0 <= a <= b <= |raw|
    requires forall j :: a <= j && j + |needle| <= b ==> !MatchAt(LowerCase(raw), needle, j)
    ensures NoMatch(LowerCase(raw[a..b]), needle)
  {
    var lower := LowerCase(raw);
    forall j | MatchAt(LowerCase(raw[a..b]), needle, j)
      ensures false
    {
      assert LowerCase(raw[a..b])[j..j + |needle|] == lower[a + j..a + j + |needle|];
      assert MatchAt(lower, needle, a + j);
    }
  }

  /** Marked segments equal `q` up to letter case; plain segments are not
      empty and do not contain `needle`. */
  ghost predicate SegmentsOk(segs: seq<Segment>, q: string, needle: string) {
    && (forall k :: 0 <= k < |segs| && segs[k].Mark? ==> FoldEqual(segs[k].text, q))
    && (forall k :: 0 <= k < |segs| && segs[k].Text? ==> segs[k].text != "" && NoMatch(LowerCase(segs[k].text), needle))
  }

  /** Where segment `k` starts in the text the segments spell out. */
  function Pos(segs: seq<Segment>, k: int): nat
    requires 0 <= k <= |segs|
  {
    |Concat(segs[..k])|
  }

  /** Every marked segment is a match of `needle` in `lower`, at its own
      position and of the needle's length. */
  ghost predicate MarksAtMatches(segs: seq<Segment>, lower: string, needle: string) {
    forall k :: 0 <= k < |segs| && segs[k].Mark? ==>
      |segs[k].text| == |needle| && MatchAt(lower, needle, Pos(segs, k))
  }

  /** No match of `needle` in `lower` starts inside a plain segment. */
  ghost predicate TextsMatchFree(segs: seq<Segment>, lower: string, needle: string) {
    forall k :: 0 <= k < |segs| && segs[k].Text? ==>
      forall j :: Pos(segs, k) <= j < Pos(segs, k) + |segs[k].text| ==> !MatchAt(lower, needle, j)
  }

  /** No two plain segments follow each other. */
  predicate NoAdjacentTexts(segs: seq<Segment>) {
    forall k :: 0 <= k < |segs| - 1 ==> segs[k].Mark? || segs[k + 1].Mark?
  }

  /** The segmentation `highlightText` produces for a non-blank query: it
      spells out `raw`, plain segments are not empty, and, in the
      lower-cased text, marks sit exactly on matches of the needle while no
      match starts inside a plain segment, and no two plain segments are
      adjacent. So each mark is the leftmost match after the previous
      mark. */
  ghost predicate Highlighted(segs: seq<Segment>, raw: string, needle: string) {
    && Concat(segs) == raw
    && (forall k :: 0 <= k < |segs| && segs[k].Text? ==> segs[k].text != "")
    && MarksAtMatches(segs, LowerCase(raw), needle)
    && TextsMatchFree(segs, LowerCase(raw), needle)
    && NoAdjacentTexts(segs)
  }

  /** The segments `highlightText(el, text, query)` appends to `el`. With a
      blank query the text is one plain segment. Otherwise the segments
      spell out the text, every marked segment equals the trimmed query up
      to letter case, no plain segment is empty or contains the query, and
      the marks are the leftmost non-overlapping matches (`Highlighted`,
      which admits one segmentation only, see `HighlightedUnique`). */
  method HighlightText(raw: string, query: string) returns (segs: seq<Segment>)
    ensures Concat(segs) == raw
    ensures Trim(query) == "" ==> segs == [Text(raw)]
    ensures Trim(query) != "" ==> SegmentsOk(segs, Trim(query), LowerCase(Trim(query)))
    ensures Trim(query) != "" ==> Highlighted(segs, raw, LowerCase(Trim(query)))
  {
    var q := Trim(query);
    if q == "" {
      segs := [Text(raw)];
      assert Concat(segs) == Concat([]) + raw;
      return;
    }
    var needle := LowerCase(q);
    var start := 0;
    segs := [];
    while start < |raw|
      invariant Covers(segs, raw, q, start)
      decreases |raw| - start
    {
      segs, start := NextSegments(raw, q, segs, start);
    }
  }

  /** The positional facts of `Highlighted` for a prefix of the segments. */
  ghost predicate Placed(segs: seq<Segment>, raw: string, needle: string) {
    && (forall k :: 0 <= k < |segs| && segs[k].Text? ==> segs[k].text != "")
    && MarksAtMatches(segs, LowerCase(raw), needle)
    && TextsMatchFree(segs, LowerCase(raw), needle)
    && NoAdjacentTexts(segs)
  }

  /** The state between two rounds of the loop of `highlightText`: the
      segments spell out `raw` up to `upto`, are well-formed and placed,
      and end in a mark unless they are empty or the text is done. */
  ghost predicate Covers(segs: seq<Segment>, raw: string, q: string, upto: int) {
    && 0 <= upto <= |raw| && Concat(segs) == raw[..upto]
    && SegmentsOk(segs, q, LowerCase(q)) && Placed(segs, raw, LowerCase(q))
    && (upto < |raw| && |segs| > 0 ==> segs[|segs| - 1].Mark?)
  }

  /** One round of the loop of `highlightText`: the text up to the next
      match from `start`, then the match, or the rest of the text when
      there is no further match. */
  method NextSegments(raw: string, q: string, segs: seq<Segment>, start: nat) returns (segs': seq<Segment>, start': nat)
    requires q != "" && start < |raw| && Covers(segs, raw, q, start)
    ensures start < start' <= |raw|
    ensures Covers(segs', raw, q, start')
  {
    var idx := IndexOf(LowerCase(raw), LowerCase(q), start);
    if idx < 0 {
      LastTextStep(raw, q, segs, start);
      segs', start' := segs + [Text(raw[start..|raw|])], |raw|;
    } else if idx == start {
      MarkStep(raw, q, segs, idx);
      segs', start' := segs + [Mark(raw[idx..idx + |q|])], idx + |q|;
    } else {
      TextMarkStep(raw, q, segs, start, idx);
      segs', start' := segs + [Text(raw[start..idx])] + [Mark(raw[idx..idx + |q|])], idx + |q|;
    }
  }

  /** No match is left after `start`: the rest of the text closes the
      segments as one plain segment. */
  lemma LastTextStep(raw: string, q: string, segs: seq<Segment>, start: int)
    requires q != "" && 0 <= start < |raw| && Covers(segs, raw, q, start)
    requires forall j :: start <= j ==> !MatchAt(LowerCase(raw), LowerCase(q), j)
    ensures Covers(segs + [Text(raw[start..|raw|])], raw, q, |raw|)
  {
    TextStep(raw, q, segs, start, |raw|);
  }

  /** The next match lies beyond `start`: the text before it, then the
      match. */
  lemma TextMarkStep(raw: string, q: string, segs: seq<Segment>, start: int, idx: int)
    requires q != "" && 0 <= start < idx && Covers(segs, raw, q, start)
    requires MatchAt(LowerCase(raw), LowerCase(q), idx)
    requires forall j :: start <= j < idx ==> !MatchAt(LowerCase(raw), LowerCase(q), j)
    ensures Covers(segs + [Text(raw[start..idx])] + [Mark(raw[idx..idx + |q|])], raw, q, idx + |q|)
  {
    TextStep(raw, q, segs, start, idx);
    MarkStep(raw, q, segs + [Text(raw[start..idx])], idx);
  }

  /** A match-free stretch `raw[a..b]` after a mark (or at the start)
      extends the segments as one plain segment. */
  lemma TextStep(raw: string, q: string, segs: seq<Segment>, a: int, b: int)
    requires q != "" && 0 <= a < b <= |raw|
    requires forall j :: a <= j < b ==> !MatchAt(LowerCase(raw), LowerCase(q), j)
    requires Concat(segs) == raw[..a] && SegmentsOk(segs, q, LowerCase(q))
    requires Placed(segs, raw, LowerCase(q)) && (|segs| > 0 ==> segs[|segs| - 1].Mark?)
    ensures Concat(segs + [Text(raw[a..b])]) == raw[..b]
    ensures SegmentsOk(segs + [Text(raw[a..b])], q, LowerCase(q))
    ensures Placed(segs + [Text(raw[a..b])], raw, LowerCase(q))
  {
    NoMatchInSlice(raw, LowerCase(q), a, b);
    Append(segs, Text(raw[a..b]), raw, a, b, q, LowerCase(q));
  }

  /** A match at `a` extends the segments as a mark. */
  lemma MarkStep(raw: string, q: string, segs: seq<Segment>, a: int)
    requires MatchAt(LowerCase(raw), LowerCase(q), a)
    requires Concat(segs) == raw[..a] && SegmentsOk(segs, q, LowerCase(q)) && Placed(segs, raw, LowerCase(q))
    ensures Covers(segs + [Mark(raw[a..a + |q|])], raw, q, a + |q|)
  {
    var mark := raw[a..a + |q|];
    LowerSlice(raw, a, a + |q|);
    Append(segs, Mark(mark), raw, a, a + |q|, q, LowerCase(q));
    assert (segs + [Mark(mark)])[|segs|].Mark?;
  }

  /** Lower-casing commutes with taking a slice. */
  lemma LowerSlice(raw: string, a: int, b: int)
    requires 0 <= a <= b <= |raw|
    ensures LowerCase(raw[a..b]) == LowerCase(raw)[a..b]
  {
  }

  /** Appending the segment for `raw[a..b]` extends the covered prefix from
      `a` to `b` and keeps the segments well-formed: a mark must be a match
      at `a`, a plain run must hold no match start. */
  lemma Append(segs: seq<Segment>, x: Segment, raw: string, a: int, b: int, q: string, needle: string)
    requires 0 <= a <= b <= |raw| && Concat(segs) == raw[..a] && x.text == raw[a..b]
    requires SegmentsOk(segs, q, needle) && Placed(segs, raw, needle)
    requires x.Mark? ==> FoldEqual(x.text, q) && |x.text| == |needle| && MatchAt(LowerCase(raw), needle, a)
    requires x.Text? ==> x.text != "" && NoMatch(LowerCase(x.text), needle)
    requires x.Text? ==> forall j :: a <= j < b ==> !MatchAt(LowerCase(raw), needle, j)
    requires x.Text? && |segs| > 0 ==> segs[|segs| - 1].Mark?
    ensures Concat(segs + [x]) == raw[..b]
    ensures SegmentsOk(segs + [x], q, needle) && Placed(segs + [x], raw, needle)
  {
    AppendConcat(segs, x, raw, a, b);
    AppendOk(segs, x, q, needle);
    AppendMarks(segs, x, raw, a, needle);
    AppendTexts(segs, x, raw, a, b, needle);
    AppendShape(segs, x);
  }

  lemma AppendConcat(segs: seq<Segment>, x: Segment, raw: string, a: int, b: int)
    requires 0 <= a <= b <= |raw| && Concat(segs) == raw[..a] && x.text == raw[a..b]
    ensures Concat(segs + [x]) == raw[..b]
  {
    assert (segs + [x])[..|segs|] == segs;
    assert raw[..b] == raw[..a] + raw[a..b];
  }

  lemma AppendOk(segs: seq<Segment>, x: Segment, q: string, needle: string)
    requires SegmentsOk(segs, q, needle)
    requires x.Mark? ==> FoldEqual(x.text, q)
    requires x.Text? ==> x.text != "" && NoMatch(LowerCase(x.text), needle)
    ensures SegmentsOk(segs + [x], q, needle)
  {
    assert forall k :: 0 <= k < |segs| ==> (segs + [x])[k] == segs[k];
  }

  lemma AppendShape(segs: seq<Segment>, x: Segment)
    requires forall k :: 0 <= k < |segs| && segs[k].Text? ==> segs[k].text != ""
    requires NoAdjacentTexts(segs)
    requires x.Text? ==> x.text != ""
    requires x.Text? && |segs| > 0 ==> segs[|segs| - 1].Mark?
    ensures forall k :: 0 <= k < |segs| + 1 && (segs + [x])[k].Text? ==> (segs + [x])[k].text != ""
    ensures NoAdjacentTexts(segs + [x])
  {
    assert forall k :: 0 <= k < |segs| ==> (segs + [x])[k] == segs[k];
  }

  /** Appending keeps the positions of the earlier segments; the new one
      starts at the end of the old text. */
  lemma PosAppend(segs: seq<Segment>, x: Segment)
    ensures forall k :: 0 <= k <= |segs| ==> Pos(segs + [x], k) == Pos(segs, k)
    ensures Pos(segs + [x], |segs|) == |Concat(segs)|
  {
    var s' := segs + [x];
    forall k | 0 <= k <= |segs|
      ensures Pos(s', k) == Pos(segs, k)
    {
      assert s'[..k] == segs[..k];
    }
    assert segs[..|segs|] == segs;
  }

  lemma AppendMarks(segs: seq<Segment>, x: Segment, raw: string, a: int, needle: string)
    requires 0 <= a <= |raw| && Concat(segs) == raw[..a]
    requires MarksAtMatches(segs, LowerCase(raw), needle)
    requires x.Mark? ==> |x.text| == |needle| && MatchAt(LowerCase(raw), needle, a)
    ensures MarksAtMatches(segs + [x], LowerCase(raw), needle)
  {
    var s' := segs + [x];
    PosAppend(segs, x);
    forall k | 0 <= k < |s'| && s'[k].Mark?
      ensures |s'[k].text| == |needle| && MatchAt(LowerCase(raw), needle, Pos(s', k))
    {
      if k < |segs| {
        assert s'[k] == segs[k];
      }
    }
  }

  lemma AppendTexts(segs: seq<Segment>, x: Segment, raw: string, a: int, b: int, needle: string)
    requires 0 <= a <= b <= |raw| && Concat(segs) == raw[..a] && x.text == raw[a..b]
    requires TextsMatchFree(segs, LowerCase(raw), needle)
    requires x.Text? ==> forall j :: a <= j < b ==> !MatchAt(LowerCase(raw), needle, j)
    ensures TextsMatchFree(segs + [x], LowerCase(raw), needle)
  {
    var s' := segs + [x];
    PosAppend(segs, x);
    forall k | 0 <= k < |s'| && s'[k].Text?
      ensures forall j :: Pos(s', k) <= j < Pos(s', k) + |s'[k].text| ==> !MatchAt(LowerCase(raw), needle, j)
    {
      if k < |segs| {
        assert s'[k] == segs[k];
      }
    }
  }

  // ---------------------------------------------------------------------
  // The highlighting is determined

  /** The text spelled out by a list is that of a prefix followed by that
      of the rest. */
  lemma {:induction false} ConcatSplit(segs: seq<Segment>, k: int)
    requires 0 <= k <= |segs|
    ensures Concat(segs) == Concat(segs[..k]) + Concat(segs[k..])
    decreases |segs|
  {
    if k < |segs| {
      var n := |segs| - 1;
      ConcatSplit(segs[..n], k);
      assert segs[..n][..k] == segs[..k];
      assert segs[k..][..|segs[k..]| - 1] == segs[..n][k..];
    } else {
      assert segs[..k] == segs;
      assert Concat(segs[k..]) == "";
    }
  }

  /** Segment `k` is the piece of the text between its position and the
      next one. */
  lemma SegmentSpan(segs: seq<Segment>, raw: string, k: int)
    requires Concat(segs) == raw && 0 <= k < |segs|
    ensures Pos(segs, k + 1) == Pos(segs, k) + |segs[k].text| <= |raw|
    ensures segs[k].text == raw[Pos(segs, k)..Pos(segs, k + 1)]
  {
    assert segs[..k + 1][..k] == segs[..k];
    ConcatSplit(segs, k + 1);
  }

  /** With non-empty segments, a position below the end of the text
      belongs to a later segment, and the last position is the end. */
  lemma PosBounds(segs: seq<Segment>, raw: string, k: int)
    requires Concat(segs) == raw && 0 <= k <= |segs|
    requires forall i :: 0 <= i < |segs| ==> segs[i].text != ""
    ensures k < |segs| <==> Pos(segs, k) < |raw|
    decreases |segs| - k
  {
    if k < |segs| {
      SegmentSpan(segs, raw, k);
      PosBounds(segs, raw, k + 1);
    } else {
      assert segs[..k] == segs;
    }
  }

  /** Two segmentations meeting `Highlighted` that agree on their first
      `k` segments agree on segment `k` as well. */
  lemma HighlightedStep(s1: seq<Segment>, s2: seq<Segment>, raw: string, needle: string, k: int)
    requires needle != "" && Highlighted(s1, raw, needle) && Highlighted(s2, raw, needle)
    requires 0 <= k < |s1| && k < |s2| && s1[..k] == s2[..k]
    ensures s1[k] == s2[k]
  {
    var lower := LowerCase(raw);
    var p := Pos(s1, k);
    assert Pos(s2, k) == p;
    SegmentSpan(s1, raw, k);
    SegmentSpan(s2, raw, k);
    if MatchAt(lower, needle, p) {
      assert s1[k].Mark? && s2[k].Mark?;
    } else {
      assert s1[k].Text? && s2[k].Text?;
      var n1 := |s1[k].text|;
      var n2 := |s2[k].text|;
      if n1 < n2 {
        TextEndsAtMark(s1, raw, needle, k);
        assert false;
      } else if n2 < n1 {
        TextEndsAtMark(s2, raw, needle, k);
        assert false;
      }
    }
  }

  /** A plain segment ends either at the end of the text or where a match
      starts. */
  lemma TextEndsAtMark(segs: seq<Segment>, raw: string, needle: string, k: int)
    requires needle != "" && Highlighted(segs, raw, needle) && 0 <= k < |segs| && segs[k].Text?
    ensures Pos(segs, k) + |segs[k].text| == |raw| || MatchAt(LowerCase(raw), needle, Pos(segs, k) + |segs[k].text|)
  {
    SegmentSpan(segs, raw, k);
    if k + 1 < |segs| {
      assert segs[k + 1].Mark?;
    } else {
      assert segs[..k + 1] == segs;
    }
  }

  /** `Highlighted` admits one segmentation only: the contract of
      `HighlightText` fixes its result. */
  lemma HighlightedUnique(s1: seq<Segment>, s2: seq<Segment>, raw: string, needle: string)
    requires needle != "" && Highlighted(s1, raw, needle) && Highlighted(s2, raw, needle)
    ensures s1 == s2
  {
    var k := if |s1| <= |s2| then |s1| else |s2|;
    PrefixesAgree(s1, s2, raw, needle, k);
    assert forall i :: 0 <= i < |s1| ==> s1[i].text != "";
    assert forall i :: 0 <= i < |s2| ==> s2[i].text != "";
    PosBounds(s1, raw, k);
    PosBounds(s2, raw, k);
    assert Pos(s1, k) == Pos(s2, k);
    assert s1[..k] == s1 && s2[..k] == s2;
  }

  /** Two highlightings agree on their first `k` segments. */
  lemma {:induction false} PrefixesAgree(s1: seq<Segment>, s2: seq<Segment>, raw: string, needle: string, k: int)
    requires needle != "" && Highlighted(s1, raw, needle) && Highlighted(s2, raw, needle)
    requires 0 <= k <= |s1| && k <= |s2|
    ensures s1[..k] == s2[..k]
  {
    if k > 0 {
      PrefixesAgree(s1, s2, raw, needle, k - 1);
      HighlightedStep(s1, s2, raw, needle, k - 1);
      ExtendPrefix(s1, s2, k);
    }
  }

  /** Prefixes that agree, followed by equal elements, agree one further. */
  lemma ExtendPrefix<T>(s1: seq<T>, s2: seq<T>, k: int)
    requires 0 < k <= |s1| && k <= |s2|
    requires s1[..k - 1] == s2[..k - 1] && s1[k - 1] == s2[k - 1]
    ensures s1[..k] == s2[..k]
  {
    assert s1[..k] == s1[..k - 1] + [s1[k - 1]];
    assert s2[..k] == s2[..k - 1] + [s2[k - 1]];
  }
}
