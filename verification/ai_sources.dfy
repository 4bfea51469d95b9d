/** `normalizeAiSources` (src/data/loaders.js): the citations a question's
    AI audit points to. Source entries come from sixteen places in the raw
    question; chunk ids of the form `<document>#p<page>[c<chunk>]` become
    `<document> · S. <page>`; the result keeps each distinct citation once, in
    order of first occurrence. */
module AiSources {
  import opened Wrappers
  import opened Js
  import Seqs
  import Loaders

  /** The text between a document and its page number in a citation. */
  const PageSeparator: string := " \U{00B7} S. "

  // ---------------------------------------------------------------------
  // Where the sources are read from

  /** `q.aiAudit?.answerPlausibility || {}`. */
  function Plausibility(q: Json): Json {
    Or(Path(q, ["aiAudit", "answerPlausibility"]), Obj(map[]))
  }

  /** `pass?.sources`, `pass?.evidence`, `pass?.Evidence`. */
  function PassLists(pass: Json): (r: seq<Json>)
    ensures |r| == 3
  {
    [Get(pass, "sources"), Get(pass, "evidence"), Get(pass, "Evidence")]
  }

  /** The sixteen candidate source lists, in the order they are read:
      `q.aiSources`, then the plausibility audit's own lists, then those of
      its `finalPass`, `passA`, `passB` and `verification` passes. */
  function SourceLists(q: Json): (r: seq<Json>)
    ensures |r| == 16
    ensures r[0] == Get(q, "aiSources")
  {
    var ap := Plausibility(q);
    [Get(q, "aiSources")] + PassLists(ap)
      + PassLists(Get(ap, "finalPass")) + PassLists(Get(ap, "passA"))
      + PassLists(Get(ap, "passB")) + PassLists(Get(ap, "verification"))
  }

  /** The five candidate chunk-id lists, in the order they are read. */
  function ChunkLists(q: Json): (r: seq<Json>)
    ensures |r| == 5
  {
    var ap := Plausibility(q);
    [Get(ap, "evidenceChunkIds"), Get(Get(ap, "finalPass"), "evidenceChunkIds"),
     Get(Get(ap, "passA"), "evidenceChunkIds"), Get(Get(ap, "passB"), "evidenceChunkIds"),
     Get(Get(ap, "verification"), "evidenceChunkIds")]
  }

  // ---------------------------------------------------------------------
  // Collecting citations from lists

  /** The entries of every list that is an array, lists in order; other
      values are skipped (`if (!Array.isArray(src)) continue`). */
  function Entries(lists: seq<Json>): (r: seq<Json>)
    ensures forall x :: x in r <==> exists i :: 0 <= i < |lists| && lists[i].Arr? && x in lists[i].items
  {
    if |lists| == 0 then []
    else
      var rest := Entries(lists[1..]);
      assert forall x :: x in rest <==> exists i :: 1 <= i < |lists| && lists[i].Arr? && x in lists[i].items by {
        forall x | x in rest
          ensures exists i :: 1 <= i < |lists| && lists[i].Arr? && x in lists[i].items
        {
          var i :| 0 <= i < |lists[1..]| && lists[1..][i].Arr? && x in lists[1..][i].items;
          assert lists[i + 1] == lists[1..][i];
        }
        forall x | exists i :: 1 <= i < |lists| && lists[i].Arr? && x in lists[i].items
          ensures x in rest
        {
          var i :| 1 <= i < |lists| && lists[i].Arr? && x in lists[i].items;
          assert lists[1..][i - 1] == lists[i];
        }
      }
      (if lists[0].Arr? then lists[0].items else []) + rest
  }

  /** The nested loop `for (const src of lists) for (const entry of src)`
      pushing what `f` yields: list by list, the values of the entries in
      order. It is the choice over all the entries at once. */
  function Gather(lists: seq<Json>, f: Json -> Option<string>): (r: seq<string>)
    ensures r == Seqs.Choose(Entries(lists), f)
    ensures Seqs.ChosenInOrder(r, Entries(lists), f)
  {
    if |lists| == 0 then []
    else
      var head := if lists[0].Arr? then lists[0].items else [];
      var r := Seqs.Choose(head, f) + Gather(lists[1..], f);
      Seqs.ChooseConcat(head, Entries(lists[1..]), f);
      Seqs.ChooseInOrder(Entries(lists), f);
      r
  }

  /** A gathered value is one some entry of an array list yields. */
  lemma GatherMembers(lists: seq<Json>, f: Json -> Option<string>)
    ensures forall s :: s in Gather(lists, f) <==>
              exists i :: 0 <= i < |lists| && lists[i].Arr? && exists x :: x in lists[i].items && f(x) == Some(s)
  {
    Seqs.ChooseMembers(Entries(lists), f);
    forall s | s in Gather(lists, f)
      ensures exists i :: 0 <= i < |lists| && lists[i].Arr? && exists x :: x in lists[i].items && f(x) == Some(s)
    {
      var x :| x in Entries(lists) && f(x) == Some(s);
      var i :| 0 <= i < |lists| && lists[i].Arr? && x in lists[i].items;
    }
    forall s | exists i :: 0 <= i < |lists| && lists[i].Arr? && exists x :: x in lists[i].items && f(x) == Some(s)
      ensures s in Gather(lists, f)
    {
      var i :| 0 <= i < |lists| && lists[i].Arr? && exists x :: x in lists[i].items && f(x) == Some(s);
      var x :| x in lists[i].items && f(x) == Some(s);
      assert x in Entries(lists);
    }
  }

  // ---------------------------------------------------------------------
  // Source entries

  /** `entry.source || entry.pdf || entry.file || entry.filename ||
      entry.document || entry.name`. */
  function DocumentOf(entry: Json): Json {
    OrAll([Get(entry, "source"), Get(entry, "pdf"), Get(entry, "file"),
           Get(entry, "filename"), Get(entry, "document"), Get(entry, "name")])
  }

  /** `entry.page ?? entry.pages ?? entry.seite ?? entry.pageRange`. */
  function PageOf(entry: Json): Json {
    CoalesceAll([Get(entry, "page"), Get(entry, "pages"), Get(entry, "seite"), Get(entry, "pageRange")])
  }

  /** `pushSource(pdf, page)`: nothing when the cleaned document is empty,
      else the document, followed by the page when the cleaned page
      (`String(page ?? "")`) is not empty. */
  function Citation(env: Loaders.Env, pdf: Json, page: Json): (r: Option<string>)
    ensures r.None? <==> Loaders.CleanString(env, pdf) == ""
    ensures r.Some? ==> |r.value| >= |Loaders.CleanString(env, pdf)| > 0
    ensures r.Some? ==> r.value[..|Loaders.CleanString(env, pdf)|] == Loaders.CleanString(env, pdf)
    ensures Loaders.CleanString(env, pdf) != "" && PageText(env, page) == "" ==>
              r == Some(Loaders.CleanString(env, pdf))
    ensures Loaders.CleanString(env, pdf) != "" && PageText(env, page) != "" ==>
              r == Some(Loaders.CleanString(env, pdf) + PageSeparator + PageText(env, page))
  {
    Cite(Loaders.CleanString(env, pdf), PageText(env, page))
  }

  /** The citation of a cleaned document and a cleaned page. */
  function Cite(file: string, pageText: string): (r: Option<string>)
    ensures r.None? <==> file == ""
    ensures r.Some? ==> |r.value| >= |file| > 0 && r.value[..|file|] == file
    ensures file != "" && pageText == "" ==> r == Some(file)
    ensures file != "" && pageText != "" ==> r == Some(file + PageSeparator + pageText)
  {
    if file == "" then None
    else if pageText == "" then Some(file)
    else
      Seqs.PrefixOfConcat(file, PageSeparator + pageText);
      Some(file + PageSeparator + pageText)
  }

  /** `cleanText(String(page ?? ""))`. */
  function PageText(env: Loaders.Env, page: Json): string {
    Loaders.CleanText(env, Str(ToString(env.engine, Coalesce(page, Str("")))))
  }

  /** One entry of a source list: a non-empty cleaned string as is, an
      object through `pushSource`, anything else (falsy values, numbers,
      `true`) nothing. */
  function EntryCitation(env: Loaders.Env, entry: Json): (r: Option<string>)
    ensures r.Some? ==> r.value != ""
    ensures !Truthy(entry) ==> r.None?
    ensures entry.Number? || entry.Bool? ==> r.None?
    ensures entry.Str? && entry.s != "" ==> r == Loaders.OrNull(Loaders.CleanText(env, entry))
    ensures entry.Obj? || entry.Arr? ==> r == Citation(env, DocumentOf(entry), PageOf(entry))
  {
    if !Truthy(entry) then None
    else match entry
      case Str(_) => Loaders.OrNull(Loaders.CleanText(env, entry))
      case Obj(_) => Citation(env, DocumentOf(entry), PageOf(entry))
      case Arr(_) => Citation(env, DocumentOf(entry), PageOf(entry))
      case _ => None
  }

  function EntryCitationOf(env: Loaders.Env): Json -> Option<string> {
    (entry: Json) => EntryCitation(env, entry)
  }

  // ---------------------------------------------------------------------
  // Chunk ids: /^(.+?)#p(\d+)(?:c\d+)?$/i

  /** A chunk id split into its document part and its page digits. */
  datatype ChunkRef = ChunkRef(doc: string, page: string)

  /** `\d`: the ASCII digits only. */
  predicate IsDigit(c: char) {
    '0' <= c <= '9'
  }

  /** `\d+` matches the whole of `s`. */
  predicate AllDigits(s: string) {
    |s| > 0 && forall i :: 0 <= i < |s| ==> IsDigit(s[i])
  }

  /** `(?:c\d+)?$` matches the whole of `s`, case-insensitively. */
  predicate IsChunkTail(s: string) {
    s == "" || ((s[0] == 'c' || s[0] == 'C') && AllDigits(s[1..]))
  }

  /** The length of the run of digits `s` starts with. */
  function DigitRun(s: string): (n: nat)
    ensures n <= |s|
    ensures forall i :: 0 <= i < n ==> IsDigit(s[i])
    ensures n < |s| ==> !IsDigit(s[n])
  {
    if |s| > 0 && IsDigit(s[0]) then 1 + DigitRun(s[1..]) else 0
  }

  /** `(\d+)(?:c\d+)?$` anchored at the start of `t`: the page digits. The
      greedy `\d+` takes the whole leading run; a shorter run would leave a
      digit where `c` or the end must follow. */
  function PageSuffix(t: string): (r: Option<string>)
    ensures r.Some? ==> AllDigits(r.value) && |r.value| <= |t|
                        && t[..|r.value|] == r.value && IsChunkTail(t[|r.value|..])
  {
    var n := DigitRun(t);
    if n == 0 then None
    else if IsChunkTail(t[n..]) then Some(t[..n])
    else None
  }

  /** Conversely every split of `t` into digits and a chunk tail is found. */
  lemma PageSuffixComplete(page: string, tail: string)
    requires AllDigits(page) && IsChunkTail(tail)
    ensures PageSuffix(page + tail) == Some(page)
  {
    DigitRunOf(page, tail);
    assert (page + tail)[|page|..] == tail;
    assert (page + tail)[..|page|] == page;
  }

  lemma {:induction false} DigitRunOf(page: string, tail: string)
    requires forall i :: 0 <= i < |page| ==> IsDigit(page[i])
    requires tail == "" || !IsDigit(tail[0])
    ensures DigitRun(page + tail) == |page|
  {
    if |page| > 0 {
      assert (page + tail)[1..] == page[1..] + tail;
      DigitRunOf(page[1..], tail);
    } else {
      assert page + tail == tail;
    }
  }

  /** The rest of the pattern, `#p(\d+)(?:c\d+)?$`, tried at offset `k`. */
  function ChunkAt(s: string, k: nat): Option<string>
    requires k <= |s|
  {
    if k + 2 <= |s| && s[k] == '#' && (s[k + 1] == 'p' || s[k + 1] == 'P')
    then PageSuffix(s[k + 2..])
    else None
  }

  /** No character of `s[from..to]` is a line terminator, so `.` can match
      them all. */
  ghost predicate NoLineBreak(s: string, from: int, to: int)
    requires 0 <= from <= to <= |s|
  {
    forall i :: from <= i < to ==> !IsLineTerminator(s[i])
  }

  /** The lazy `(.+?)`: try group lengths `k, k + 1, ...` until the rest of
      the pattern matches or `.` meets a line terminator. */
  function ParseFrom(s: string, k: nat): (r: Option<ChunkRef>)
    requires 1 <= k
    ensures r.Some? ==>
              k <= |r.value.doc| <= |s| && r.value.doc == s[..|r.value.doc|]
              && NoLineBreak(s, k - 1, |r.value.doc|)
              && ChunkAt(s, |r.value.doc|) == Some(r.value.page)
              && forall j :: k <= j < |r.value.doc| ==> ChunkAt(s, j).None?
    ensures r.None? ==>
              forall j :: k <= j <= |s| && NoLineBreak(s, k - 1, j) ==> ChunkAt(s, j).None?
    decreases |s| - k
  {
    if k > |s| || IsLineTerminator(s[k - 1]) then None
    else match ChunkAt(s, k)
      case Some(p) => Some(ChunkRef(s[..k], p))
      case None => ParseFrom(s, k + 1)
  }

  /** `txt.match(/^(.+?)#p(\d+)(?:c\d+)?$/i)`: on a match, the document part
      is the shortest non-empty prefix without line terminators after which
      the rest of the pattern matches; without a match, no such prefix
      exists. */
  function ParseChunkId(s: string): (r: Option<ChunkRef>)
    ensures r.Some? ==>
              1 <= |r.value.doc| <= |s| && r.value.doc == s[..|r.value.doc|]
              && NoLineBreak(s, 0, |r.value.doc|)
              && ChunkAt(s, |r.value.doc|) == Some(r.value.page)
              && AllDigits(r.value.page)
              && forall j :: 1 <= j < |r.value.doc| ==> ChunkAt(s, j).None?
    ensures r.None? ==>
              forall j :: 1 <= j <= |s| && NoLineBreak(s, 0, j) ==> ChunkAt(s, j).None?
  {
    ParseFrom(s, 1)
  }

  /** A chunk id built from a document without `#` or line breaks, a page
      number and an optional chunk suffix parses back into its document and
      page. */
  lemma ParseChunkIdRoundTrip(doc: string, marker: char, page: string, tail: string)
    requires |doc| >= 1 && '#' !in doc
    requires forall i :: 0 <= i < |doc| ==> !IsLineTerminator(doc[i])
    requires marker == 'p' || marker == 'P'
    requires AllDigits(page) && IsChunkTail(tail)
    ensures ParseChunkId(doc + ['#', marker] + page + tail) == Some(ChunkRef(doc, page))
  {
    var s := doc + ['#', marker] + page + tail;
    assert s[|doc| + 2..] == page + tail;
    PageSuffixComplete(page, tail);
    assert ChunkAt(s, |doc|) == Some(page);
    ParseFromSkips(s, doc, page, 1);
  }

  lemma {:induction false} ParseFromSkips(s: string, doc: string, page: string, k: nat)
    requires 1 <= k <= |doc| < |s| && s[..|doc|] == doc && '#' !in doc
    requires forall i :: 0 <= i < |doc| ==> !IsLineTerminator(doc[i])
    requires ChunkAt(s, |doc|) == Some(page)
    ensures ParseFrom(s, k) == Some(ChunkRef(doc, page))
    decreases |doc| - k
  {
    assert s[k - 1] == doc[k - 1];
    if k < |doc| {
      assert s[k] == doc[k];
      assert ChunkAt(s, k).None?;
      ParseFromSkips(s, doc, page, k + 1);
    } else {
      assert s[..k] == doc;
    }
  }

  /** One chunk id: nothing when its cleaned text is empty, the citation
      `<document> · S. <page>` when it parses, else the cleaned text. */
  function ChunkCitation(env: Loaders.Env, chunkId: Json): (r: Option<string>)
    ensures r.Some? ==> r.value != ""
    ensures r.None? <==> Loaders.CleanString(env, chunkId) == ""
    ensures var txt := Loaders.CleanString(env, chunkId);
            txt != "" && ParseChunkId(txt).Some? ==>
              r == Some(ParseChunkId(txt).value.doc + PageSeparator + ParseChunkId(txt).value.page)
    ensures var txt := Loaders.CleanString(env, chunkId);
            txt != "" && ParseChunkId(txt).None? ==> r == Some(txt)
  {
    var txt := Loaders.CleanString(env, chunkId);
    if txt == "" then None
    else match ParseChunkId(txt)
      case Some(c) => Some(c.doc + PageSeparator + c.page)
      case None => Some(txt)
  }

  /** An id whose cleaned text is `<document>#p<page>` with an optional
      chunk suffix is cited as `<document> · S. <page>`. */
  lemma ChunkCitationOfComposed(env: Loaders.Env, chunkId: Json, doc: string, marker: char, page: string, tail: string)
    requires |doc| >= 1 && '#' !in doc
    requires forall i :: 0 <= i < |doc| ==> !IsLineTerminator(doc[i])
    requires marker == 'p' || marker == 'P'
    requires AllDigits(page) && IsChunkTail(tail)
    requires Loaders.CleanString(env, chunkId) == doc + ['#', marker] + page + tail
    ensures ChunkCitation(env, chunkId) == Some(doc + PageSeparator + page)
  {
    ParseChunkIdRoundTrip(doc, marker, page, tail);
  }

  function ChunkCitationOf(env: Loaders.Env): Json -> Option<string> {
    (chunkId: Json) => ChunkCitation(env, chunkId)
  }

  // ---------------------------------------------------------------------
  // normalizeAiSources

  /** What the loop over the sixteen source lists pushes. */
  function SourceCitations(env: Loaders.Env, q: Json): (r: seq<string>)
    ensures Seqs.ChosenInOrder(r, Entries(SourceLists(q)), EntryCitationOf(env))
    ensures forall s :: s in r ==> s != ""
  {
    var r := Gather(SourceLists(q), EntryCitationOf(env));
    Seqs.ChooseMembers(Entries(SourceLists(q)), EntryCitationOf(env));
    r
  }

  /** What the loop over the five chunk lists pushes. */
  function ChunkCitations(env: Loaders.Env, q: Json): (r: seq<string>)
    ensures Seqs.ChosenInOrder(r, Entries(ChunkLists(q)), ChunkCitationOf(env))
    ensures forall s :: s in r ==> s != ""
  {
    var r := Gather(ChunkLists(q), ChunkCitationOf(env));
    Seqs.ChooseMembers(Entries(ChunkLists(q)), ChunkCitationOf(env));
    r
  }

  /** Every citation pushed onto `out`, before deduplication: the source
      citations in entry order, then the chunk citations in entry order. */
  function Pushed(env: Loaders.Env, q: Json): (r: seq<string>)
    ensures |SourceCitations(env, q)| <= |r|
    ensures r[..|SourceCitations(env, q)|] == SourceCitations(env, q)
    ensures r[|SourceCitations(env, q)|..] == ChunkCitations(env, q)
    ensures forall s :: s in r ==> s != ""
  {
    var a := SourceCitations(env, q);
    var b := ChunkCitations(env, q);
    assert (a + b)[..|a|] == a;
    assert (a + b)[|a|..] == b;
    a + b
  }

  /** `Array.from(new Set(out))`: the distinct pushed citations in order of
      first occurrence; none is empty, and each pushed one is there. */
  function NormalizeAiSources(env: Loaders.Env, q: Json): (r: seq<string>)
    ensures Seqs.NoDups(r)
    ensures forall s :: s in r <==> s in Pushed(env, q)
    ensures forall i, j :: 0 <= i < j < |r| ==> Seqs.OccursBefore(Pushed(env, q), r[i], r[j])
    ensures forall s :: s in r ==> s != ""
  {
    Seqs.DedupKeepsFirstOccurrenceOrder(Pushed(env, q));
    Seqs.Dedup(Pushed(env, q))
  }

  /** A source citation is normalised exactly when some entry of some
      source list that is an array cites it, and a chunk citation exactly
      when some id of some chunk list that is an array does. */
  lemma NormalizedSourcesMembers(env: Loaders.Env, q: Json)
    ensures forall s :: s in NormalizeAiSources(env, q) <==>
              (exists i :: 0 <= i < 16 && SourceLists(q)[i].Arr?
                           && exists x :: x in SourceLists(q)[i].items && EntryCitation(env, x) == Some(s))
              || (exists i :: 0 <= i < 5 && ChunkLists(q)[i].Arr?
                           && exists x :: x in ChunkLists(q)[i].items && ChunkCitation(env, x) == Some(s))
  {
    var p := Pushed(env, q);
    var a := SourceCitations(env, q);
    var b := ChunkCitations(env, q);
    assert p == a + b by {
      assert p == p[..|a|] + p[|a|..];
    }
    SourceCitationsMembers(env, q);
    ChunkCitationsMembers(env, q);
  }

  lemma SourceCitationsMembers(env: Loaders.Env, q: Json)
    ensures forall s :: s in SourceCitations(env, q) <==>
              exists i :: 0 <= i < 16 && SourceLists(q)[i].Arr?
                          && exists x :: x in SourceLists(q)[i].items && EntryCitation(env, x) == Some(s)
  {
    var f := EntryCitationOf(env);
    GatherMembers(SourceLists(q), f);
    assert forall x :: f(x) == EntryCitation(env, x);
  }

  lemma ChunkCitationsMembers(env: Loaders.Env, q: Json)
    ensures forall s :: s in ChunkCitations(env, q) <==>
              exists i :: 0 <= i < 5 && ChunkLists(q)[i].Arr?
                          && exists x :: x in ChunkLists(q)[i].items && ChunkCitation(env, x) == Some(s)
  {
    var f := ChunkCitationOf(env);
    GatherMembers(ChunkLists(q), f);
    assert forall x :: f(x) == ChunkCitation(env, x);
  }

  /** The citations of the source lists come first: the normalised sources
      start with the distinct source citations, in their own order. */
  lemma SourcesFirst(env: Loaders.Env, q: Json)
    ensures |Seqs.Dedup(SourceCitations(env, q))| <= |NormalizeAiSources(env, q)|
    ensures NormalizeAiSources(env, q)[..|Seqs.Dedup(SourceCitations(env, q))|] == Seqs.Dedup(SourceCitations(env, q))
  {
    var p := Pushed(env, q);
    var a := SourceCitations(env, q);
    assert p == a + ChunkCitations(env, q) by {
      assert p == p[..|a|] + p[|a|..];
    }
    Seqs.DedupPrefix(a, ChunkCitations(env, q));
  }

  /** A string in `q.aiSources` whose cleaned text is not empty is cited. */
  lemma DirectSourceCited(env: Loaders.Env, q: Json, s: string)
    requires s != "" && Get(q, "aiSources").Arr? && Str(s) in Get(q, "aiSources").items
    requires Loaders.CleanText(env, Str(s)) != ""
    ensures Loaders.CleanText(env, Str(s)) in NormalizeAiSources(env, q)
  {
    var c := Loaders.CleanText(env, Str(s));
    assert EntryCitation(env, Str(s)) == Some(c);
    assert SourceLists(q)[0] == Get(q, "aiSources");
    SourceCitationsMembers(env, q);
    assert c in SourceCitations(env, q);
    assert c in Pushed(env, q) by {
      assert Pushed(env, q)[..|SourceCitations(env, q)|] == SourceCitations(env, q);
    }
  }

  /** A chunk id `<document>#p<page>` listed directly under the plausibility
      audit is cited as `<document> · S. <page>`. */
  lemma ChunkIdCited(env: Loaders.Env, q: Json, chunkId: Json, doc: string, page: string)
    requires Get(Plausibility(q), "evidenceChunkIds").Arr?
    requires chunkId in Get(Plausibility(q), "evidenceChunkIds").items
    requires ParseChunkId(Loaders.CleanString(env, chunkId)) == Some(ChunkRef(doc, page))
    ensures doc + PageSeparator + page in NormalizeAiSources(env, q)
  {
    var c := doc + PageSeparator + page;
    assert ChunkCitation(env, chunkId) == Some(c);
    assert ChunkLists(q)[0] == Get(Plausibility(q), "evidenceChunkIds");
    ChunkCitationsMembers(env, q);
    assert c in ChunkCitations(env, q);
    assert c in Pushed(env, q) by {
      assert Pushed(env, q)[|SourceCitations(env, q)|..] == ChunkCitations(env, q);
    }
  }

  /** An object naming no document in any of its six fields cites nothing,
      whatever its page (given that decoding the empty text leaves nothing). */
  lemma NoDocumentNoCitation(env: Loaders.Env, entry: Json)
    requires Loaders.CleanText(env, Str("")) == ""
    requires entry.Obj?
    requires !Truthy(Get(entry, "source")) && !Truthy(Get(entry, "pdf")) && !Truthy(Get(entry, "file"))
    requires !Truthy(Get(entry, "filename")) && !Truthy(Get(entry, "document")) && !Truthy(Get(entry, "name"))
    ensures EntryCitation(env, entry).None?
  {
    var d := DocumentOf(entry);
    assert !Truthy(d);
    assert Or(d, Str("")) == Str("");
    assert Loaders.CleanString(env, d) == Loaders.CleanText(env, Str(""));
  }
}
