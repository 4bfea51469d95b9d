/** The merge loop of `loadJsonUrls` (src/data/loaders.js): every payload's
    questions are normalized and stored in a `Map` keyed by id, so a later
    record replaces an earlier one with the same id while the id keeps the
    position where it first appeared. The merged list is then annotated with
    clusters. Fetching and JSON parsing are not modelled: each response is
    given as `Some(payload)`, or `None` when the request or the parse fails. */
module Loading {
  import opened Wrappers
  import opened Js
  import opened Questions
  import Seqs
  import Loaders
  import Normalization
  import Clusters

  /** The one-character strings a `for...of` loop yields for `s`. */
  function Chars(s: string): (r: seq<Json>)
    ensures |r| == |s|
    ensures forall i :: 0 <= i < |s| ==> r[i] == Str([s[i]])
  {
    seq(|s|, i requires 0 <= i < |s| => Str([s[i]]))
  }

  /** `for (const q of (payload.questions || []))`: reading `questions` of a
      `null` payload throws; a falsy list is empty; an array yields its
      elements; a string yields its characters; any other value is not
      iterable and throws. */
  function PayloadQuestions(payload: Json): (r: Option<seq<Json>>)
    ensures r.None? <==>
              Nullish(payload)
              || (Truthy(Get(payload, "questions")) && !Get(payload, "questions").Arr? && !Get(payload, "questions").Str?)
    ensures !Nullish(payload) && !Truthy(Get(payload, "questions")) ==> r == Some([])
    ensures !Nullish(payload) && Get(payload, "questions").Arr? ==> r == Some(Get(payload, "questions").items)
    ensures !Nullish(payload) && Get(payload, "questions").Str? ==> r == Some(Chars(Get(payload, "questions").s))
  {
    if Nullish(payload) then None
    else
      var list := Get(payload, "questions");
      if !Truthy(list) then Some([])
      else if list.Arr? then Some(list.items)
      else if list.Str? then Some(Chars(list.s))
      else None
  }

  /** `normalizeQuestion` with its environment fixed. */
  function NormalizerOf(env: Loaders.Env): Json -> Normalization.Outcome {
    (q: Json) => Normalization.NormalizeQuestion(env, q)
  }

  /** The record an outcome keeps, if any. */
  function KeptOf(normalize: Json -> Normalization.Outcome): Json -> Option<Question> {
    (q: Json) => if normalize(q).Kept? then Some(normalize(q).question) else None
  }

  /** The records `normalize` keeps from `qs`, in order; `None` when one of
      them throws, which ends the whole load. */
  function KeptRecords(qs: seq<Json>, normalize: Json -> Normalization.Outcome): (r: Option<seq<Question>>)
    ensures r.None? <==> exists q :: q in qs && normalize(q).Threw?
    ensures r.Some? ==> forall x :: x in r.value <==> exists q :: q in qs && normalize(q) == Normalization.Kept(x)
    ensures r.Some? ==> r.value == Seqs.Choose(qs, KeptOf(normalize))
    ensures r.Some? ==> Seqs.ChosenInOrder(r.value, qs, KeptOf(normalize))
  {
    Seqs.ChooseInOrder(qs, KeptOf(normalize));
    if |qs| == 0 then Some([])
    else
      var rest := KeptRecords(qs[1..], normalize);
      assert forall q :: q in qs <==> q == qs[0] || q in qs[1..];
      match normalize(qs[0])
      case Threw => None
      case Dropped => rest
      case Kept(x) => if rest.Some? then Some([x] + rest.value) else None
  }

  /** The questions of one response, or `None` when reading them throws. */
  function ResponseRecords(response: Option<Json>, normalize: Json -> Normalization.Outcome): (r: Option<seq<Question>>)
    ensures r.Some? <==> response.Some? && PayloadQuestions(response.value).Some?
                         && KeptRecords(PayloadQuestions(response.value).value, normalize).Some?
  {
    if response.None? then None
    else
      var qs := PayloadQuestions(response.value);
      if qs.None? then None else KeptRecords(qs.value, normalize)
  }

  /** The kept records of each response; a failed response contributes none. */
  function PerResponse(responses: seq<Option<Json>>, normalize: Json -> Normalization.Outcome): (r: seq<seq<Question>>)
    ensures |r| == |responses|
    ensures forall i :: 0 <= i < |responses| && ResponseRecords(responses[i], normalize).Some? ==>
              r[i] == ResponseRecords(responses[i], normalize).value
  {
    seq(|responses|, i requires 0 <= i < |responses| =>
      var kept := ResponseRecords(responses[i], normalize);
      if kept.Some? then kept.value else [])
  }

  /** Flattening the per-response records peels off the first response. */
  lemma FlattenPerResponse(responses: seq<Option<Json>>, normalize: Json -> Normalization.Outcome)
    requires |responses| > 0
    ensures Seqs.Flatten(PerResponse(responses, normalize)) ==
              PerResponse(responses, normalize)[0] + Seqs.Flatten(PerResponse(responses[1..], normalize))
  {
    var all, rest := PerResponse(responses, normalize), PerResponse(responses[1..], normalize);
    forall i | 0 <= i < |rest| ensures all[1..][i] == rest[i] {
      assert responses[1..][i] == responses[i + 1];
    }
    assert all[1..] == rest;
  }

  /** All kept records of all responses, in order, or `None` when a
      response failed, a payload could not be iterated, or a question threw. */
  function AllRecords(responses: seq<Option<Json>>, normalize: Json -> Normalization.Outcome): (r: Option<seq<Question>>)
    ensures r.Some? <==> forall i :: 0 <= i < |responses| ==> ResponseRecords(responses[i], normalize).Some?
    ensures r.Some? ==> r.value == Seqs.Flatten(PerResponse(responses, normalize))
  {
    if |responses| == 0 then Some([])
    else
      var rest := AllRecords(responses[1..], normalize);
      assert forall i :: 1 <= i < |responses| ==> responses[1..][i - 1] == responses[i];
      FlattenPerResponse(responses, normalize);
      match ResponseRecords(responses[0], normalize)
      case None => None
      case Some(kept) => if rest.Some? then Some(kept + rest.value) else None
  }

  /** Normalized records carry no cluster yet: every record a load collects
      comes out of `normalizeQuestion`. */
  lemma {:induction false} AllRecordsUnclustered(env: Loaders.Env, responses: seq<Option<Json>>)
    requires AllRecords(responses, NormalizerOf(env)).Some?
    ensures forall x :: x in AllRecords(responses, NormalizerOf(env)).value ==> x.cluster.None?
  {
    var normalize := NormalizerOf(env);
    if |responses| > 0 {
      assert forall i :: 1 <= i < |responses| ==> responses[1..][i - 1] == responses[i];
      AllRecordsUnclustered(env, responses[1..]);
      var kept := ResponseRecords(responses[0], normalize).value;
      forall x | x in kept ensures x.cluster.None? {
        var q :| q in PayloadQuestions(responses[0].value).value && normalize(q) == Normalization.Kept(x);
        assert Normalization.KeptRecord(q, x);
      }
      assert AllRecords(responses, normalize).value == kept + AllRecords(responses[1..], normalize).value;
    }
  }

  // ---------------------------------------------------------------------
  // byId: a Map from id to record with insertion order

  /** `byId.set(q.id, q)`: replace the entry with the same id in place, or
      append a new one. */
  function Upsert(acc: seq<Question>, q: Question): seq<Question> {
    if |acc| == 0 then [q]
    else if acc[0].id == q.id then [q] + acc[1..]
    else [acc[0]] + Upsert(acc[1..], q)
  }

  /** Setting an id already present keeps the ids; a new id is appended;
      either way the record is in the map. */
  lemma {:induction false} UpsertIds(acc: seq<Question>, q: Question)
    ensures Ids(Upsert(acc, q)) == if q.id in Ids(acc) then Ids(acc) else Ids(acc) + [q.id]
  {
    if |acc| == 0 {
      assert Ids([q]) == [q.id];
    } else {
      IdsCons(acc[0], acc[1..]);
      assert acc == [acc[0]] + acc[1..];
      if acc[0].id == q.id {
        IdsCons(q, acc[1..]);
      } else {
        var rest := Upsert(acc[1..], q);
        UpsertIds(acc[1..], q);
        IdsCons(acc[0], rest);
      }
    }
  }

  lemma {:induction false} UpsertHas(acc: seq<Question>, q: Question)
    ensures q in Upsert(acc, q)
  {
    if |acc| > 0 && acc[0].id != q.id {
      UpsertHas(acc[1..], q);
    }
  }

  lemma IdsCons(x: Question, xs: seq<Question>)
    ensures Ids([x] + xs) == [x.id] + Ids(xs)
  {
  }

  /** With distinct ids, setting `q` leaves `q` and the entries with other
      ids. */
  lemma {:induction false} UpsertMembers(acc: seq<Question>, q: Question)
    requires Seqs.NoDups(Ids(acc))
    ensures forall x :: x in Upsert(acc, q) ==> x == q || (x in acc && x.id != q.id)
  {
    if |acc| > 0 {
      if acc[0].id == q.id {
        forall x | x in acc[1..] ensures x.id != q.id {
          var k :| 1 <= k < |acc| && acc[k] == x;
          assert Ids(acc)[0] != Ids(acc)[k];
        }
      } else {
        assert Seqs.NoDups(Ids(acc[1..])) by {
          assert forall i :: 0 <= i < |acc| - 1 ==> Ids(acc[1..])[i] == Ids(acc)[i + 1];
        }
        UpsertMembers(acc[1..], q);
      }
    }
  }

  /** The position of the last record in `records` with the given id: the
      one the map holds after the loop. */
  function LastIndexOf(records: seq<Question>, id: string): (k: nat)
    requires id in Ids(records)
    ensures k < |records| && records[k].id == id
    ensures forall m :: k < m < |records| ==> records[m].id != id
  {
    var front := records[..|records| - 1];
    assert Ids(records) == Ids(front) + [records[|records| - 1].id];
    if records[|records| - 1].id == id then |records| - 1
    else LastIndexOf(front, id)
  }

  /** A record's id is among the ids. */
  lemma IdInIds(records: seq<Question>, x: Question)
    requires x in records
    ensures x.id in Ids(records)
  {
    var k :| 0 <= k < |records| && records[k] == x;
    assert Ids(records)[k] == x.id;
  }

  /** The map's values in insertion order after every record was set. */
  function MergeById(records: seq<Question>): (r: seq<Question>)
    ensures Ids(r) == Seqs.Dedup(Ids(records))
  {
    if |records| == 0 then []
    else
      var front := records[..|records| - 1];
      assert Ids(records) == Ids(front) + [records[|records| - 1].id];
      assert Ids(records)[..|records| - 1] == Ids(front);
      UpsertIds(MergeById(front), records[|records| - 1]);
      Upsert(MergeById(front), records[|records| - 1])
  }

  /** Every entry of `acc` is the last record of `records` with its id. */
  ghost predicate HoldsLast(acc: seq<Question>, records: seq<Question>) {
    forall x :: x in acc ==> x.id in Ids(records) && x == records[LastIndexOf(records, x.id)]
  }

  /** Setting one more record keeps every entry the last of its id. */
  lemma UpsertHoldsLast(acc: seq<Question>, records: seq<Question>)
    requires |records| > 0
    requires Seqs.NoDups(Ids(acc)) && HoldsLast(acc, records[..|records| - 1])
    ensures HoldsLast(Upsert(acc, records[|records| - 1]), records)
  {
    var front, q := records[..|records| - 1], records[|records| - 1];
    assert records == front + [q];
    UpsertMembers(acc, q);
    UpsertIds(acc, q);
    UpsertHas(acc, q);
    assert Ids(records) == Ids(front) + [q.id];
    forall x | x in Upsert(acc, q)
      ensures x.id in Ids(records) && x == records[LastIndexOf(records, x.id)]
    {
      if x == q {
        IdInIds(records, x);
      } else {
        assert x in acc && x.id != q.id;
        IdInIds(front, x);
        assert LastIndexOf(records, x.id) == LastIndexOf(front, x.id);
      }
    }
  }

  /** Each merged entry is the last record with its id. Together with
      `MergeById`'s contract: every id once, in order of first appearance. */
  lemma {:induction false} MergeKeepsLast(records: seq<Question>)
    ensures HoldsLast(MergeById(records), records)
  {
    if |records| > 0 {
      var front := records[..|records| - 1];
      var q := records[|records| - 1];
      var acc := MergeById(front);
      MergeKeepsLast(front);
      assert Seqs.NoDups(Ids(acc));
      assert MergeById(records) == Upsert(acc, q);
      UpsertHoldsLast(acc, records);
    }
  }

  /** `loadJsonUrls(urls)` after the fetches: `None` when it throws, else the
      value assigned to `state.questionsAll`: one question per loaded id in
      order of first appearance, each the last record loaded with that id,
      annotated with its cluster among the merged questions. */
  function LoadJsonUrls(env: Loaders.Env, responses: seq<Option<Json>>): (r: Option<seq<Question>>)
    ensures r.Some? <==> AllRecords(responses, NormalizerOf(env)).Some?
    ensures r.Some? ==> Ids(r.value) == Seqs.Dedup(Ids(AllRecords(responses, NormalizerOf(env)).value))
    ensures r.Some? ==>
              var recs := AllRecords(responses, NormalizerOf(env)).value;
              forall i :: 0 <= i < |r.value| ==>
                && r.value[i].id in Ids(recs)
                && r.value[i].(cluster := None) == recs[LastIndexOf(recs, r.value[i].id)]
                && r.value[i].cluster == Some(Clusters.ClusterOf(env.engine, MergeById(recs), r.value[i].(cluster := None)))
  {
    match AllRecords(responses, NormalizerOf(env))
    case None => None
    case Some(records) =>
      var merged := MergeById(records);
      var annotated := Clusters.AnnotateQuestionClusters(env.engine, merged);
      assert Ids(annotated) == Ids(merged);
      MergeKeepsLast(records);
      AllRecordsUnclustered(env, responses);
      assert forall i :: 0 <= i < |merged| ==> merged[i] in merged;
      Some(annotated)
  }
}
