/** The statistics of src/ui/render.js: the quiz progress bar, the per-exam
    results of the filter panel, the topic tree of the filter panel and the
    per-topic performance of the review. `localeCompare(_, "de")` is a
    ranking `collate` of names; the question index built by
    `questionIdIndex` and the stored latest answer per question are
    parameters. */
module Stats {
  import opened Wrappers
  import opened Js
  import opened Questions
  import opened AppState
  import Seqs
  import Sorting

  // ---------------------------------------------------------------------
  // Percentages

  /** `m * a < m * b` with a positive `m` orders `a` and `b`. */
  lemma ProductOrder(m: int, a: int, b: int)
    requires m > 0 && m * a < m * b
    ensures a < b
  {
  }

  /** The quotient `RoundPercent` takes, bounded from both sides. */
  lemma RoundingQuotient(part: nat, whole: nat)
    requires whole > 0
    ensures var q := (200 * part + whole) / (2 * whole);
            2 * whole * q <= 200 * part + whole < 2 * whole * (q + 1) &&
            (part <= whole ==> 0 <= q <= 100)
  {
    var m := 2 * whole;
    var x := 200 * part + whole;
    var q := x / m;
    assert m * q <= x < m * (q + 1) by {
      assert x == m * q + x % m;
      assert m * (q + 1) == m * q + m;
    }
    ProductOrder(m, -1, q + 1);
    if part <= whole {
      assert x < m * 101;
      ProductOrder(m, q, 101);
    }
  }

  /** `Math.round((part / whole) * 100)` for a positive `whole`: the integer
      nearest to `100 * part / whole`, a half rounded up; a share of at most
      the whole is a percentage between 0 and 100. */
  function RoundPercent(part: nat, whole: nat): (pct: int)
    requires whole > 0
    ensures 2 * whole * pct <= 200 * part + whole < 2 * whole * (pct + 1)
    ensures part <= whole ==> 0 <= pct <= 100
  {
    RoundingQuotient(part, whole);
    (200 * part + whole) / (2 * whole)
  }

  /** All of it is 100 per cent, none of it 0 per cent. */
  lemma RoundPercentEnds(n: nat)
    requires n > 0
    ensures RoundPercent(n, n) == 100 && RoundPercent(0, n) == 0
  {
    QuotientIs(200 * n + n, 2 * n, 100);
    QuotientIs(200 * 0 + n, 2 * n, 0);
  }

  /** A value between `m * q` and `m * (q + 1)` has quotient `q`. */
  lemma QuotientIs(x: int, m: int, q: int)
    requires m > 0 && m * q <= x < m * q + m
    ensures x / m == q
  {
    var d := x / m;
    assert x == m * d + x % m;
    assert m * (q + 1) == m * q + m;
    assert m * (d + 1) == m * d + m;
    ProductOrder(m, d, q + 1);
    ProductOrder(m, q, d + 1);
  }

  // ---------------------------------------------------------------------
  // computeQuizProgress

  datatype Progress = Progress(total: nat, submitted: nat, correct: nat, pct: int)

  /** The submitted questions whose result is `true`. */
  function CorrectlySubmitted(s: State): set<string> {
    set qid | qid in s.submitted && qid in s.results && s.results[qid]
  }

  /** `computeQuizProgress()`: the questions of the session, how many are
      submitted, how many of those are correct, and the rounded share of
      correct ones among the submitted (0 while nothing is submitted). */
  function ComputeQuizProgress(s: State): (p: Progress)
    ensures p.total == |s.questionOrder| && p.submitted == |s.submitted|
    ensures p.correct == |CorrectlySubmitted(s)| <= p.submitted
    ensures p.submitted == 0 ==> p.pct == 0
    ensures p.submitted > 0 ==>
              2 * p.submitted * p.pct <= 200 * p.correct + p.submitted < 2 * p.submitted * (p.pct + 1)
    ensures 0 <= p.pct <= 100
  {
    var correct := CorrectlySubmitted(s);
    assert correct <= s.submitted;
    Seqs.SubsetCard(correct, s.submitted);
    var n := |s.submitted|;
    Progress(|s.questionOrder|, n, |correct|, if n > 0 then RoundPercent(|correct|, n) else 0)
  }

  /** A session with every submitted answer correct shows 100 per cent, one
      with none correct 0 per cent. */
  lemma ProgressEnds(s: State)
    ensures |s.submitted| > 0 && s.submitted <= CorrectlySubmitted(s) ==> ComputeQuizProgress(s).pct == 100
    ensures CorrectlySubmitted(s) == {} ==> ComputeQuizProgress(s).pct == 0
  {
    if |s.submitted| > 0 {
      RoundPercentEnds(|s.submitted|);
      if s.submitted <= CorrectlySubmitted(s) {
        assert CorrectlySubmitted(s) == s.submitted;
      }
    }
  }

  // ---------------------------------------------------------------------
  // getExamStatsMap

  datatype ExamStats = ExamStats(
    total: nat, answered: nat, correct: nat, wrong: nat, unanswered: nat, pct: int, complete: bool)

  /** The questions `byExam` collects under `exam`, in order. */
  function ExamQuestions(qs: seq<Question>, exam: Json): seq<Question> {
    Seqs.Filter(qs, (q: Question) => q.examName == exam)
  }

  /** The truthy exam names of `qs`, in order, with repetitions. */
  function ExamNames(qs: seq<Question>): seq<Json> {
    Seqs.Filter(Seqs.Map(qs, (q: Question) => q.examName), Truthy)
  }

  /** Some question of `qs` belongs to `exam` and has a stored answer. */
  ghost predicate ExamAnswered(qs: seq<Question>, exam: Json, latest: map<string, bool>) {
    exists q :: q in qs && q.examName == exam && q.id in latest
  }

  /** Some question of `qs` carries `exam` as its exam name. */
  ghost predicate ExamOccurs(qs: seq<Question>, exam: Json) {
    exists q :: q in qs && q.examName == exam
  }

  /** The question has a stored latest answer. */
  function HasLatest(latest: map<string, bool>): Question -> bool {
    (q: Question) => q.id in latest
  }

  /** The question's stored latest answer was correct. */
  function LatestCorrect(latest: map<string, bool>): Question -> bool {
    (q: Question) => q.id in latest && latest[q.id]
  }

  /** The results of one exam: its questions, those with a stored latest
      answer, the correct and the wrong ones among those, the rest, the
      rounded share of correct answers, and whether every question is
      answered. */
  function ExamStatsOf(qs: seq<Question>, exam: Json, latest: map<string, bool>): (st: ExamStats)
    ensures st.total == |ExamQuestions(qs, exam)|
    ensures st.answered == Seqs.CountWhere(ExamQuestions(qs, exam), HasLatest(latest))
    ensures st.correct == Seqs.CountWhere(ExamQuestions(qs, exam), LatestCorrect(latest))
    ensures st.correct + st.wrong == st.answered && st.answered + st.unanswered == st.total
    ensures st.complete <==> st.unanswered == 0 && st.total > 0
    ensures st.answered > 0 <==> ExamAnswered(qs, exam, latest)
    ensures st.answered > 0 ==>
              2 * st.answered * st.pct <= 200 * st.correct + st.answered < 2 * st.answered * (st.pct + 1)
    ensures 0 <= st.pct <= 100
  {
    var eq := ExamQuestions(qs, exam);
    var answered := Seqs.CountWhere(eq, HasLatest(latest));
    var correct := Seqs.CountWhere(eq, LatestCorrect(latest));
    Seqs.CountWhereMono(eq, LatestCorrect(latest), HasLatest(latest));
    Seqs.CountWherePositive(eq, HasLatest(latest));
    ExamStats(|eq|, answered, correct, answered - correct, |eq| - answered,
              if answered > 0 then RoundPercent(correct, answered) else 0,
              |eq| - answered == 0 && |eq| > 0)
  }

  /** The correct count of an exam is positive exactly when some question
      of the exam was last answered correctly, and equals the answered
      count exactly when every answered question of the exam was. */
  lemma ExamCorrectCounts(qs: seq<Question>, exam: Json, latest: map<string, bool>)
    ensures var st := ExamStatsOf(qs, exam, latest);
      && (st.correct > 0 <==> exists q :: q in qs && q.examName == exam && q.id in latest && latest[q.id])
      && (st.correct == st.answered <==> forall q :: q in qs && q.examName == exam && q.id in latest ==> latest[q.id])
  {
    ExamCorrectPositive(qs, exam, latest);
    ExamAllCorrect(qs, exam, latest);
  }

  lemma ExamCorrectPositive(qs: seq<Question>, exam: Json, latest: map<string, bool>)
    ensures Seqs.CountWhere(ExamQuestions(qs, exam), LatestCorrect(latest)) > 0 <==>
              exists q :: q in qs && q.examName == exam && q.id in latest && latest[q.id]
  {
    var eq := ExamQuestions(qs, exam);
    Seqs.CountWherePositive(eq, LatestCorrect(latest));
    assert forall q :: q in eq <==> q in qs && q.examName == exam;
  }

  lemma ExamAllCorrect(qs: seq<Question>, exam: Json, latest: map<string, bool>)
    ensures Seqs.CountWhere(ExamQuestions(qs, exam), LatestCorrect(latest)) ==
            Seqs.CountWhere(ExamQuestions(qs, exam), HasLatest(latest)) <==>
              forall q :: q in qs && q.examName == exam && q.id in latest ==> latest[q.id]
  {
    var eq := ExamQuestions(qs, exam);
    Seqs.CountWhereSame(eq, LatestCorrect(latest), HasLatest(latest));
    assert forall q :: q in eq <==> q in qs && q.examName == exam;
  }

  /** The keys whose value passes `keep`, each paired with its value, in
      the order of `keys` (a `Map` filled in that order and iterated). */
  function Entries<C, K, V>(c: C, keys: seq<K>, f: (C, K) -> V, keep: V -> bool): seq<(K, V)> {
    if |keys| == 0 then []
    else (if keep(f(c, keys[0])) then [(keys[0], f(c, keys[0]))] else []) + Entries(c, keys[1..], f, keep)
  }

  /** Every entry of `r` is a key of `keys` with its value, and the value
      passes `keep`. */
  ghost predicate SoundEntries<C, K, V>(r: seq<(K, V)>, c: C, keys: seq<K>, f: (C, K) -> V, keep: V -> bool) {
    forall i :: 0 <= i < |r| ==> r[i].0 in keys && r[i].1 == f(c, r[i].0) && keep(r[i].1)
  }

  /** Every entry is a key with its value, and the value passes `keep`. */
  lemma {:induction false} EntriesSound<C, K, V>(c: C, keys: seq<K>, f: (C, K) -> V, keep: V -> bool)
    ensures SoundEntries(Entries(c, keys, f, keep), c, keys, f, keep)
  {
    if |keys| > 0 {
      EntriesSound(c, keys[1..], f, keep);
      assert forall x :: x in keys[1..] ==> x in keys;
    }
  }

  /** Every key whose value passes `keep` has an entry. */
  lemma {:induction false} EntriesComplete<C, K, V>(c: C, keys: seq<K>, f: (C, K) -> V, keep: V -> bool, x: K)
    requires x in keys && keep(f(c, x))
    ensures exists i :: 0 <= i < |Entries(c, keys, f, keep)| && Entries(c, keys, f, keep)[i].0 == x
  {
    var r := Entries(c, keys, f, keep);
    if x == keys[0] {
      assert r[0].0 == x;
    } else {
      var rest := Entries(c, keys[1..], f, keep);
      EntriesComplete(c, keys[1..], f, keep, x);
      var i :| 0 <= i < |rest| && rest[i].0 == x;
      assert r[i + |r| - |rest|] == rest[i];
    }
  }

  /** No key occurs in two entries. */
  ghost predicate DistinctKeys<K, V>(r: seq<(K, V)>) {
    forall i, j :: 0 <= i < j < |r| ==> r[i].0 != r[j].0
  }

  /** Distinct keys give entries with distinct keys. */
  lemma {:induction false} EntriesDistinct<C, K, V>(c: C, keys: seq<K>, f: (C, K) -> V, keep: V -> bool)
    requires Seqs.NoDups(keys)
    ensures DistinctKeys(Entries(c, keys, f, keep))
  {
    if |keys| > 0 {
      var r := Entries(c, keys, f, keep);
      var rest := Entries(c, keys[1..], f, keep);
      EntriesDistinct(c, keys[1..], f, keep);
      EntriesSound(c, keys[1..], f, keep);
      assert keys[0] !in keys[1..];
      if keep(f(c, keys[0])) {
        forall j | 0 < j < |r| ensures r[0].0 != r[j].0 {
          assert r[j] == rest[j - 1] && rest[j - 1].0 in keys[1..];
        }
        forall i, j | 0 < i < j < |r| ensures r[i].0 != r[j].0 {
          assert r[i] == rest[i - 1] && r[j] == rest[j - 1];
        }
      } else {
        assert r == rest;
      }
    }
  }

  /** The exams `byExam` collects: the truthy exam names of the questions. */
  lemma ExamNamesOccur(qs: seq<Question>, x: Json)
    ensures x in ExamNames(qs) <==> Truthy(x) && ExamOccurs(qs, x)
  {
    if Truthy(x) && ExamOccurs(qs, x) {
      var q :| q in qs && q.examName == x;
      var i :| 0 <= i < |qs| && qs[i] == q;
      assert Seqs.Map(qs, (q: Question) => q.examName)[i] == x;
    }
  }

  /** `ExamStatsOf` with the questions and the stored answers as one value. */
  function StatsIn(c: (seq<Question>, map<string, bool>), exam: Json): ExamStats {
    ExamStatsOf(c.0, exam, c.1)
  }

  predicate HasAnswers(st: ExamStats) {
    st.answered > 0
  }

  /** One entry per exam of `qs` with at least one answered question, in
      order of first appearance. */
  function AnsweredExams(qs: seq<Question>, latest: map<string, bool>): (r: seq<(Json, ExamStats)>)
    ensures forall i :: 0 <= i < |r| ==> r[i].1 == ExamStatsOf(qs, r[i].0, latest) && r[i].1.answered > 0
    ensures DistinctKeys(r)
    ensures forall i :: 0 <= i < |r| ==> r[i].0 in ExamNames(qs)
    ensures forall x :: x in ExamNames(qs) && ExamStatsOf(qs, x, latest).answered > 0 ==>
              exists i :: 0 <= i < |r| && r[i].0 == x
  {
    var exams := Seqs.Dedup(ExamNames(qs));
    EntriesDistinct((qs, latest), exams, StatsIn, HasAnswers);
    EntriesSound((qs, latest), exams, StatsIn, HasAnswers);
    forall x | x in ExamNames(qs) && HasAnswers(ExamStatsOf(qs, x, latest))
      ensures exists i :: 0 <= i < |Entries((qs, latest), exams, StatsIn, HasAnswers)| &&
                Entries((qs, latest), exams, StatsIn, HasAnswers)[i].0 == x
    {
      EntriesComplete((qs, latest), exams, StatsIn, HasAnswers, x);
    }
    Entries((qs, latest), exams, StatsIn, HasAnswers)
  }

  /** `getExamStatsMap()`: nothing without an active dataset or without any
      stored answer; otherwise, for each exam name that some question of
      the dataset carries and that has at least one answered question, one
      entry with that exam's results, each exam once. */
  function GetExamStatsMap(s: State, latest: map<string, bool>): (r: seq<(Json, ExamStats)>)
    ensures !Truthy(Get(s.activeDataset, "id")) || |latest| == 0 ==> r == []
    ensures forall i :: 0 <= i < |r| ==> r[i].1 == ExamStatsOf(s.questionsAll, r[i].0, latest) && r[i].1.answered > 0
    ensures forall i, j :: 0 <= i < j < |r| ==> r[i].0 != r[j].0
    ensures forall x :: (exists i :: 0 <= i < |r| && r[i].0 == x) <==>
              Truthy(Get(s.activeDataset, "id")) && Truthy(x) && ExamAnswered(s.questionsAll, x, latest)
  {
    if !Truthy(Get(s.activeDataset, "id")) || |latest| == 0 then []
    else
      var qs := s.questionsAll;
      var r := AnsweredExams(qs, latest);
      forall x ensures (exists i :: 0 <= i < |r| && r[i].0 == x) <==> Truthy(x) && ExamAnswered(qs, x, latest) {
        ExamNamesOccur(qs, x);
        var st := ExamStatsOf(qs, x, latest);
        if ExamAnswered(qs, x, latest) {
          var q :| q in qs && q.examName == x && q.id in latest;
          assert ExamOccurs(qs, x);
        }
      }
      r
  }

  // ---------------------------------------------------------------------
  // getTopicTree

  datatype TopicNode = TopicNode(superTopic: string, subTopics: seq<string>)

  /** `(t || "").trim()`. */
  function TopicName(t: Option<string>): string {
    if t.Some? then Trim(t.value) else ""
  }

  /** Some question of `qs` sits under the super-topic `x`. */
  ghost predicate HasSuperTopic(qs: seq<Question>, x: string) {
    exists q :: q in qs && TopicName(q.aiSuperTopic) == x
  }

  /** Some question of `qs` sits under the super-topic `x` and the sub-topic `y`. */
  ghost predicate HasTopicPair(qs: seq<Question>, x: string, y: string) {
    exists q :: q in qs && TopicName(q.aiSuperTopic) == x && TopicName(q.aiSubtopic) == y
  }

  /** `collate` orders `names` ascending. */
  ghost predicate Collated(names: seq<string>, collate: string -> real) {
    forall i, j :: 0 <= i < j < |names| ==> collate(names[i]) <= collate(names[j])
  }

  /** `Array.from(new Set(names)).sort(localeCompare)`. */
  function SortedNames(names: seq<string>, collate: string -> real): (r: seq<string>)
    ensures forall x :: x in r <==> x in names
    ensures Seqs.NoDups(r) && Collated(r, collate)
  {
    var d := Seqs.Dedup(names);
    var r := Sorting.SortBy(d, collate);
    Seqs.NoDupsAfterPermutation(d, r);
    assert forall x :: x in r <==> x in multiset(r);
    r
  }

  /** The trimmed super-topic of each question, in order. */
  function SuperNames(qs: seq<Question>): (r: seq<string>)
    ensures |r| == |qs| && forall i :: 0 <= i < |qs| ==> r[i] == TopicName(qs[i].aiSuperTopic)
  {
    seq(|qs|, i requires 0 <= i < |qs| => TopicName(qs[i].aiSuperTopic))
  }

  lemma SuperNamesOccur(qs: seq<Question>, x: string)
    ensures x in SuperNames(qs) <==> HasSuperTopic(qs, x)
  {
    if HasSuperTopic(qs, x) {
      var q :| q in qs && TopicName(q.aiSuperTopic) == x;
      var i :| 0 <= i < |qs| && qs[i] == q;
      assert SuperNames(qs)[i] == x;
    }
  }

  /** The non-empty trimmed super-topics of `qs`, in order, with repetitions. */
  function SuperTopics(qs: seq<Question>): (r: seq<string>)
    ensures forall x :: x in r <==> x != "" && HasSuperTopic(qs, x)
  {
    forall x ensures x in SuperNames(qs) <==> HasSuperTopic(qs, x) {
      SuperNamesOccur(qs, x);
    }
    Seqs.Filter(SuperNames(qs), (t: string) => t != "")
  }

  /** The questions under the super-topic `sup`, in order. */
  function Under(qs: seq<Question>, sup: string): (r: seq<Question>)
    ensures forall q :: q in r <==> q in qs && TopicName(q.aiSuperTopic) == sup
  {
    Seqs.Filter(qs, (q: Question) => TopicName(q.aiSuperTopic) == sup)
  }

  /** The trimmed sub-topic of each question under `sup`, in order. */
  function SubNames(qs: seq<Question>, sup: string): (r: seq<string>)
    ensures |r| == |Under(qs, sup)|
    ensures forall i :: 0 <= i < |r| ==> r[i] == TopicName(Under(qs, sup)[i].aiSubtopic)
  {
    var u := Under(qs, sup);
    seq(|u|, i requires 0 <= i < |u| => TopicName(u[i].aiSubtopic))
  }

  lemma SubNamesOccur(qs: seq<Question>, sup: string, y: string)
    ensures y in SubNames(qs, sup) <==> HasTopicPair(qs, sup, y)
  {
    var u := Under(qs, sup);
    if HasTopicPair(qs, sup, y) {
      var q :| q in qs && TopicName(q.aiSuperTopic) == sup && TopicName(q.aiSubtopic) == y;
      var i :| 0 <= i < |u| && u[i] == q;
      assert SubNames(qs, sup)[i] == y;
    }
    if y in SubNames(qs, sup) {
      var i :| 0 <= i < |u| && SubNames(qs, sup)[i] == y;
      assert u[i] in u;
    }
  }

  /** The non-empty trimmed sub-topics of the questions under `sup`, in
      order, with repetitions. */
  function SubTopicsUnder(qs: seq<Question>, sup: string): (r: seq<string>)
    ensures forall y :: y in r <==> y != "" && HasTopicPair(qs, sup, y)
  {
    forall y ensures y in SubNames(qs, sup) <==> HasTopicPair(qs, sup, y) {
      SubNamesOccur(qs, sup, y);
    }
    Seqs.Filter(SubNames(qs, sup), (t: string) => t != "")
  }

  /** The node of one super-topic: its distinct sub-topics in collation
      order. */
  function TopicNodeOf(qs: seq<Question>, sup: string, collate: string -> real): (n: TopicNode)
    ensures n.superTopic == sup
    ensures Seqs.NoDups(n.subTopics) && Collated(n.subTopics, collate)
    ensures forall y :: y in n.subTopics <==> y != "" && HasTopicPair(qs, sup, y)
  {
    TopicNode(sup, SortedNames(SubTopicsUnder(qs, sup), collate))
  }

  /** One node per name, in the order of `names`. */
  function NodesOf(qs: seq<Question>, names: seq<string>, collate: string -> real): (r: seq<TopicNode>)
    ensures |r| == |names|
    ensures forall i :: 0 <= i < |r| ==> r[i] == TopicNodeOf(qs, names[i], collate)
  {
    seq(|names|, i requires 0 <= i < |names| => TopicNodeOf(qs, names[i], collate))
  }

  /** The super-topics of the tree are exactly the non-empty super-topics of
      the questions. */
  lemma TreeCoversTopics(qs: seq<Question>, names: seq<string>, r: seq<TopicNode>, collate: string -> real)
    requires forall x :: x in names <==> x != "" && HasSuperTopic(qs, x)
    requires r == NodesOf(qs, names, collate)
    ensures forall i :: 0 <= i < |r| ==> r[i].superTopic != "" && HasSuperTopic(qs, r[i].superTopic)
    ensures forall x :: x != "" && HasSuperTopic(qs, x) ==> exists i :: 0 <= i < |r| && r[i].superTopic == x
  {
    forall i | 0 <= i < |r| ensures r[i].superTopic != "" && HasSuperTopic(qs, r[i].superTopic) {
      assert r[i].superTopic == names[i] && names[i] in names;
    }
    forall x | x != "" && HasSuperTopic(qs, x) ensures exists i :: 0 <= i < |r| && r[i].superTopic == x {
      var i :| 0 <= i < |names| && names[i] == x;
      assert r[i].superTopic == x;
    }
  }

  /** The tree keeps the order and the distinctness of its names. */
  lemma TreeOrdered(qs: seq<Question>, names: seq<string>, r: seq<TopicNode>, collate: string -> real)
    requires Seqs.NoDups(names) && Collated(names, collate)
    requires r == NodesOf(qs, names, collate)
    ensures forall i, j :: 0 <= i < j < |r| ==> r[i].superTopic != r[j].superTopic
    ensures forall i, j :: 0 <= i < j < |r| ==> collate(r[i].superTopic) <= collate(r[j].superTopic)
  {
    assert forall i :: 0 <= i < |r| ==> r[i].superTopic == names[i];
  }

  /** `getTopicTree()`: one node per distinct non-empty trimmed super-topic
      of the questions, in collation order, each with the distinct non-empty
      trimmed sub-topics of the questions under it, in collation order. */
  function GetTopicTree(qs: seq<Question>, collate: string -> real): (r: seq<TopicNode>)
    ensures forall i :: 0 <= i < |r| ==> r[i].superTopic != "" && HasSuperTopic(qs, r[i].superTopic)
    ensures forall x :: x != "" && HasSuperTopic(qs, x) ==> exists i :: 0 <= i < |r| && r[i].superTopic == x
    ensures forall i, j :: 0 <= i < j < |r| ==> r[i].superTopic != r[j].superTopic
    ensures forall i, j :: 0 <= i < j < |r| ==> collate(r[i].superTopic) <= collate(r[j].superTopic)
    ensures forall i :: 0 <= i < |r| ==> r[i] == TopicNodeOf(qs, r[i].superTopic, collate)
  {
    var supers := SortedNames(SuperTopics(qs), collate);
    var r := NodesOf(qs, supers, collate);
    TreeCoversTopics(qs, supers, r, collate);
    TreeOrdered(qs, supers, r, collate);
    r
  }

  // ---------------------------------------------------------------------
  // computeTopicPerformance: the tallies

  const OtherTopic: string := "Sonstige"
  const Unassigned: string := "Nicht zugeordnet"

  /** "Sonstige" has no white space at its ends. */
  lemma OtherTopicTrimmed()
    ensures Trim(OtherTopic) == OtherTopic && OtherTopic != ""
  {
    assert !IsSpace(OtherTopic[0]) && !IsSpace(OtherTopic[|OtherTopic| - 1]);
    TrimNoop(OtherTopic);
  }

  /** "Nicht zugeordnet" has no white space at its ends. */
  lemma UnassignedTrimmed()
    ensures Trim(Unassigned) == Unassigned && Unassigned != ""
  {
    assert !IsSpace(Unassigned[0]) && !IsSpace(Unassigned[|Unassigned| - 1]);
    TrimNoop(Unassigned);
  }

  /** With a fallback name, `NameOr` gives the trimmed name when one is
      usable and the fallback itself otherwise. */
  lemma RowName(t: Option<string>, fallback: string)
    requires fallback != "" && Trim(fallback) == fallback
    ensures NameOr(t, fallback) == if t.Some? && Trim(t.value) != "" then Trim(t.value) else fallback
  {
  }

  /** The super-topic name of a row: the trimmed name or "Sonstige". */
  lemma SuperTopicName(t: Option<string>)
    ensures NameOr(t, OtherTopic) == if t.Some? && Trim(t.value) != "" then Trim(t.value) else OtherTopic
  {
    OtherTopicTrimmed();
    RowName(t, OtherTopic);
  }

  /** The sub-topic name of a row: the trimmed name or "Nicht zugeordnet". */
  lemma SubTopicName(t: Option<string>)
    ensures NameOr(t, Unassigned) == if t.Some? && Trim(t.value) != "" then Trim(t.value) else Unassigned
  {
    UnassignedTrimmed();
    RowName(t, Unassigned);
  }

  /** `(t || fallback).trim() || fallback`: the trimmed name when it is not
      empty, otherwise the fallback (trimmed when it stood in for a missing
      or empty name). */
  function NameOr(t: Option<string>, fallback: string): (r: string)
    requires fallback != ""
    ensures r != ""
    ensures t.Some? && Trim(t.value) != "" ==> r == Trim(t.value)
    ensures t.Some? && t.value != "" && Trim(t.value) == "" ==> r == fallback
    ensures t.None? || t.value == "" ==> r == if Trim(fallback) != "" then Trim(fallback) else fallback
  {
    var v := if t.Some? && t.value != "" then t.value else fallback;
    if Trim(v) != "" then Trim(v) else fallback
  }

  /** What one question of the session adds to the tallies: its topic
      names after the fallbacks, whether it is submitted, and whether its
      result is `true`. */
  datatype Row = Row(superTopic: string, subTopic: string, answered: bool, correct: bool)

  /** The row of the question `q` with the id `qid`: a question without a
      usable super-topic counts under "Sonstige", one without a usable
      sub-topic under "Nicht zugeordnet". */
  function RowOf(s: State, qid: string, q: Question): (r: Row)
    ensures q.aiSuperTopic.Some? && Trim(q.aiSuperTopic.value) != "" ==> r.superTopic == Trim(q.aiSuperTopic.value)
    ensures q.aiSuperTopic.None? || Trim(q.aiSuperTopic.value) == "" ==> r.superTopic == OtherTopic
    ensures q.aiSubtopic.Some? && Trim(q.aiSubtopic.value) != "" ==> r.subTopic == Trim(q.aiSubtopic.value)
    ensures q.aiSubtopic.None? || Trim(q.aiSubtopic.value) == "" ==> r.subTopic == Unassigned
    ensures r.answered <==> qid in s.submitted
    ensures r.correct <==> qid in s.results && s.results[qid]
  {
    SuperTopicName(q.aiSuperTopic);
    SubTopicName(q.aiSubtopic);
    Row(NameOr(q.aiSuperTopic, OtherTopic), NameOr(q.aiSubtopic, Unassigned),
        qid in s.submitted, qid in s.results && s.results[qid])
  }

  /** The rows of the ids of `order` that the index knows, in order. */
  function Rows(s: State, byId: map<string, Question>, order: seq<string>): seq<Row> {
    if |order| == 0 then []
    else
      var qid := order[|order| - 1];
      Rows(s, byId, order[..|order| - 1]) + (if qid in byId then [RowOf(s, qid, byId[qid])] else [])
  }

  datatype Bucket = Bucket(name: string, total: nat, answered: nat, correct: nat, wrong: nat)

  /** Counts that add up: every answered question is correct or wrong. */
  predicate Consistent(b: Bucket) {
    b.correct + b.wrong == b.answered <= b.total
  }

  function Empty(name: string): Bucket {
    Bucket(name, 0, 0, 0, 0)
  }

  /** `total++` and, for a submitted question, `answered++` and `correct++`
      or `wrong++`. */
  function Tally(b: Bucket, r: Row): Bucket {
    Bucket(b.name, b.total + 1,
           if r.answered then b.answered + 1 else b.answered,
           if r.answered && r.correct then b.correct + 1 else b.correct,
           if r.answered && !r.correct then b.wrong + 1 else b.wrong)
  }

  /** The row belongs to the super-topic `sup` and, when one is given, to
      the sub-topic `sub`. */
  predicate Matches(r: Row, sup: string, sub: Option<string>) {
    r.superTopic == sup && (sub.None? || r.subTopic == sub.value)
  }

  /** No row belongs to the topic. */
  ghost predicate NoneMatch(rows: seq<Row>, sup: string, sub: Option<string>) {
    forall m :: 0 <= m < |rows| ==> !Matches(rows[m], sup, sub)
  }

  /** The bucket of one topic, tallied from its own rows alone: the
      reference the grouped tallies are measured against. Its counts add
      up, and it is empty exactly when no row belongs to the topic. */
  function Reference(rows: seq<Row>, sup: string, sub: Option<string>): (b: Bucket)
    ensures b.name == if sub.Some? then sub.value else sup
    ensures Consistent(b) && b.total <= |rows|
    ensures b.total == 0 <==> NoneMatch(rows, sup, sub)
  {
    if |rows| == 0 then Empty(if sub.Some? then sub.value else sup)
    else
      var p := rows[..|rows| - 1];
      var b := Reference(p, sup, sub);
      assert NoneMatch(rows, sup, sub) <==> NoneMatch(p, sup, sub) && !Matches(rows[|rows| - 1], sup, sub) by {
        assert forall m :: 0 <= m < |p| ==> p[m] == rows[m];
      }
      if Matches(rows[|rows| - 1], sup, sub) then Tally(b, rows[|rows| - 1]) else b
  }

  /** One more row changes only the reference of its own topics. */
  lemma ReferenceAppend(rows: seq<Row>, r: Row, sup: string, sub: Option<string>)
    ensures Reference(rows + [r], sup, sub) ==
              if Matches(r, sup, sub) then Tally(Reference(rows, sup, sub), r) else Reference(rows, sup, sub)
  {
    assert (rows + [r])[..|rows|] == rows;
  }

  /** A topic without rows has the empty bucket. */
  lemma ReferenceEmpty(rows: seq<Row>, sup: string, sub: Option<string>)
    requires NoneMatch(rows, sup, sub)
    ensures Reference(rows, sup, sub) == Empty(if sub.Some? then sub.value else sup)
  {
  }

  datatype Topic = Topic(bucket: Bucket, subtopics: seq<Bucket>)

  function BucketName(b: Bucket): string { b.name }
  function TopicBucketName(t: Topic): string { t.bucket.name }
  function TotalOf(b: Bucket): int { b.total }

  /** The position of the first element called `name`, or -1 (`Map.get`). */
  function Find<T>(xs: seq<T>, nameOf: T -> string, name: string): (k: int)
    ensures -1 <= k < |xs|
    ensures k >= 0 ==> nameOf(xs[k]) == name
    ensures k < 0 ==> forall i :: 0 <= i < |xs| ==> nameOf(xs[i]) != name
  {
    if |xs| == 0 then -1
    else if nameOf(xs[0]) == name then 0
    else
      var k := Find(xs[1..], nameOf, name);
      if k < 0 then -1 else k + 1
  }

  /** The sub-topic buckets after counting `r` under the sub-topic `name`:
      the existing bucket is counted, or a new one is appended. */
  function AddToBuckets(bs: seq<Bucket>, r: Row, name: string): seq<Bucket> {
    var k := Find(bs, BucketName, name);
    if k < 0 then bs + [Tally(Empty(name), r)] else bs[k := Tally(bs[k], r)]
  }

  /** One iteration of the loop over `state.questionOrder`. */
  function AddRow(ts: seq<Topic>, r: Row): seq<Topic> {
    var k := Find(ts, TopicBucketName, r.superTopic);
    if k < 0 then ts + [Topic(Tally(Empty(r.superTopic), r), [Tally(Empty(r.subTopic), r)])]
    else ts[k := Topic(Tally(ts[k].bucket, r), AddToBuckets(ts[k].subtopics, r, r.subTopic))]
  }

  ghost predicate HasRowUnder(rows: seq<Row>, x: string) {
    exists m :: 0 <= m < |rows| && rows[m].superTopic == x
  }

  ghost predicate HasRowPair(rows: seq<Row>, x: string, y: string) {
    exists m :: 0 <= m < |rows| && rows[m].superTopic == x && rows[m].subTopic == y
  }

  /** Some element of `xs` is called `z`. */
  ghost predicate Named<T>(xs: seq<T>, nameOf: T -> string, z: string) {
    exists k :: 0 <= k < |xs| && nameOf(xs[k]) == z
  }

  /** No two elements of `xs` share a name. */
  ghost predicate Distinct<T>(xs: seq<T>, nameOf: T -> string) {
    forall i, j :: 0 <= i < j < |xs| ==> nameOf(xs[i]) != nameOf(xs[j])
  }

  /** Replacing an element by one of the same name keeps the names. */
  lemma NamedUpdate<T>(xs: seq<T>, nameOf: T -> string, k: nat, v: T)
    requires k < |xs| && nameOf(v) == nameOf(xs[k])
    ensures forall z :: Named(xs[k := v], nameOf, z) <==> Named(xs, nameOf, z)
    ensures Distinct(xs, nameOf) ==> Distinct(xs[k := v], nameOf)
  {
    var ys := xs[k := v];
    assert forall j :: 0 <= j < |ys| ==> nameOf(ys[j]) == nameOf(xs[j]);
    forall z ensures Named(ys, nameOf, z) <==> Named(xs, nameOf, z) {
      if Named(ys, nameOf, z) {
        var j :| 0 <= j < |ys| && nameOf(ys[j]) == z;
        assert nameOf(xs[j]) == z;
      }
      if Named(xs, nameOf, z) {
        var j :| 0 <= j < |xs| && nameOf(xs[j]) == z;
        assert nameOf(ys[j]) == z;
      }
    }
  }

  /** Appending an element adds its name, and a new name keeps the names
      distinct. */
  lemma NamedAppend<T>(xs: seq<T>, nameOf: T -> string, v: T)
    ensures forall z :: Named(xs + [v], nameOf, z) <==> Named(xs, nameOf, z) || z == nameOf(v)
    ensures Distinct(xs, nameOf) && !Named(xs, nameOf, nameOf(v)) ==> Distinct(xs + [v], nameOf)
  {
    var ys := xs + [v];
    assert forall j :: 0 <= j < |xs| ==> ys[j] == xs[j];
    assert ys[|xs|] == v;
    forall z ensures Named(ys, nameOf, z) <==> Named(xs, nameOf, z) || z == nameOf(v) {
      if Named(ys, nameOf, z) && z != nameOf(v) {
        var j :| 0 <= j < |ys| && nameOf(ys[j]) == z;
        assert nameOf(xs[j]) == z;
      }
      if Named(xs, nameOf, z) {
        var j :| 0 <= j < |xs| && nameOf(xs[j]) == z;
        assert nameOf(ys[j]) == z;
      }
    }
  }

  function SumTotals(bs: seq<Bucket>): int {
    Seqs.Sum(Seqs.Map(bs, TotalOf))
  }

  lemma SumTotalsUpdate(bs: seq<Bucket>, k: nat, b: Bucket)
    requires k < |bs|
    ensures SumTotals(bs[k := b]) == SumTotals(bs) - bs[k].total + b.total
  {
    assert Seqs.Map(bs[k := b], TotalOf) == Seqs.Map(bs, TotalOf)[k := b.total];
    Seqs.SumUpdate(Seqs.Map(bs, TotalOf), k, b.total);
  }

  lemma SumTotalsAppend(bs: seq<Bucket>, b: Bucket)
    ensures SumTotals(bs + [b]) == SumTotals(bs) + b.total
  {
    assert Seqs.Map(bs + [b], TotalOf) == Seqs.Map(bs, TotalOf) + [b.total];
    Seqs.SumConcat(Seqs.Map(bs, TotalOf), [b.total]);
  }

  /** Every sub-topic bucket of the super-topic `x` is its reference tally. */
  ghost predicate SubsReferenced(bs: seq<Bucket>, rows: seq<Row>, x: string) {
    forall k :: 0 <= k < |bs| ==> bs[k] == Reference(rows, x, Some(bs[k].name))
  }

  /** A topic's tally agrees with its rows: its bucket and every sub-topic
      bucket are the reference tallies, the sub-topics are those of its
      rows, each once, and their totals add up to the topic's. */
  ghost predicate TopicOk(t: Topic, rows: seq<Row>) {
    && t.bucket == Reference(rows, t.bucket.name, None)
    && Distinct(t.subtopics, BucketName)
    && SubsReferenced(t.subtopics, rows, t.bucket.name)
    && (forall y :: Named(t.subtopics, BucketName, y) <==> HasRowPair(rows, t.bucket.name, y))
    && t.bucket.total == SumTotals(t.subtopics)
  }

  /** The grouped tallies agree with the rows: one topic per super-topic of
      the rows, each once, each agreeing with its rows. */
  ghost predicate TalliesOk(ts: seq<Topic>, rows: seq<Row>) {
    && Distinct(ts, TopicBucketName)
    && (forall i :: 0 <= i < |ts| ==> TopicOk(ts[i], rows))
    && (forall x :: Named(ts, TopicBucketName, x) <==> HasRowUnder(rows, x))
  }

  lemma RowsAppend(rows: seq<Row>, r: Row)
    ensures forall x :: HasRowUnder(rows + [r], x) <==> HasRowUnder(rows, x) || r.superTopic == x
    ensures forall x, y :: HasRowPair(rows + [r], x, y) <==>
              HasRowPair(rows, x, y) || (r.superTopic == x && r.subTopic == y)
  {
    var rs := rows + [r];
    assert rs[|rows|] == r;
    assert forall m :: 0 <= m < |rows| ==> rs[m] == rows[m];
  }

  /** A row of another sub-topic leaves the sub-topic buckets' agreement
      intact. */
  lemma SubsKept(bs: seq<Bucket>, rows: seq<Row>, x: string, r: Row, skip: int)
    requires SubsReferenced(bs, rows, x)
    requires forall k :: 0 <= k < |bs| && k != skip ==> !Matches(r, x, Some(bs[k].name))
    ensures forall k :: 0 <= k < |bs| && k != skip ==> bs[k] == Reference(rows + [r], x, Some(bs[k].name))
  {
    forall k | 0 <= k < |bs| && k != skip ensures bs[k] == Reference(rows + [r], x, Some(bs[k].name)) {
      ReferenceAppend(rows, r, x, Some(bs[k].name));
    }
  }

  /** A row of another super-topic leaves a topic's agreement intact. */
  lemma OtherTopicKept(t: Topic, rows: seq<Row>, r: Row)
    requires TopicOk(t, rows) && t.bucket.name != r.superTopic
    ensures TopicOk(t, rows + [r])
  {
    RowsAppend(rows, r);
    ReferenceAppend(rows, r, t.bucket.name, None);
    SubsKept(t.subtopics, rows, t.bucket.name, r, -1);
  }

  /** Counting a row under a sub-topic the topic already lists. */
  lemma SubsFound(t: Topic, rows: seq<Row>, r: Row)
    requires TopicOk(t, rows) && t.bucket.name == r.superTopic
    requires Find(t.subtopics, BucketName, r.subTopic) >= 0
    ensures TopicOk(Topic(Tally(t.bucket, r), AddToBuckets(t.subtopics, r, r.subTopic)), rows + [r])
  {
    var x, y, bs := t.bucket.name, r.subTopic, t.subtopics;
    var k := Find(bs, BucketName, y);
    var bs' := bs[k := Tally(bs[k], r)];
    assert AddToBuckets(bs, r, y) == bs';
    RowsAppend(rows, r);
    ReferenceAppend(rows, r, x, None);
    ReferenceAppend(rows, r, x, Some(y));
    assert Distinct(bs, BucketName);
    SubsKept(bs, rows, x, r, k);
    NamedUpdate(bs, BucketName, k, Tally(bs[k], r));
    assert Named(bs, BucketName, y);
    SumTotalsUpdate(bs, k, Tally(bs[k], r));
  }

  /** Counting a row under a sub-topic new to the topic. */
  lemma SubsNew(t: Topic, rows: seq<Row>, r: Row)
    requires TopicOk(t, rows) && t.bucket.name == r.superTopic
    requires Find(t.subtopics, BucketName, r.subTopic) < 0
    ensures TopicOk(Topic(Tally(t.bucket, r), AddToBuckets(t.subtopics, r, r.subTopic)), rows + [r])
  {
    var x, y, bs := t.bucket.name, r.subTopic, t.subtopics;
    var b := Tally(Empty(y), r);
    var bs' := bs + [b];
    assert AddToBuckets(bs, r, y) == bs';
    RowsAppend(rows, r);
    ReferenceAppend(rows, r, x, None);
    assert !Named(bs, BucketName, y);
    assert NoneMatch(rows, x, Some(y));
    ReferenceEmpty(rows, x, Some(y));
    ReferenceAppend(rows, r, x, Some(y));
    SubsKept(bs, rows, x, r, -1);
    assert forall j :: 0 <= j < |bs| ==> bs'[j] == bs[j];
    NamedAppend(bs, BucketName, b);
    SumTotalsAppend(bs, b);
  }

  /** Counting a row under a super-topic no earlier row had. */
  lemma NewTopicOk(rows: seq<Row>, r: Row)
    requires !HasRowUnder(rows, r.superTopic)
    ensures TopicOk(Topic(Tally(Empty(r.superTopic), r), [Tally(Empty(r.subTopic), r)]), rows + [r])
  {
    var x, y := r.superTopic, r.subTopic;
    var b := Tally(Empty(y), r);
    RowsAppend(rows, r);
    assert NoneMatch(rows, x, None) && NoneMatch(rows, x, Some(y));
    ReferenceEmpty(rows, x, None);
    ReferenceEmpty(rows, x, Some(y));
    ReferenceAppend(rows, r, x, None);
    ReferenceAppend(rows, r, x, Some(y));
    NamedAppend([], BucketName, b);
    assert [] + [b] == [b];
    SumTotalsAppend([], b);
    assert SumTotals([]) == 0;
  }

  /** One iteration keeps the grouped tallies in agreement with the rows
      seen so far. */
  lemma TallyStep(ts: seq<Topic>, rows: seq<Row>, r: Row)
    requires TalliesOk(ts, rows)
    ensures TalliesOk(AddRow(ts, r), rows + [r])
  {
    var x := r.superTopic;
    var k := Find(ts, TopicBucketName, x);
    RowsAppend(rows, r);
    if k >= 0 {
      var t := ts[k];
      var nt := Topic(Tally(t.bucket, r), AddToBuckets(t.subtopics, r, r.subTopic));
      if Find(t.subtopics, BucketName, r.subTopic) >= 0 {
        SubsFound(t, rows, r);
      } else {
        SubsNew(t, rows, r);
      }
      var ts' := ts[k := nt];
      assert AddRow(ts, r) == ts';
      forall i | 0 <= i < |ts'| && i != k ensures TopicOk(ts'[i], rows + [r]) {
        OtherTopicKept(ts[i], rows, r);
      }
      NamedUpdate(ts, TopicBucketName, k, nt);
      assert Named(ts, TopicBucketName, x);
    } else {
      var nt := Topic(Tally(Empty(x), r), [Tally(Empty(r.subTopic), r)]);
      var ts' := ts + [nt];
      assert AddRow(ts, r) == ts';
      assert !Named(ts, TopicBucketName, x);
      NewTopicOk(rows, r);
      forall i | 0 <= i < |ts| ensures TopicOk(ts'[i], rows + [r]) {
        OtherTopicKept(ts[i], rows, r);
      }
      NamedAppend(ts, TopicBucketName, nt);
    }
  }

  /** The `topics` map after the loop over the rows, in insertion order:
      it agrees with the rows. */
  function Tallies(rows: seq<Row>): (ts: seq<Topic>)
    ensures TalliesOk(ts, rows)
  {
    if |rows| == 0 then []
    else
      var p := rows[..|rows| - 1];
      var ts := Tallies(p);
      TallyStep(ts, p, rows[|rows| - 1]);
      assert p + [rows[|rows| - 1]] == rows;
      AddRow(ts, rows[|rows| - 1])
  }

  // ---------------------------------------------------------------------
  // computeTopicPerformance: shares and ranking

  /** A topic or sub-topic as the review shows it: its counts, the
      denominator of its shares, the rounded shares, and its ranked
      sub-topics (none for a sub-topic). */
  datatype Perf = Perf(
    bucket: Bucket, denominator: nat, correctPct: int, wrongPct: int, unansweredPct: int, subtopics: seq<Perf>)

  function PerfName(p: Perf): string { p.bucket.name }
  function PerfTotal(p: Perf): int { p.bucket.total }

  /** The shares of one bucket: the denominator is the answered questions
      or all of them; the correct and the wrong share are rounded
      percentages of it (of 1 when it is 0); the unanswered share is the
      rest up to 100, never negative, and 0 when only answered questions
      count. */
  function Rate(b: Bucket, answeredOnly: bool, subs: seq<Perf>): (p: Perf)
    requires Consistent(b)
    ensures p.bucket == b && p.subtopics == subs
    ensures p.denominator == if answeredOnly then b.answered else b.total
    ensures p.denominator > 0 ==>
              2 * p.denominator * p.correctPct <= 200 * b.correct + p.denominator < 2 * p.denominator * (p.correctPct + 1)
    ensures p.denominator > 0 ==>
              2 * p.denominator * p.wrongPct <= 200 * b.wrong + p.denominator < 2 * p.denominator * (p.wrongPct + 1)
    ensures p.denominator == 0 ==> p.correctPct == 0 && p.wrongPct == 0
    ensures 0 <= p.correctPct <= 100 && 0 <= p.wrongPct <= 100 && 0 <= p.unansweredPct <= 100
    ensures answeredOnly ==> p.unansweredPct == 0
    ensures !answeredOnly ==> p.correctPct + p.wrongPct + p.unansweredPct >= 100
    ensures p.unansweredPct > 0 ==> p.correctPct + p.wrongPct + p.unansweredPct == 100
  {
    var den := if answeredOnly then b.answered else b.total;
    var base := if den == 0 then 1 else den;
    var c := RoundPercent(b.correct, base);
    var w := RoundPercent(b.wrong, base);
    var rest := 100 - c - w;
    Perf(b, den, c, w, if answeredOnly || rest < 0 then 0 else rest, subs)
  }

  lemma Reciprocal(p: real, q: real)
    requires 0.0 < p < q
    ensures 0.0 < 1.0 / q < 1.0 / p
  {
    var u, v := 1.0 / p, 1.0 / q;
    assert u * p == 1.0 && v * q == 1.0;
    assert v > 0.0;
    assert v * p < v * q;
  }

  /** A strictly increasing map of the reals into the interval (0, 1): it
      lets one real key order by denominator first and collation second. */
  function Squash(x: real): (y: real)
    ensures 0.0 < y < 1.0
    ensures x >= 0.0 <==> y >= 0.5
  {
    SquashParts(x);
    if x >= 0.0 then 1.0 - 1.0 / (2.0 * (x + 1.0)) else 1.0 / (2.0 * (1.0 - x))
  }

  lemma SquashParts(x: real)
    ensures x >= 0.0 ==> 0.0 < 1.0 / (2.0 * (x + 1.0)) <= 0.5
    ensures x < 0.0 ==> 0.0 < 1.0 / (2.0 * (1.0 - x)) < 0.5
  {
    if x > 0.0 {
      Reciprocal(2.0, 2.0 * (x + 1.0));
    } else if x < 0.0 {
      Reciprocal(2.0, 2.0 * (1.0 - x));
    }
  }

  lemma SquashIncreasing(a: real, b: real)
    requires a < b
    ensures Squash(a) < Squash(b)
  {
    if a >= 0.0 {
      Reciprocal(2.0 * (a + 1.0), 2.0 * (b + 1.0));
    } else if b < 0.0 {
      Reciprocal(2.0 * (1.0 - b), 2.0 * (1.0 - a));
    }
  }

  /** The sort key of `b.denominator - a.denominator || a.name.localeCompare(b.name)`. */
  function RankKey(collate: string -> real): Perf -> real {
    (p: Perf) => Squash(collate(p.bucket.name)) - p.denominator as real
  }

  /** Larger denominators first; equal denominators in collation order. */
  ghost predicate Ranked(ps: seq<Perf>, collate: string -> real) {
    forall i, j :: 0 <= i < j < |ps| ==>
      ps[i].denominator > ps[j].denominator ||
      (ps[i].denominator == ps[j].denominator && collate(ps[i].bucket.name) <= collate(ps[j].bucket.name))
  }

  /** The key orders as the comparator does. */
  lemma KeyOrder(a: Perf, b: Perf, collate: string -> real)
    requires RankKey(collate)(a) <= RankKey(collate)(b)
    ensures a.denominator > b.denominator ||
            (a.denominator == b.denominator && collate(a.bucket.name) <= collate(b.bucket.name))
  {
    var sa, sb := Squash(collate(a.bucket.name)), Squash(collate(b.bucket.name));
    assert RankKey(collate)(a) == sa - a.denominator as real;
    assert RankKey(collate)(b) == sb - b.denominator as real;
    assert 0.0 < sa < 1.0 && 0.0 < sb < 1.0;
    if a.denominator == b.denominator && collate(a.bucket.name) > collate(b.bucket.name) {
      SquashIncreasing(collate(b.bucket.name), collate(a.bucket.name));
    }
  }

  /** `.sort((a, b) => b.denominator - a.denominator || a.name.localeCompare(b.name, "de"))`:
      a rearrangement, ranked. */
  function RankPerfs(ps: seq<Perf>, collate: string -> real): (r: seq<Perf>)
    ensures multiset(r) == multiset(ps) && |r| == |ps|
    ensures Ranked(r, collate)
  {
    var r := Sorting.SortBy(ps, RankKey(collate));
    forall i, j | 0 <= i < j < |r|
      ensures r[i].denominator > r[j].denominator ||
              (r[i].denominator == r[j].denominator && collate(r[i].bucket.name) <= collate(r[j].bucket.name))
    {
      KeyOrder(r[i], r[j], collate);
    }
    r
  }

  // ---------------------------------------------------------------------
  // computeTopicPerformance

  /** Every count of the topic adds up. */
  predicate TopicConsistent(t: Topic) {
    Consistent(t.bucket) && forall k :: 0 <= k < |t.subtopics| ==> Consistent(t.subtopics[k])
  }

  lemma TalliesConsistent(ts: seq<Topic>, rows: seq<Row>)
    requires TalliesOk(ts, rows)
    ensures forall i :: 0 <= i < |ts| ==> TopicConsistent(ts[i])
  {
    forall i | 0 <= i < |ts| ensures TopicConsistent(ts[i]) {
      assert TopicOk(ts[i], rows);
      assert SubsReferenced(ts[i].subtopics, rows, ts[i].bucket.name);
    }
  }

  /** The sub-topic rows of one topic, unranked. */
  function SubPerfs(bs: seq<Bucket>, answeredOnly: bool): (r: seq<Perf>)
    requires forall k :: 0 <= k < |bs| ==> Consistent(bs[k])
    ensures |r| == |bs| && forall k :: 0 <= k < |bs| ==> r[k] == Rate(bs[k], answeredOnly, [])
  {
    seq(|bs|, k requires 0 <= k < |bs| => Rate(bs[k], answeredOnly, []))
  }

  /** One topic with its ranked sub-topics. */
  function TopicPerf(t: Topic, answeredOnly: bool, collate: string -> real): Perf
    requires TopicConsistent(t)
  {
    Rate(t.bucket, answeredOnly, RankPerfs(SubPerfs(t.subtopics, answeredOnly), collate))
  }

  /** The topics in insertion order, before ranking. */
  function TopicPerfs(ts: seq<Topic>, answeredOnly: bool, collate: string -> real): (r: seq<Perf>)
    requires forall i :: 0 <= i < |ts| ==> TopicConsistent(ts[i])
    ensures |r| == |ts| && forall i :: 0 <= i < |ts| ==> r[i] == TopicPerf(ts[i], answeredOnly, collate)
  {
    seq(|ts|, i requires 0 <= i < |ts| => TopicPerf(ts[i], answeredOnly, collate))
  }

  /** The rows of the session: the questions of `state.questionOrder` that
      the index `byId` knows. */
  function SessionRows(s: State, byId: map<string, Question>): seq<Row> {
    Rows(s, byId, s.questionOrder)
  }

  /** `computeTopicPerformance({ answeredOnly })` with the question index
      `byId`: the topics ranked by denominator, larger first, equal ones in
      collation order, and the sub-topics of every topic ranked the same
      way. */
  function ComputeTopicPerformance(s: State, byId: map<string, Question>, answeredOnly: bool, collate: string -> real)
    : (r: seq<Perf>)
    ensures Ranked(r, collate)
    ensures forall i :: 0 <= i < |r| ==> Ranked(r[i].subtopics, collate)
  {
    var rows := SessionRows(s, byId);
    var ts := Tallies(rows);
    TalliesConsistent(ts, rows);
    var perfs := TopicPerfs(ts, answeredOnly, collate);
    var r := RankPerfs(perfs, collate);
    forall i | 0 <= i < |r| ensures Ranked(r[i].subtopics, collate) {
      assert r[i] in multiset(perfs);
    }
    r
  }

  /** Rearranging keeps the names, and distinct names stay distinct. */
  lemma PermutationNames<T>(a: seq<T>, b: seq<T>, nameOf: T -> string)
    requires multiset(a) == multiset(b)
    ensures forall z :: Named(a, nameOf, z) <==> Named(b, nameOf, z)
    ensures Distinct(a, nameOf) ==> Distinct(b, nameOf)
  {
    var ma, mb := Seqs.Map(a, nameOf), Seqs.Map(b, nameOf);
    Seqs.MapPermutation(a, b, nameOf);
    forall z ensures Named(a, nameOf, z) <==> z in multiset(ma) {
      if Named(a, nameOf, z) {
        var k :| 0 <= k < |a| && nameOf(a[k]) == z;
        assert ma[k] == z;
      }
    }
    forall z ensures Named(b, nameOf, z) <==> z in multiset(mb) {
      if Named(b, nameOf, z) {
        var k :| 0 <= k < |b| && nameOf(b[k]) == z;
        assert mb[k] == z;
      }
    }
    if Distinct(a, nameOf) {
      assert Seqs.NoDups(ma);
      Seqs.NoDupsAfterPermutation(ma, mb);
    }
  }

  /** A topic, a sub-topic and the rows they were tallied from agree. */
  ghost predicate PerfOk(p: Perf, rows: seq<Row>, answeredOnly: bool) {
    && p.bucket == Reference(rows, p.bucket.name, None)
    && p.bucket.total == Seqs.Sum(Seqs.Map(p.subtopics, PerfTotal))
    && Distinct(p.subtopics, PerfName)
    && (forall y :: Named(p.subtopics, PerfName, y) <==> HasRowPair(rows, p.bucket.name, y))
    && (forall k :: 0 <= k < |p.subtopics| ==>
          p.subtopics[k].bucket == Reference(rows, p.bucket.name, Some(p.subtopics[k].bucket.name)))
    && p == Rate(p.bucket, answeredOnly, p.subtopics)
    && (forall k :: 0 <= k < |p.subtopics| ==> p.subtopics[k] == Rate(p.subtopics[k].bucket, answeredOnly, []))
  }

  /** The sub-topic totals survive ranking. */
  lemma RankedSubTotals(bs: seq<Bucket>, answeredOnly: bool, collate: string -> real)
    requires forall k :: 0 <= k < |bs| ==> Consistent(bs[k])
    ensures Seqs.Sum(Seqs.Map(RankPerfs(SubPerfs(bs, answeredOnly), collate), PerfTotal)) == SumTotals(bs)
  {
    var subs := SubPerfs(bs, answeredOnly);
    var ranked := RankPerfs(subs, collate);
    assert Seqs.Map(subs, PerfTotal) == Seqs.Map(bs, TotalOf);
    Seqs.MapPermutation(subs, ranked, PerfTotal);
    Seqs.SumPermutation(Seqs.Map(subs, PerfTotal), Seqs.Map(ranked, PerfTotal));
  }

  /** The sub-topic names survive rating and ranking. */
  lemma RankedSubNames(bs: seq<Bucket>, answeredOnly: bool, collate: string -> real)
    requires forall k :: 0 <= k < |bs| ==> Consistent(bs[k])
    ensures forall y :: Named(RankPerfs(SubPerfs(bs, answeredOnly), collate), PerfName, y) <==> Named(bs, BucketName, y)
    ensures Distinct(bs, BucketName) ==> Distinct(RankPerfs(SubPerfs(bs, answeredOnly), collate), PerfName)
  {
    var subs := SubPerfs(bs, answeredOnly);
    PermutationNames(subs, RankPerfs(subs, collate), PerfName);
    assert forall k :: 0 <= k < |bs| ==> PerfName(subs[k]) == BucketName(bs[k]);
    forall y ensures Named(subs, PerfName, y) <==> Named(bs, BucketName, y) {
      if Named(bs, BucketName, y) {
        var k :| 0 <= k < |bs| && BucketName(bs[k]) == y;
        assert PerfName(subs[k]) == y;
      }
    }
  }

  /** A topic that agrees with its rows gives a review entry that agrees
      with them. */
  lemma TopicPerfOk(t: Topic, rows: seq<Row>, answeredOnly: bool, collate: string -> real)
    requires TopicOk(t, rows) && TopicConsistent(t)
    ensures PerfOk(TopicPerf(t, answeredOnly, collate), rows, answeredOnly)
  {
    RankedSubTotals(t.subtopics, answeredOnly, collate);
    RankedSubNames(t.subtopics, answeredOnly, collate);
    RankedSubsReferenced(t.subtopics, rows, t.bucket.name, answeredOnly, collate);
  }

  /** Every ranked sub-topic entry is the rating of a reference tally. */
  lemma RankedSubsReferenced(bs: seq<Bucket>, rows: seq<Row>, x: string, answeredOnly: bool, collate: string -> real)
    requires forall k :: 0 <= k < |bs| ==> Consistent(bs[k])
    requires SubsReferenced(bs, rows, x)
    ensures var ranked := RankPerfs(SubPerfs(bs, answeredOnly), collate);
      forall k :: 0 <= k < |ranked| ==>
        && ranked[k].bucket == Reference(rows, x, Some(ranked[k].bucket.name))
        && ranked[k] == Rate(ranked[k].bucket, answeredOnly, [])
  {
    var subs := SubPerfs(bs, answeredOnly);
    var ranked := RankPerfs(subs, collate);
    SubsRated(bs, rows, x, answeredOnly);
    forall k | 0 <= k < |ranked|
      ensures ranked[k] in subs
    {
      assert ranked[k] in multiset(ranked);
    }
  }

  /** Every rated sub-topic entry is the rating of a reference tally. */
  lemma SubsRated(bs: seq<Bucket>, rows: seq<Row>, x: string, answeredOnly: bool)
    requires forall k :: 0 <= k < |bs| ==> Consistent(bs[k])
    requires SubsReferenced(bs, rows, x)
    ensures forall p :: p in SubPerfs(bs, answeredOnly) ==>
              p.bucket == Reference(rows, x, Some(p.bucket.name)) && p == Rate(p.bucket, answeredOnly, [])
  {
    var subs := SubPerfs(bs, answeredOnly);
    forall p | p in subs
      ensures p.bucket == Reference(rows, x, Some(p.bucket.name)) && p == Rate(p.bucket, answeredOnly, [])
    {
      var m :| 0 <= m < |subs| && subs[m] == p;
      assert p.bucket == bs[m];
    }
  }

  /** Every entry of the review agrees with the rows of the session: its
      counts are those of its own rows, its sub-topics are those of its
      rows, each once, with totals adding up to the topic's, and all shares
      are computed from those counts. */
  lemma TopicPerformanceAgrees(s: State, byId: map<string, Question>, answeredOnly: bool, collate: string -> real)
    ensures forall i :: 0 <= i < |ComputeTopicPerformance(s, byId, answeredOnly, collate)| ==>
              PerfOk(ComputeTopicPerformance(s, byId, answeredOnly, collate)[i], SessionRows(s, byId), answeredOnly)
  {
    var rows := SessionRows(s, byId);
    var ts := Tallies(rows);
    TalliesConsistent(ts, rows);
    var perfs := TopicPerfs(ts, answeredOnly, collate);
    var r := ComputeTopicPerformance(s, byId, answeredOnly, collate);
    assert r == RankPerfs(perfs, collate);
    forall i | 0 <= i < |r| ensures PerfOk(r[i], rows, answeredOnly) {
      assert r[i] in multiset(perfs);
      var m :| 0 <= m < |perfs| && perfs[m] == r[i];
      TopicPerfOk(ts[m], rows, answeredOnly, collate);
    }
  }

  /** The review lists every super-topic of the session's rows exactly
      once, and nothing else. */
  lemma TopicPerformanceCovers(s: State, byId: map<string, Question>, answeredOnly: bool, collate: string -> real)
    ensures Distinct(ComputeTopicPerformance(s, byId, answeredOnly, collate), PerfName)
    ensures forall x :: Named(ComputeTopicPerformance(s, byId, answeredOnly, collate), PerfName, x) <==>
              HasRowUnder(SessionRows(s, byId), x)
  {
    var rows := SessionRows(s, byId);
    var ts := Tallies(rows);
    TalliesConsistent(ts, rows);
    var perfs := TopicPerfs(ts, answeredOnly, collate);
    var r := ComputeTopicPerformance(s, byId, answeredOnly, collate);
    assert r == RankPerfs(perfs, collate);
    PermutationNames(perfs, r, PerfName);
    TopicPerfNames(ts, answeredOnly, collate);
  }

  /** Rating the topics keeps their names. */
  lemma TopicPerfNames(ts: seq<Topic>, answeredOnly: bool, collate: string -> real)
    requires forall i :: 0 <= i < |ts| ==> TopicConsistent(ts[i])
    ensures forall x :: Named(TopicPerfs(ts, answeredOnly, collate), PerfName, x) <==> Named(ts, TopicBucketName, x)
    ensures Distinct(ts, TopicBucketName) ==> Distinct(TopicPerfs(ts, answeredOnly, collate), PerfName)
  {
    var perfs := TopicPerfs(ts, answeredOnly, collate);
    assert forall i :: 0 <= i < |ts| ==> PerfName(perfs[i]) == TopicBucketName(ts[i]);
    forall x ensures Named(perfs, PerfName, x) <==> Named(ts, TopicBucketName, x) {
      if Named(ts, TopicBucketName, x) {
        var i :| 0 <= i < |ts| && TopicBucketName(ts[i]) == x;
        assert PerfName(perfs[i]) == x;
      }
    }
  }
}
