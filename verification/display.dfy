/** The pure decisions of src/ui/render.js about what a question shows and
    how a stored selection follows it: the displayed version of a question,
    the question answers are scored against, the normalisation of a stored
    selection, the option-change handler and the override the editor saves.
    The functions render.js imports from modules outside this model
    (`applyLocalQuestionOverride`, `getCorrectIndices`, `evaluate`) are
    fields of `RenderEnv`. */
module Display {
  import opened Wrappers
  import opened Js
  import opened Questions
  import opened AppState
  import QuestionVariant
  import Seqs
  import Sorting

  /** `applyLocalQuestionOverride(q, override)`,
      `getCorrectIndices(q, { preferOriginal })` and
      `evaluate(q, selection, { preferOriginal })`. */
  datatype RenderEnv = RenderEnv(
    applyOverride: (Question, Option<LocalOverride>) -> Question,
    correctIndices: (Question, bool) -> seq<int>,
    evaluate: (Question, seq<int>, bool) -> bool)

  /** What `getDisplayedQuestion` returns (its `imageReferenceText` is always
      `null`). Answers taken from a question keep their correctness flag. */
  datatype Displayed = Displayed(
    text: string,
    answers: seq<QuestionVariant.VariantAnswer>,
    imageFiles: seq<Json>,
    usedAiReconstruction: bool,
    hasLocalOverride: bool)

  /** The quiz and review views, where the AI variant can be shown. */
  predicate InSession(v: View) {
    v == QuizView || v == ReviewView
  }

  /** `state.localQuestionOverrides.get(id)`. */
  function OverrideOf(s: State, id: string): (r: Option<LocalOverride>)
    ensures r.Some? <==> id in s.localQuestionOverrides
    ensures r.Some? ==> r.value == s.localQuestionOverrides[id]
  {
    if id in s.localQuestionOverrides then Some(s.localQuestionOverrides[id]) else None
  }

  /** A question as displayed, without AI reconstruction. */
  function Plain(q: Question, hasOverride: bool): Displayed {
    Displayed(q.text, QuestionVariant.OriginalAnswers(q), q.imageFiles, false, hasOverride)
  }

  /** `getQuestionForEvaluation(q)`: the question with the user's override
      applied, whatever the view, the forced-original flag or the quiz
      configuration. */
  function GetQuestionForEvaluation(env: RenderEnv, s: State, q: Question): Question {
    env.applyOverride(q, OverrideOf(s, q.id))
  }

  /** `getDisplayedQuestion(q)`. */
  function GetDisplayedQuestion(env: RenderEnv, s: State, q: Question): (d: Displayed)
    ensures d.hasLocalOverride <==> q.id in s.localQuestionOverrides
    ensures !InSession(s.view) ==> d == Plain(GetQuestionForEvaluation(env, s, q), d.hasLocalOverride)
    ensures InSession(s.view) && q.id in s.forceOriginalQuestionView ==> d == Plain(q, d.hasLocalOverride)
    ensures InSession(s.view) && q.id !in s.forceOriginalQuestionView && d.hasLocalOverride ==>
              d == Plain(GetQuestionForEvaluation(env, s, q), true)
    ensures InSession(s.view) && q.id !in s.forceOriginalQuestionView && !d.hasLocalOverride ==>
              var v := QuestionVariant.GetQuizQuestionVariant(q, s.quizConfig);
              d == Displayed(v.text, v.answers, q.imageFiles, v.usedAiReconstruction, false)
    ensures d.imageFiles == q.imageFiles || d.imageFiles == GetQuestionForEvaluation(env, s, q).imageFiles
  {
    var localOverride := OverrideOf(s, q.id);
    var base := env.applyOverride(q, localOverride);
    if !InSession(s.view) then Plain(base, localOverride.Some?)
    else if q.id in s.forceOriginalQuestionView then Plain(q, localOverride.Some?)
    else if localOverride.Some? then Plain(base, true)
    else
      var v := QuestionVariant.GetQuizQuestionVariant(q, s.quizConfig);
      Displayed(v.text, v.answers, q.imageFiles, v.usedAiReconstruction, false)
  }

  /** The AI reconstruction is shown only in a quiz or review, only without
      the forced-original flag and without a local override, and only when
      AI mode is on and the question has a reconstruction. */
  lemma AiReconstructionPrecedence(env: RenderEnv, s: State, q: Question)
    ensures GetDisplayedQuestion(env, s, q).usedAiReconstruction <==>
              && InSession(s.view)
              && q.id !in s.forceOriginalQuestionView
              && q.id !in s.localQuestionOverrides
              && QuestionVariant.AiModeEnabled(s.quizConfig)
              && QuestionVariant.HasReconstruction(q)
  {
  }

  /** Answers that carry a correctness flag come from a question the user
      can see the flags of: the variant never invents correctness data, so
      scoring keeps using the canonical or overridden question. */
  lemma DisplayedFlagsComeFromAQuestion(env: RenderEnv, s: State, q: Question, a: QuestionVariant.VariantAnswer)
    requires a in GetDisplayedQuestion(env, s, q).answers && a.isCorrect.Some?
    ensures Answer(a.text, a.isCorrect.value) in q.answers
            || Answer(a.text, a.isCorrect.value) in GetQuestionForEvaluation(env, s, q).answers
  {
    var d := GetDisplayedQuestion(env, s, q);
    var base := GetQuestionForEvaluation(env, s, q);
    if d.answers == QuestionVariant.OriginalAnswers(base) {
      var i :| 0 <= i < |d.answers| && d.answers[i] == a;
      assert base.answers[i] == Answer(a.text, a.isCorrect.value);
    } else if d.answers == QuestionVariant.OriginalAnswers(q) {
      var i :| 0 <= i < |d.answers| && d.answers[i] == a;
      assert q.answers[i] == Answer(a.text, a.isCorrect.value);
    }
  }

  /** `usesOriginalSolutionInQuiz(q)`. */
  predicate UsesOriginalSolutionInQuiz(s: State, q: Question) {
    InSession(s.view) && Get(s.quizConfig, "useAiModifiedAnswers") == Bool(false) && Truthy(q.aiChangedAnswers)
  }

  /** `isAiModeEnabled()`, which reads `state.quizConfig || {}` instead of
      `quizConfig?.`: it agrees with the test `getQuizQuestionVariant` makes
      for every configuration value. */
  function IsAiModeEnabled(s: State): (r: bool)
    ensures r == QuestionVariant.AiModeEnabled(s.quizConfig)
  {
    var cfg := Or(s.quizConfig, Obj(map[]));
    Coalesce(Get(cfg, "aiModeEnabled"), Get(cfg, "useAiModifiedAnswers")) != Bool(false)
  }

  // ---------------------------------------------------------------------
  // aiExplanationTooltipForOption

  /** `s || null` for an optional string. */
  function NonEmpty(t: Option<string>): (r: Option<string>)
    ensures r.Some? <==> t.Some? && t.value != ""
    ensures r.Some? ==> r == t
  {
    if t.Some? && t.value != "" then t else None
  }

  /** Some wrong-option explanation is about `answerIndex`. */
  predicate HasWrongEntry(entries: seq<WrongOption>, answerIndex: int) {
    exists j :: 0 <= j < |entries| && entries[j].answerIndex == answerIndex
  }

  /** The position of the first wrong-option explanation for `answerIndex`
      (`find((entry) => entry.answerIndex === answerIndex)`). */
  function FindWrong(entries: seq<WrongOption>, answerIndex: int): (r: Option<nat>)
    ensures r.Some? ==> r.value < |entries| && entries[r.value].answerIndex == answerIndex
    ensures r.Some? ==> forall j :: 0 <= j < r.value ==> entries[j].answerIndex != answerIndex
    ensures r.None? ==> forall j :: 0 <= j < |entries| ==> entries[j].answerIndex != answerIndex
  {
    if |entries| == 0 then None
    else if entries[0].answerIndex == answerIndex then Some(0)
    else
      match FindWrong(entries[1..], answerIndex)
      case None => None
      case Some(k) => Some(k + 1)
  }

  /** `aiExplanationTooltipForOption(q, answerIndex, correctSet)`: for a
      correct option the correctness explanation, otherwise the reason of
      the first wrong-option entry for this option; `None` when that text
      is missing or empty. */
  function AiExplanationTooltipForOption(q: Question, answerIndex: int, correctSet: set<int>): (r: Option<string>)
    ensures r.Some? ==> r.value != ""
    ensures answerIndex in correctSet ==> r == NonEmpty(q.aiCorrectnessExplanation)
    ensures answerIndex !in correctSet && r.Some? ==>
              exists k :: 0 <= k < |q.aiWrongOptionExplanations|
                && q.aiWrongOptionExplanations[k] == WrongOption(answerIndex, r.value)
                && forall j :: 0 <= j < k ==> q.aiWrongOptionExplanations[j].answerIndex != answerIndex
    ensures answerIndex !in correctSet && !HasWrongEntry(q.aiWrongOptionExplanations, answerIndex) ==> r.None?
    ensures answerIndex !in correctSet ==>
              forall k :: 0 <= k < |q.aiWrongOptionExplanations|
                && q.aiWrongOptionExplanations[k].answerIndex == answerIndex
                && (forall j :: 0 <= j < k ==> q.aiWrongOptionExplanations[j].answerIndex != answerIndex)
                && q.aiWrongOptionExplanations[k].whyWrong != ""
                ==> r == Some(q.aiWrongOptionExplanations[k].whyWrong)
  {
    if answerIndex in correctSet then NonEmpty(q.aiCorrectnessExplanation)
    else
      match FindWrong(q.aiWrongOptionExplanations, answerIndex)
      case None => None
      case Some(k) => NonEmpty(Some(q.aiWrongOptionExplanations[k].whyWrong))
  }

  // ---------------------------------------------------------------------
  // normalizeAnswerStateForVariant

  /** `(idx) => idx >= 0 && idx < answerCount`. */
  function InRange(count: int): int -> bool {
    idx => 0 <= idx < count
  }

  /** A filter that keeps everything returns its input. */
  lemma {:induction false} FilterKeepsAll(xs: seq<int>, p: int -> bool)
    requires forall i :: 0 <= i < |xs| ==> p(xs[i])
    ensures Seqs.Filter(xs, p) == xs
  {
    if |xs| > 0 {
      FilterKeepsAll(xs[1..], p);
      assert xs == [xs[0]] + xs[1..];
    }
  }

  /** `state.answers.get(qid) || []`. */
  function StoredSelection(s: State, id: string): seq<int> {
    if id in s.answers then s.answers[id] else []
  }

  /** The question the selection is scored against. */
  function CompareQuestion(env: RenderEnv, s: State, q: Question): Question {
    if q.id in s.forceOriginalQuestionView then q else GetQuestionForEvaluation(env, s, q)
  }

  /** The effective correct indices, whose count decides single or multiple
      choice. */
  function EffectiveCorrect(env: RenderEnv, s: State, q: Question): seq<int> {
    env.correctIndices(CompareQuestion(env, s, q), UsesOriginalSolutionInQuiz(s, q))
  }

  /** The selection `normalizeAnswerStateForVariant` stores: the stored
      indices within the displayed answers, cut to the first one for a
      single-answer question. */
  function NormalizedSelection(env: RenderEnv, s: State, q: Question): (r: seq<int>)
    ensures forall x :: x in r ==> 0 <= x < |GetDisplayedQuestion(env, s, q).answers|
    ensures forall x :: x in r ==> x in StoredSelection(s, q.id)
    ensures |EffectiveCorrect(env, s, q)| <= 1 ==> |r| <= 1
    ensures |EffectiveCorrect(env, s, q)| > 1 ==>
              forall x :: x in StoredSelection(s, q.id) && 0 <= x < |GetDisplayedQuestion(env, s, q).answers| ==> x in r
    ensures |EffectiveCorrect(env, s, q)| <= 1 && |r| == 0 ==>
              forall x :: x in StoredSelection(s, q.id) ==> !(0 <= x < |GetDisplayedQuestion(env, s, q).answers|)
    ensures |EffectiveCorrect(env, s, q)| > 1 ==>
              Seqs.FilteredInOrder(r, StoredSelection(s, q.id), InRange(|GetDisplayedQuestion(env, s, q).answers|))
    ensures |EffectiveCorrect(env, s, q)| <= 1 && |r| == 1 ==>
              exists i :: 0 <= i < |StoredSelection(s, q.id)| && r[0] == StoredSelection(s, q.id)[i]
                && (forall j :: 0 <= j < i ==> !(0 <= StoredSelection(s, q.id)[j] < |GetDisplayedQuestion(env, s, q).answers|))
  {
    KeptSelection(StoredSelection(s, q.id), |GetDisplayedQuestion(env, s, q).answers|, |EffectiveCorrect(env, s, q)| > 1)
  }

  /** The in-range entries of `stored`, all of them when `multi` holds and
      only the first one otherwise. */
  function KeptSelection(stored: seq<int>, count: int, multi: bool): (r: seq<int>)
    ensures forall x :: x in r ==> 0 <= x < count && x in stored
    ensures !multi ==> |r| <= 1
    ensures multi ==> forall x :: x in stored && 0 <= x < count ==> x in r
    ensures !multi && |r| == 0 ==> forall x :: x in stored ==> !(0 <= x < count)
    ensures multi ==> Seqs.FilteredInOrder(r, stored, InRange(count))
    ensures !multi && |r| == 1 ==>
              exists i :: 0 <= i < |stored| && r[0] == stored[i]
                && (forall j :: 0 <= j < i ==> !(0 <= stored[j] < count))
  {
    var selected := Seqs.Filter(stored, InRange(count));
    Seqs.FilterInOrder(stored, InRange(count));
    FirstSelected(stored, InRange(count));
    if multi then selected
    else if |selected| == 0 then selected
    else
      assert selected[0] in selected;
      selected[..1]
  }

  /** The first element a filter keeps is the first element of the input
      that satisfies the predicate. */
  lemma FirstSelected(xs: seq<int>, p: int -> bool)
    ensures |Seqs.Filter(xs, p)| > 0 ==>
              exists i :: 0 <= i < |xs| && Seqs.Filter(xs, p)[0] == xs[i] && p(xs[i])
                && forall j :: 0 <= j < i ==> !p(xs[j])
  {
    FilterHead(xs, p);
  }

  /** The position of the first element of `xs` that satisfies `p`, or
      `|xs|` when there is none. */
  function FirstIndex(xs: seq<int>, p: int -> bool): (i: nat)
    ensures i <= |xs|
    ensures i < |xs| ==> p(xs[i])
    ensures forall j :: 0 <= j < i ==> !p(xs[j])
  {
    if |xs| == 0 then 0
    else if p(xs[0]) then 0
    else
      var k := FirstIndex(xs[1..], p);
      assert forall j :: 1 <= j < k + 1 ==> xs[j] == xs[1..][j - 1];
      k + 1
  }

  /** The first element a filter keeps sits at `FirstIndex`. */
  lemma {:induction false} FilterHead(xs: seq<int>, p: int -> bool)
    ensures |Seqs.Filter(xs, p)| > 0 ==>
              FirstIndex(xs, p) < |xs| && Seqs.Filter(xs, p)[0] == xs[FirstIndex(xs, p)]
  {
    if |xs| > 0 && !p(xs[0]) {
      FilterHead(xs[1..], p);
      assert Seqs.Filter(xs, p) == Seqs.Filter(xs[1..], p);
    }
  }

  /** `normalizeAnswerStateForVariant(q)`: the selection of `q` is
      normalised, its result is re-scored when it was submitted, and nothing
      else changes. */
  function NormalizeAnswerStateForVariant(env: RenderEnv, s: State, q: Question): (r: State)
    ensures r.answers == s.answers[q.id := NormalizedSelection(env, s, q)]
    ensures q.id in s.submitted ==>
              r.results == s.results[q.id := env.evaluate(CompareQuestion(env, s, q), NormalizedSelection(env, s, q), UsesOriginalSolutionInQuiz(s, q))]
    ensures q.id !in s.submitted ==> r.results == s.results
    ensures r.(answers := s.answers, results := s.results) == s
  {
    var sel := NormalizedSelection(env, s, q);
    var results :=
      if q.id in s.submitted then
        s.results[q.id := env.evaluate(CompareQuestion(env, s, q), sel, UsesOriginalSolutionInQuiz(s, q))]
      else s.results;
    s.(answers := s.answers[q.id := sel], results := results)
  }

  /** Normalising twice is normalising once: the stored selection is
      already in range and short enough, and the score is recomputed from
      the same inputs. */
  lemma NormalizeAnswerStateSettles(env: RenderEnv, s: State, q: Question)
    ensures var r := NormalizeAnswerStateForVariant(env, s, q);
            NormalizeAnswerStateForVariant(env, r, q) == r
  {
    var r := NormalizeAnswerStateForVariant(env, s, q);
    var sel := NormalizedSelection(env, s, q);
    SameInputs(env, s, r, q);
    SelectionSettles(env, s, r, q);
    UpdateSame(r.answers, q.id, sel);
    if q.id in s.submitted {
      UpdateSame(r.results, q.id, env.evaluate(CompareQuestion(env, s, q), sel, UsesOriginalSolutionInQuiz(s, q)));
    }
    SettledFields(r, NormalizeAnswerStateForVariant(env, r, q));
  }

  /** Storing the value a map already holds leaves it as it is. */
  lemma UpdateSame<K, V>(m: map<K, V>, k: K, v: V)
    requires k in m && m[k] == v
    ensures m[k := v] == m
  {
  }

  /** A state that agrees with `r` on everything, including answers and
      results, is `r`. */
  lemma SettledFields(r: State, r2: State)
    requires r2.(answers := r.answers, results := r.results) == r
    requires r2.answers == r.answers && r2.results == r.results
    ensures r2 == r
  {
  }

  /** Normalising changes none of the inputs the normalisation reads except
      the stored selection itself. */
  lemma SameInputs(env: RenderEnv, s: State, r: State, q: Question)
    requires r == NormalizeAnswerStateForVariant(env, s, q)
    ensures GetDisplayedQuestion(env, r, q) == GetDisplayedQuestion(env, s, q)
    ensures CompareQuestion(env, r, q) == CompareQuestion(env, s, q)
    ensures UsesOriginalSolutionInQuiz(r, q) == UsesOriginalSolutionInQuiz(s, q)
    ensures EffectiveCorrect(env, r, q) == EffectiveCorrect(env, s, q)
    ensures r.submitted == s.submitted
  {
    assert r.(answers := s.answers, results := s.results) == s;
    assert r.view == s.view && r.localQuestionOverrides == s.localQuestionOverrides;
    assert r.forceOriginalQuestionView == s.forceOriginalQuestionView && r.quizConfig == s.quizConfig;
  }

  /** A normalised selection normalises to itself. */
  lemma SelectionSettles(env: RenderEnv, s: State, r: State, q: Question)
    requires r == NormalizeAnswerStateForVariant(env, s, q)
    requires GetDisplayedQuestion(env, r, q) == GetDisplayedQuestion(env, s, q)
    requires EffectiveCorrect(env, r, q) == EffectiveCorrect(env, s, q)
    ensures NormalizedSelection(env, r, q) == NormalizedSelection(env, s, q)
  {
    var sel := NormalizedSelection(env, s, q);
    var count := |GetDisplayedQuestion(env, s, q).answers|;
    assert StoredSelection(r, q.id) == sel;
    assert forall i :: 0 <= i < |sel| ==> sel[i] in sel;
    FilterKeepsAll(sel, InRange(count));
  }

  // ---------------------------------------------------------------------
  // The option-change handler

  /** Strictly increasing: sorted and free of duplicates. */
  ghost predicate StrictlyIncreasing(xs: seq<int>) {
    forall i, j :: 0 <= i < j < |xs| ==> xs[i] < xs[j]
  }

  function IntKey(x: int): real {
    x as real
  }

  /** `Array.from(set).sort((x, y) => x - y)` for a set built from `xs`. */
  function SortedDistinct(xs: seq<int>): (r: seq<int>)
    ensures StrictlyIncreasing(r)
    ensures forall x :: x in r <==> x in xs
  {
    var d := Seqs.Dedup(xs);
    var r := Sorting.SortBy(d, IntKey);
    forall i, j | 0 <= i < j < |r|
      ensures r[i] < r[j]
    {
      assert r[i] <= r[j];
      Seqs.DistinctAfterPermutation(d, r, i, j);
    }
    assert forall x :: x in r <==> x in multiset(r);
    r
  }

  /** A strictly increasing list is determined by its elements. */
  lemma {:induction false} StrictlyIncreasingUnique(a: seq<int>, b: seq<int>)
    requires StrictlyIncreasing(a) && StrictlyIncreasing(b)
    requires forall x :: x in a <==> x in b
    ensures a == b
    decreases |a|
  {
    if |a| > 0 { assert a[0] in a; }
    if |b| > 0 { assert b[0] in b; }
    if |a| > 0 && |b| > 0 {
      assert a[0] in b && b[0] in a;
      assert a[0] == b[0];
      forall x ensures x in a[1..] <==> x in b[1..] {
        if x in a[1..] { assert x > a[0]; assert x in b; }
        if x in b[1..] { assert x > b[0]; assert x in a; }
      }
      StrictlyIncreasingUnique(a[1..], b[1..]);
      assert a == [a[0]] + a[1..] && b == [b[0]] + b[1..];
    }
  }

  /** The `change` handler of option `origIdx`: a checkbox adds or removes
      its index and stores the distinct indices in ascending order; a radio
      button stores its index alone. */
  function OptionChange(cur: seq<int>, origIdx: int, multi: bool, checked: bool): (r: seq<int>)
    ensures !multi ==> r == [origIdx]
    ensures multi ==> StrictlyIncreasing(r)
    ensures multi && checked ==> forall x :: x in r <==> x in cur || x == origIdx
    ensures multi && !checked ==> forall x :: x in r <==> x in cur && x != origIdx
  {
    if !multi then [origIdx]
    else
      var set0 := Seqs.Dedup(cur);
      var next := if checked then set0 + [origIdx] else Seqs.Filter(set0, x => x != origIdx);
      SortedDistinct(next)
  }

  /** Repeating a change event changes nothing more: the stored selection
      depends only on which indices are selected. */
  lemma OptionChangeSettles(cur: seq<int>, origIdx: int, multi: bool, checked: bool)
    ensures var r := OptionChange(cur, origIdx, multi, checked);
            OptionChange(r, origIdx, multi, checked) == r
  {
    var r := OptionChange(cur, origIdx, multi, checked);
    if multi {
      StrictlyIncreasingUnique(OptionChange(r, origIdx, multi, checked), r);
    }
  }

  /** Checking a box and unchecking it again leaves the selection the box
      did not belong to, in ascending order. */
  lemma OptionToggleBack(cur: seq<int>, origIdx: int)
    requires origIdx !in cur
    ensures OptionChange(OptionChange(cur, origIdx, true, true), origIdx, true, false)
            == OptionChange(cur, origIdx, true, false)
  {
    StrictlyIncreasingUnique(OptionChange(OptionChange(cur, origIdx, true, true), origIdx, true, false),
                             OptionChange(cur, origIdx, true, false));
  }

  // ---------------------------------------------------------------------
  // Saving the editor

  /** An answer row of the editor: its text field and its checkbox. */
  datatype DraftAnswer = DraftAnswer(text: string, isCorrect: bool)

  /** `answers.map((a, idx) => (a.isCorrect ? idx : -1))`. */
  function IndexOrMinusOne(answers: seq<Answer>): (r: seq<int>)
    ensures |r| == |answers|
    ensures forall i :: 0 <= i < |r| ==> r[i] == if answers[i].isCorrect then i else -1
  {
    seq(|answers|, i requires 0 <= i < |answers| => if answers[i].isCorrect then i else -1)
  }

  /** `(idx) => idx >= 0`. */
  const NonNegative: int -> bool := idx => idx >= 0

  /** Filtering entries that are either negative or their own position
      (shifted by `offset`) keeps the positions in ascending order. */
  lemma {:induction false} FilterPositions(xs: seq<int>, offset: int)
    requires forall i :: 0 <= i < |xs| ==> xs[i] < 0 || xs[i] == offset + i
    ensures StrictlyIncreasing(Seqs.Filter(xs, NonNegative))
    ensures forall x :: x in Seqs.Filter(xs, NonNegative) ==> x >= offset
  {
    if |xs| > 0 {
      FilterPositions(xs[1..], offset + 1);
      var rest := Seqs.Filter(xs[1..], NonNegative);
      var r := Seqs.Filter(xs, NonNegative);
      assert r == (if xs[0] >= 0 then [xs[0]] else []) + rest;
      if xs[0] >= 0 {
        forall i, j | 0 <= i < j < |r|
          ensures r[i] < r[j]
        {
          if i == 0 {
            assert r[j] == rest[j - 1] && rest[j - 1] in rest;
          } else {
            assert r[i] == rest[i - 1] && r[j] == rest[j - 1];
          }
        }
      }
    }
  }

  /** The `correctIndices` the editor saves: exactly the positions of the
      checked answers, in ascending order. */
  function CorrectIndicesOf(answers: seq<Answer>): (r: seq<int>)
    ensures StrictlyIncreasing(r)
    ensures forall x :: x in r <==> 0 <= x < |answers| && answers[x].isCorrect
  {
    var mapped := IndexOrMinusOne(answers);
    FilterPositions(mapped, 0);
    forall x | 0 <= x < |answers| && answers[x].isCorrect
      ensures x in mapped
    {
      assert mapped[x] == x;
    }
    Seqs.Filter(mapped, NonNegative)
  }

  /** The override the editor saves: trimmed text and answer texts, the
      checkbox flags, the indices of the checked answers in ascending order,
      and a copy of the image list. */
  function EditorOverride(text: string, drafts: seq<DraftAnswer>, imageFiles: seq<Json>): (o: LocalOverride)
    ensures o.text == Trim(text) && o.imageFiles == imageFiles
    ensures |o.answers| == |drafts|
    ensures forall i :: 0 <= i < |drafts| ==> o.answers[i] == Answer(Trim(drafts[i].text), drafts[i].isCorrect)
    ensures StrictlyIncreasing(o.correctIndices)
    ensures forall i :: i in o.correctIndices <==> 0 <= i < |drafts| && drafts[i].isCorrect
  {
    var answers := seq(|drafts|, i requires 0 <= i < |drafts| => Answer(Trim(drafts[i].text), drafts[i].isCorrect));
    LocalOverride(Trim(text), answers, CorrectIndicesOf(answers), imageFiles)
  }

  /** The state the save button writes before normalising the selection:
      the override stored for the question and its forced-original flag
      dropped. */
  function Stored(s: State, q: Question, o: LocalOverride): State {
    s.(localQuestionOverrides := s.localQuestionOverrides[q.id := o],
       forceOriginalQuestionView := s.forceOriginalQuestionView - {q.id})
  }

  /** The state change of the editor's save button: without an active
      dataset id (`state.activeDataset?.id`) nothing happens; otherwise the
      override is stored, the forced-original flag of the question is
      dropped and its selection is normalised against the new version.
      Nothing else changes. */
  function SaveOverride(env: RenderEnv, s: State, q: Question, o: LocalOverride): (r: State)
    ensures !Truthy(Get(s.activeDataset, "id")) ==> r == s
    ensures Truthy(Get(s.activeDataset, "id")) ==>
              && r.localQuestionOverrides == s.localQuestionOverrides[q.id := o]
              && r.forceOriginalQuestionView == s.forceOriginalQuestionView - {q.id}
              && r.answers == s.answers[q.id := NormalizedSelection(env, Stored(s, q, o), q)]
              && (q.id !in s.submitted ==> r.results == s.results)
              && (q.id in s.submitted ==>
                    r.results == s.results[q.id := env.evaluate(env.applyOverride(q, Some(o)),
                                                                NormalizedSelection(env, Stored(s, q, o), q),
                                                                UsesOriginalSolutionInQuiz(Stored(s, q, o), q))])
              && r.(localQuestionOverrides := s.localQuestionOverrides,
                    forceOriginalQuestionView := s.forceOriginalQuestionView,
                    answers := s.answers, results := s.results) == s
  {
    if !Truthy(Get(s.activeDataset, "id")) then s
    else
      assert OverrideOf(Stored(s, q, o), q.id) == Some(o);
      NormalizeAnswerStateForVariant(env, Stored(s, q, o), q)
  }

  /** After a save, the question is scored against the override and every
      view shows the override-applied question. */
  lemma SavedOverrideIsShown(env: RenderEnv, s: State, q: Question, o: LocalOverride)
    requires Truthy(Get(s.activeDataset, "id"))
    ensures var r := SaveOverride(env, s, q, o);
            && GetQuestionForEvaluation(env, r, q) == env.applyOverride(q, Some(o))
            && GetDisplayedQuestion(env, r, q) == Plain(env.applyOverride(q, Some(o)), true)
            && forall x :: x in r.answers[q.id] ==> 0 <= x < |QuestionVariant.OriginalAnswers(env.applyOverride(q, Some(o)))|
  {
    var r := SaveOverride(env, s, q, o);
    var t := Stored(s, q, o);
    SameInputs(env, t, r, q);
    assert OverrideOf(r, q.id) == Some(o);
  }
}
