/** src/quiz/questionVariant.js: which version of a question a quiz shows.
    With AI mode on and a usable reconstruction, the reconstructed text and
    answers replace the original ones; the answers are reordered stably by
    their 1-based `answerIndex`. */
module QuestionVariant {
  import opened Wrappers
  import opened Js
  import opened Questions
  import Sorting
  import Seqs

  /** A reconstructed answer with the position it sorts by. */
  datatype Ranked = Ranked(sortIndex: int, text: string)

  /** `Number.isInteger(answerIndex) ? answerIndex - 1 : idx`. */
  function SortIndex(a: ReconstructedAnswer, idx: int): int {
    if IsInteger(a.answerIndex) then IntOf(a.answerIndex) - 1 else idx
  }

  /** The `map((entry, idx) => ...)` step: sort index and trimmed text. */
  function Rank(answers: seq<ReconstructedAnswer>): (r: seq<Ranked>)
    ensures |r| == |answers|
    ensures forall i :: 0 <= i < |answers| ==> r[i] == Ranked(SortIndex(answers[i], i), Trim(answers[i].text))
  {
    seq(|answers|, i requires 0 <= i < |answers| => Ranked(SortIndex(answers[i], i), Trim(answers[i].text)))
  }

  function RankKey(x: Ranked): real {
    x.sortIndex as real
  }

  /** The `sort((a, b) => a.sortIndex - b.sortIndex)` step: a permutation
      of the ranked entries, ascending by sort index, entries with equal
      indices in their original order. */
  function SortedRanked(answers: seq<ReconstructedAnswer>): (r: seq<Ranked>)
    ensures multiset(r) == multiset(Rank(answers))
    ensures Sorting.SortedBy(r, RankKey)
    ensures forall k :: Sorting.WithKey(r, RankKey, k) == Sorting.WithKey(Rank(answers), RankKey, k)
    ensures |r| == |answers|
  {
    Sorting.SortBy(Rank(answers), RankKey)
  }

  function TextOf(x: Ranked): string {
    x.text
  }

  /** `normalizeReconstructedAnswers(answers)`: one trimmed text per entry,
      in sort-index order; the texts are those of the input, each as often
      as it occurs there. */
  function NormalizeReconstructedAnswers(answers: seq<ReconstructedAnswer>): (r: seq<string>)
    ensures |r| == |answers|
    ensures forall i :: 0 <= i < |r| ==> r[i] == SortedRanked(answers)[i].text
    ensures multiset(r) == multiset(Seqs.Map(Rank(answers), TextOf))
  {
    var sorted := SortedRanked(answers);
    Seqs.MapPermutation(sorted, Rank(answers), TextOf);
    Seqs.Map(sorted, TextOf)
  }

  /** Entries already in sort-index order keep their order: the stable
      sort moves nothing. */
  lemma OrderedStaysPut(answers: seq<ReconstructedAnswer>)
    requires forall i, j :: 0 <= i < j < |answers| ==> SortIndex(answers[i], i) <= SortIndex(answers[j], j)
    ensures SortedRanked(answers) == Rank(answers)
    ensures NormalizeReconstructedAnswers(answers) == seq(|answers|, i requires 0 <= i < |answers| => Trim(answers[i].text))
  {
    Sorting.SortedUnique(SortedRanked(answers), Rank(answers), RankKey);
  }

  // ---------------------------------------------------------------------
  // getQuizQuestionVariant

  /** An answer as the quiz shows it. Original answers keep their
      correctness flag; reconstructed ones carry none. */
  datatype VariantAnswer = VariantAnswer(text: string, isCorrect: Option<bool>)

  /** `{ text, answers, usedAiReconstruction }`. */
  datatype Variant = Variant(text: string, answers: seq<VariantAnswer>, usedAiReconstruction: bool)

  /** `(quizConfig?.aiModeEnabled ?? quizConfig?.useAiModifiedAnswers) !== false`. */
  function AiModeEnabled(quizConfig: Json): (r: bool)
    ensures !Nullish(Get(quizConfig, "aiModeEnabled")) ==> (r <==> Get(quizConfig, "aiModeEnabled") != Bool(false))
    ensures Nullish(Get(quizConfig, "aiModeEnabled")) ==> (r <==> Get(quizConfig, "useAiModifiedAnswers") != Bool(false))
  {
    Coalesce(Get(quizConfig, "aiModeEnabled"), Get(quizConfig, "useAiModifiedAnswers")) != Bool(false)
  }

  /** A reconstruction counts when its trimmed text or its answer list is
      not empty. */
  predicate HasReconstruction(q: Question) {
    q.reconstructedQuestion.Some?
    && (Trim(q.reconstructedQuestion.value.questionText) != "" || |q.reconstructedQuestion.value.answers| > 0)
  }

  /** The question's own answers. */
  function OriginalAnswers(q: Question): (r: seq<VariantAnswer>)
    ensures |r| == |q.answers|
    ensures forall i :: 0 <= i < |r| ==> r[i] == VariantAnswer(q.answers[i].text, Some(q.answers[i].isCorrect))
  {
    seq(|q.answers|, i requires 0 <= i < |q.answers| => VariantAnswer(q.answers[i].text, Some(q.answers[i].isCorrect)))
  }

  /** Reconstructed answer texts as variant answers. */
  function Rebuilt(texts: seq<string>): (r: seq<VariantAnswer>)
    ensures |r| == |texts|
    ensures forall i :: 0 <= i < |r| ==> r[i] == VariantAnswer(texts[i], None)
  {
    seq(|texts|, i requires 0 <= i < |texts| => VariantAnswer(texts[i], None))
  }

  /** `getQuizQuestionVariant(q, quizConfig)`. */
  function GetQuizQuestionVariant(q: Question, quizConfig: Json): (v: Variant)
    ensures v.usedAiReconstruction <==> AiModeEnabled(quizConfig) && HasReconstruction(q)
    ensures !v.usedAiReconstruction ==> v.text == q.text && v.answers == OriginalAnswers(q)
    ensures v.usedAiReconstruction ==>
              var rq := q.reconstructedQuestion.value;
              && v.text == (if Trim(rq.questionText) != "" then Trim(rq.questionText) else q.text)
              && (|rq.answers| > 0 ==> v.answers == Rebuilt(NormalizeReconstructedAnswers(rq.answers)))
              && (|rq.answers| == 0 ==> v.answers == OriginalAnswers(q))
    ensures forall a :: a in v.answers && a.isCorrect.Some? ==> Answer(a.text, a.isCorrect.value) in q.answers
  {
    if !AiModeEnabled(quizConfig) || !HasReconstruction(q) then
      Variant(q.text, OriginalAnswers(q), false)
    else
      var rq := q.reconstructedQuestion.value;
      var rebuilt := NormalizeReconstructedAnswers(rq.answers);
      var text := Trim(rq.questionText);
      Variant(if text != "" then text else q.text,
              if |rebuilt| > 0 then Rebuilt(rebuilt) else OriginalAnswers(q),
              true)
  }
}
