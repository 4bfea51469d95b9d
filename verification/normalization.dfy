/** `normalizeQuestion` (src/data/loaders.js): one raw question record turned
    into the normalized `Question`, dropped for a blank id, or a thrown
    `TypeError`. Each field is read along a chain of candidate locations;
    chains written with `||` skip every falsy value, chains written with `??`
    skip only `null` and `undefined`. */
module Normalization {
  import opened Wrappers
  import opened Js
  import opened Questions
  import Loaders
  import AiSources
  import Utils
  import Seqs

  /** What `normalizeQuestion(q)` does: throw, return `null`, or return a
      record. */
  datatype Outcome = Threw | Dropped | Kept(question: Question)

  /** `String(q.id || "").trim()`. */
  function IdOf(e: Engine, q: Json): (r: string)
    ensures TrimmedFrom(r, ToString(e, Or(Get(q, "id"), Str(""))))
  {
    TrimFacts(ToString(e, Or(Get(q, "id"), Str(""))));
    Trim(ToString(e, Or(Get(q, "id"), Str(""))))
  }

  /** `Array.isArray(q.answers) ? q.answers.length : 0`. */
  function AnswerCount(q: Json): nat {
    if Get(q, "answers").Arr? then |Get(q, "answers").items| else 0
  }

  /** `(q.answers || []).map(a => ({ text: a.text ... }))` throws when
      `q.answers` is truthy but not an array (it has no `map`), and when an
      element is `null` (reading `a.text` fails). */
  predicate AnswersThrow(q: Json) {
    var a := Get(q, "answers");
    Truthy(a) && (!a.Arr? || exists i :: 0 <= i < |a.items| && Nullish(a.items[i]))
  }

  /** `{ text: cleanText(a.text || ""), isCorrect: !!a.isCorrect }`. */
  function AnswerOf(env: Loaders.Env, a: Json): (r: Answer)
    ensures r.isCorrect <==> Truthy(Get(a, "isCorrect"))
    ensures r.text == Loaders.CleanText(env, Get(a, "text"))
    ensures Utils.IsNormalized(r.text)
  {
    Answer(Loaders.CleanText(env, Get(a, "text")), Truthy(Get(a, "isCorrect")))
  }

  /** The answers of a question whose answer list does not throw. */
  function AnswersOf(env: Loaders.Env, q: Json): (r: seq<Answer>)
    ensures |r| == AnswerCount(q)
    ensures Get(q, "answers").Arr? ==>
              forall i :: 0 <= i < |r| ==> r[i] == AnswerOf(env, Get(q, "answers").items[i])
  {
    var a := Get(q, "answers");
    if a.Arr? then seq(|a.items|, i requires 0 <= i < |a.items| => AnswerOf(env, a.items[i])) else []
  }

  /** `q.aiAudit?.answerPlausibility?.<key>`. */
  function Plausible(q: Json, key: string): Json {
    Path(q, ["aiAudit", "answerPlausibility", key])
  }

  /** The raw original indices: `q.originalCorrectIndices ||
      q.aiAudit?.answerPlausibility?.originalCorrectIndices`. */
  function RawOriginalIndices(q: Json): (r: Json)
    ensures Truthy(Get(q, "originalCorrectIndices")) ==> r == Get(q, "originalCorrectIndices")
    ensures !Truthy(Get(q, "originalCorrectIndices")) ==> r == Plausible(q, "originalCorrectIndices")
  {
    Or(Get(q, "originalCorrectIndices"), Plausible(q, "originalCorrectIndices"))
  }

  /** The raw final indices: `q.finalCorrectIndices ||
      q.aiAudit?.answerPlausibility?.finalCorrectIndices || q.correctIndices`. */
  function RawFinalIndices(q: Json): (r: Json)
    ensures Truthy(Get(q, "finalCorrectIndices")) ==> r == Get(q, "finalCorrectIndices")
    ensures !Truthy(Get(q, "finalCorrectIndices")) && Truthy(Plausible(q, "finalCorrectIndices")) ==>
              r == Plausible(q, "finalCorrectIndices")
    ensures !Truthy(Get(q, "finalCorrectIndices")) && !Truthy(Plausible(q, "finalCorrectIndices")) ==>
              r == Get(q, "correctIndices")
  {
    Or(Get(q, "finalCorrectIndices"), Or(Plausible(q, "finalCorrectIndices"), Get(q, "correctIndices")))
  }

  /** `q.aiAudit?.answerPlausibility?.<pass>?.confidence`. */
  function PassConfidence(q: Json, pass: string): Json {
    Path(q, ["aiAudit", "answerPlausibility", pass, "confidence"])
  }

  /** The raw confidence: `q.aiAnswerConfidence ??
      ...verification?.confidence ?? ...passA?.confidence`. A present value
      wins even when it is falsy, such as 0 or the empty string. */
  function RawConfidence(q: Json): (r: Json)
    ensures !Nullish(Get(q, "aiAnswerConfidence")) ==> r == Get(q, "aiAnswerConfidence")
    ensures Nullish(Get(q, "aiAnswerConfidence")) && !Nullish(PassConfidence(q, "verification")) ==>
              r == PassConfidence(q, "verification")
    ensures Nullish(Get(q, "aiAnswerConfidence")) && Nullish(PassConfidence(q, "verification")) ==>
              r == PassConfidence(q, "passA")
  {
    Coalesce(Get(q, "aiAnswerConfidence"),
             Coalesce(PassConfidence(q, "verification"), PassConfidence(q, "passA")))
  }

  /** `aiChangedAnswersConfidenceCutoff`. */
  const ConfidenceCutoff: real := 1.0

  /** `aiChangedAnswersRaw && Number(aiConfidence) > 1`: a falsy label is
      passed through; a truthy one becomes the comparison, where a `null`
      confidence counts as 0. */
  function AiChangedAnswers(changed: Json, confidence: Option<real>): (r: Json)
    ensures Truthy(r) <==> Truthy(changed) && confidence.Some? && confidence.value > ConfidenceCutoff
    ensures !Truthy(changed) ==> r == changed
    ensures Truthy(changed) ==> r.Bool?
  {
    if !Truthy(changed) then changed
    else Bool((if confidence.Some? then confidence.value else 0.0) > ConfidenceCutoff)
  }

  /** A confidence of 0.9 never marks the answers as changed. */
  lemma LowConfidenceNotChanged(changed: Json)
    ensures !Truthy(AiChangedAnswers(changed, Some(0.9)))
  {
  }

  /** The reconstruction, kept when `q.aiAudit?.reconstruction
      ?.reconstructedQuestion` is a truthy object (arrays included). */
  function ReconstructionOf(env: Loaders.Env, rq: Json): (r: Option<Reconstruction>)
    ensures r.Some? <==> rq.Obj? || rq.Arr?
    ensures r.Some? && Get(rq, "answers").Arr? ==> |r.value.answers| == |Get(rq, "answers").items|
    ensures r.Some? && !Get(rq, "answers").Arr? ==> r.value.answers == []
    ensures r.Some? ==> forall a :: a in r.value.answers ==> Utils.IsNormalized(a.text)
    ensures r.Some? ==> r.value.questionText == Loaders.CleanText(env, Get(rq, "questionText"))
    ensures r.Some? && Get(rq, "answers").Arr? ==>
              forall i :: 0 <= i < |r.value.answers| ==>
                var a := Get(rq, "answers").items[i];
                r.value.answers[i] == ReconstructedAnswer(ToNumber(env.engine, Get(a, "answerIndex")),
                                                          Loaders.CleanText(env, Get(a, "text")))
  {
    if rq.Obj? || rq.Arr? then
      var answers := Get(rq, "answers");
      Some(Reconstruction(
        Loaders.CleanText(env, Get(rq, "questionText")),
        if answers.Arr? then
          seq(|answers.items|, i requires 0 <= i < |answers.items| =>
            ReconstructedAnswer(ToNumber(env.engine, Get(answers.items[i], "answerIndex")),
                                Loaders.CleanText(env, Get(answers.items[i], "text"))))
        else []))
    else None
  }

  /** `cleanText(v) || null`. */
  function CleanOrNull(env: Loaders.Env, v: Json): (r: Option<string>)
    ensures r.Some? ==> r.value != "" && Utils.IsNormalized(r.value)
    ensures r.None? <==> Loaders.CleanText(env, v) == ""
    ensures r.Some? ==> r.value == Loaders.CleanText(env, v)
  {
    Loaders.OrNull(Loaders.CleanText(env, v))
  }

  /** `q.examYear != null ? Number(q.examYear) : null`. */
  function ExamYear(e: Engine, q: Json): (r: Option<Num>)
    ensures r.None? <==> Nullish(Get(q, "examYear"))
    ensures r.Some? ==> r.value == ToNumber(e, Get(q, "examYear"))
  {
    if Nullish(Get(q, "examYear")) then None else Some(ToNumber(e, Get(q, "examYear")))
  }

  /** What a kept record guarantees: one answer per raw answer with
      `isCorrect` the truthiness of the raw flag; ascending index lists; a
      truthy changed-answer flag only above the confidence cutoff;
      wrong-option explanations inside the answer range; distinct non-empty
      sources; no blank optional text; no cluster yet. */
  ghost predicate KeptRecord(q: Json, r: Question) {
    && |r.answers| == AnswerCount(q)
    && (Get(q, "answers").Arr? ==>
          forall i :: 0 <= i < |r.answers| ==>
            (r.answers[i].isCorrect <==> Truthy(Get(Get(q, "answers").items[i], "isCorrect"))))
    && Loaders.Ascending(r.correctIndices) && Loaders.Ascending(r.originalCorrectIndices)
    && (Truthy(r.aiChangedAnswers) ==> r.aiConfidence.Some? && r.aiConfidence.value > ConfidenceCutoff)
    && (forall w :: w in r.aiWrongOptionExplanations ==> w.whyWrong != "" && 0 <= w.answerIndex < |r.answers|)
    && Seqs.NoDups(r.aiSources) && (forall s :: s in r.aiSources ==> s != "")
    && (r.aiSuperTopic.Some? ==> r.aiSuperTopic.value != "")
    && (r.aiSubtopic.Some? ==> r.aiSubtopic.value != "")
    && (r.explanation.Some? ==> r.explanation.value != "")
    && (r.questionAbstraction.Some? ==> r.questionAbstraction.value != "")
    && r.cluster.None?
  }

  /** Each field of a kept record is read along its own chain: the
      `||` and `??` chains above, the cleaned texts, the index lists
      normalised against the answer count, and the sources and
      explanations as normalised by their own functions. */
  ghost predicate ReadsChains(env: Loaders.Env, q: Json, r: Question) {
    var e := env.engine;
    var audit := Get(q, "aiAudit");
    && r.examName == Or(Get(q, "examName"), Null)
    && r.text == Loaders.CleanText(env, Get(q, "questionText"))
    && r.answers == AnswersOf(env, q)
    && r.originalCorrectIndices == Loaders.NormalizeIndices(e, RawOriginalIndices(q), AnswerCount(q))
    && r.correctIndices == Loaders.NormalizeIndices(e, RawFinalIndices(q), AnswerCount(q))
    && r.aiConfidence == Loaders.ToNumberOrNull(e, RawConfidence(q))
    && r.aiChangedAnswers == AiChangedAnswers(
         env.evaluateAiChangedLabel(Plausible(q, "changedInDataset"),
           Loaders.NormalizeIndices(e, RawOriginalIndices(q), AnswerCount(q)),
           Loaders.NormalizeIndices(e, RawFinalIndices(q), AnswerCount(q))),
         r.aiConfidence)
    && r.aiReasonDetailed == CleanOrNull(env, env.resolveAiDisplayText(q, "solutionHint"))
    && r.aiTopicReason == CleanOrNull(env, env.resolveAiDisplayText(q, "topicReason"))
    && r.questionAbstraction == CleanOrNull(env, OrAll([Get(q, "questionAbstraction"),
         Path(audit, ["questionAbstraction", "summary"]), Path(audit, ["questionAbstraction", "text"])]))
    && r.aiSuperTopic == CleanOrNull(env, Get(q, "aiSuperTopic"))
    && r.aiSubtopic == CleanOrNull(env, Get(q, "aiSubtopic"))
    && r.explanation == CleanOrNull(env, Get(q, "explanationText"))
    && r.aiCorrectnessExplanation == CleanOrNull(env, Path(audit, ["explainer", "correctnessExplanation"]))
    && r.aiMaintenanceSeverity == Loaders.ToNumberOrNull(e,
         Coalesce(Get(q, "aiMaintenanceSeverity"), Path(audit, ["maintenance", "severity"])))
    && r.aiMaintenanceReasons == Loaders.MaintenanceReasons(env, q)
    && r.aiWrongOptionExplanations == Loaders.WrongOptionExplanations(env, Get(audit, "explainer"), AnswerCount(q))
    && r.examYear == ExamYear(e, q)
    && r.reconstructedQuestion == ReconstructionOf(env, Path(audit, ["reconstruction", "reconstructedQuestion"]))
    && r.aiSources == AiSources.NormalizeAiSources(env, q)
    && r.abstractionClusterId == Loaders.ToNumberOrNull(e,
         Coalesce(Get(q, "abstractionClusterId"), Path(audit, ["clusters", "abstractionClusterId"])))
    && r.imageFiles == (if Get(q, "imageFiles").Arr? then Get(q, "imageFiles").items else [])
  }

  /** The record built for a kept question; `answers` must not throw. */
  function Build(env: Loaders.Env, q: Json, id: string): (r: Question)
    ensures r.id == id
    ensures KeptRecord(q, r)
    ensures ReadsChains(env, q, r)
  {
    var e := env.engine;
    var count := AnswerCount(q);
    var original := Loaders.NormalizeIndices(e, RawOriginalIndices(q), count);
    var final := Loaders.NormalizeIndices(e, RawFinalIndices(q), count);
    var changed := env.evaluateAiChangedLabel(Plausible(q, "changedInDataset"), original, final);
    var confidence := Loaders.ToNumberOrNull(e, RawConfidence(q));
    var audit := Get(q, "aiAudit");
    Question(
      id := id,
      examName := Or(Get(q, "examName"), Null),
      aiSuperTopic := CleanOrNull(env, Get(q, "aiSuperTopic")),
      aiSubtopic := CleanOrNull(env, Get(q, "aiSubtopic")),
      aiMaintenanceSeverity := Loaders.ToNumberOrNull(e,
        Coalesce(Get(q, "aiMaintenanceSeverity"), Path(audit, ["maintenance", "severity"]))),
      aiMaintenanceReasons := Loaders.MaintenanceReasons(env, q),
      aiConfidence := confidence,
      aiChangedAnswers := AiChangedAnswers(changed, confidence),
      aiCorrectnessExplanation := CleanOrNull(env, Path(audit, ["explainer", "correctnessExplanation"])),
      aiWrongOptionExplanations := Loaders.WrongOptionExplanations(env, Get(audit, "explainer"), count),
      originalCorrectIndices := original,
      examYear := ExamYear(e, q),
      text := Loaders.CleanText(env, Get(q, "questionText")),
      explanation := CleanOrNull(env, Get(q, "explanationText")),
      reconstructedQuestion := ReconstructionOf(env, Path(audit, ["reconstruction", "reconstructedQuestion"])),
      aiReasonDetailed := CleanOrNull(env, env.resolveAiDisplayText(q, "solutionHint")),
      aiTopicReason := CleanOrNull(env, env.resolveAiDisplayText(q, "topicReason")),
      aiSources := AiSources.NormalizeAiSources(env, q),
      abstractionClusterId := Loaders.ToNumberOrNull(e,
        Coalesce(Get(q, "abstractionClusterId"), Path(audit, ["clusters", "abstractionClusterId"]))),
      questionAbstraction := CleanOrNull(env, OrAll([Get(q, "questionAbstraction"),
        Path(audit, ["questionAbstraction", "summary"]), Path(audit, ["questionAbstraction", "text"])])),
      answers := AnswersOf(env, q),
      correctIndices := final,
      imageFiles := if Get(q, "imageFiles").Arr? then Get(q, "imageFiles").items else [],
      cluster := None)
  }

  /** `normalizeQuestion(q)`. Reading `q.id` throws on `null`/`undefined`;
      a blank trimmed id gives `null` before anything else is read; a kept
      record can still throw while its answers are mapped. */
  function NormalizeQuestion(env: Loaders.Env, q: Json): (r: Outcome)
    ensures r.Threw? <==> Nullish(q) || (IdOf(env.engine, q) != "" && AnswersThrow(q))
    ensures r.Dropped? <==> !Nullish(q) && IdOf(env.engine, q) == ""
    ensures r.Kept? ==> r.question.id == IdOf(env.engine, q) && r.question.id != ""
    ensures r.Kept? ==> KeptRecord(q, r.question)
    ensures r.Kept? ==> ReadsChains(env, q, r.question)
  {
    if Nullish(q) then Threw
    else
      var id := IdOf(env.engine, q);
      if id == "" then Dropped
      else if AnswersThrow(q) then Threw
      else Kept(Build(env, q, id))
  }
}
