/** The normalized question record the loaders produce and the rest of the
    application reads. Fields that the loader sets to `null` when blank are
    `Option`s; values copied through unchanged stay `Json`. */
module Questions {
  import opened Wrappers
  import opened Js

  /** One answer option: cleaned text and the correctness flag `!!a.isCorrect`. */
  datatype Answer = Answer(text: string, isCorrect: bool)

  /** An explanation why the option at `answerIndex` (0-based) is wrong. */
  datatype WrongOption = WrongOption(answerIndex: int, whyWrong: string)

  /** A reconstructed answer as stored: the raw `Number(a?.answerIndex)`
      (possibly `NaN`) and the cleaned text. */
  datatype ReconstructedAnswer = ReconstructedAnswer(answerIndex: Num, text: string)

  /** The AI reconstruction of a question. */
  datatype Reconstruction = Reconstruction(questionText: string, answers: seq<ReconstructedAnswer>)

  /** The fields `annotateQuestionClusters` adds. */
  datatype ClusterInfo = ClusterInfo(
    clusterId: Option<string>,
    clusterLabel: Option<string>,
    clusterSize: nat,
    clusterRelatedIds: seq<string>,
    isHighRelevanceCluster: bool)

  datatype Question = Question(
    id: string,
    examName: Json,
    aiSuperTopic: Option<string>,
    aiSubtopic: Option<string>,
    aiMaintenanceSeverity: Option<real>,
    aiMaintenanceReasons: seq<string>,
    aiConfidence: Option<real>,
    aiChangedAnswers: Json,
    aiCorrectnessExplanation: Option<string>,
    aiWrongOptionExplanations: seq<WrongOption>,
    originalCorrectIndices: seq<int>,
    examYear: Option<Num>,
    text: string,
    explanation: Option<string>,
    reconstructedQuestion: Option<Reconstruction>,
    aiReasonDetailed: Option<string>,
    aiTopicReason: Option<string>,
    aiSources: seq<string>,
    abstractionClusterId: Option<real>,
    questionAbstraction: Option<string>,
    answers: seq<Answer>,
    correctIndices: seq<int>,
    imageFiles: seq<Json>,
    cluster: Option<ClusterInfo>)

  /** The ids of `qs`, in order. */
  function Ids(qs: seq<Question>): (r: seq<string>)
    ensures |r| == |qs|
    ensures forall i :: 0 <= i < |qs| ==> r[i] == qs[i].id
  {
    seq(|qs|, i requires 0 <= i < |qs| => qs[i].id)
  }
}
