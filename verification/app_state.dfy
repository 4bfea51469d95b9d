/** src/state.js: the single application state record and the three reset
    operations. JavaScript `Map`s and `Set`s become Dafny maps and sets; the
    operations here never depend on their iteration order. */
module AppState {
  import opened Js
  import opened Wrappers
  import opened Questions

  /** `state.view`. */
  datatype View = ConfigView | QuizView | ReviewView | SearchView

  /** A user's local edit of a question (`{ text, answers, correctIndices,
      imageFiles }`). */
  datatype LocalOverride = LocalOverride(
    text: string,
    answers: seq<Answer>,
    correctIndices: seq<int>,
    imageFiles: seq<Json>)

  /** An opened image archive, seen only through the paths its `forEach`
      visits, in that order. */
  datatype Archive = Archive(paths: seq<string>)

  /** `state.preview`. */
  datatype Preview = Preview(quizCount: int, searchCount: int)

  datatype State = State(
    questionsAll: seq<Question>,
    themeId: string,
    themeTokens: Json,
    activeDataset: Json,
    manifest: Json,
    zip: Option<Archive>,
    zipIndex: map<string, string>,
    zipObjectUrls: map<string, string>,
    view: View,
    configTab: string,
    currentSessionId: Json,
    quizConfig: Json,
    quizFinishedAt: Json,
    questionOrder: seq<string>,
    answerOrder: map<string, seq<int>>,
    preview: Preview,
    searchConfig: Json,
    searchOrder: seq<string>,
    answers: map<string, seq<int>>,
    submitted: set<string>,
    results: map<string, bool>,
    excludedAnswers: map<string, seq<int>>,
    explainOpen: set<string>,
    forceOriginalQuestionView: set<string>,
    localQuestionOverrides: map<string, LocalOverride>,
    reviewAnsweredOnly: bool)

  /** The state at start-up. */
  function Initial(): State {
    State([], "spezi", Null, Null, Null, None, map[], map[], ConfigView, "quiz",
          Null, Null, Null, [], map[], Preview(0, 0), Null, [],
          map[], {}, map[], map[], {}, {}, map[], false)
  }

  /** The loaded data, the active dataset and the user's overrides: no
      reset touches them. */
  ghost predicate SameData(s: State, r: State) {
    && r.questionsAll == s.questionsAll
    && r.localQuestionOverrides == s.localQuestionOverrides
    && r.activeDataset == s.activeDataset && r.manifest == s.manifest
    && r.themeId == s.themeId && r.themeTokens == s.themeTokens
    && r.zip == s.zip && r.zipIndex == s.zipIndex && r.zipObjectUrls == s.zipObjectUrls
    && r.view == s.view && r.configTab == s.configTab && r.preview == s.preview
  }

  /** The per-question answers of a session are gone. */
  ghost predicate AnswersCleared(r: State) {
    && r.answers == map[] && r.submitted == {} && r.results == map[]
    && r.excludedAnswers == map[] && r.explainOpen == {}
    && r.forceOriginalQuestionView == {} && !r.reviewAnsweredOnly
  }

  /** `resetAnswers()`. */
  function ResetAnswers(s: State): (r: State)
    ensures AnswersCleared(r)
    ensures SameData(s, r)
    ensures r.questionOrder == s.questionOrder && r.answerOrder == s.answerOrder
    ensures r.quizConfig == s.quizConfig && r.currentSessionId == s.currentSessionId
    ensures r.quizFinishedAt == s.quizFinishedAt
    ensures r.searchConfig == s.searchConfig && r.searchOrder == s.searchOrder
  {
    s.(answers := map[], submitted := {}, results := map[], excludedAnswers := map[],
       explainOpen := {}, forceOriginalQuestionView := {}, reviewAnsweredOnly := false)
  }

  /** `resetQuizSession()`. */
  function ResetQuizSession(s: State): (r: State)
    ensures AnswersCleared(r)
    ensures SameData(s, r)
    ensures r.currentSessionId == Null && r.quizConfig == Null && r.quizFinishedAt == Null
    ensures r.questionOrder == [] && r.answerOrder == map[]
    ensures r.searchConfig == s.searchConfig && r.searchOrder == s.searchOrder
  {
    ResetAnswers(s.(currentSessionId := Null, quizConfig := Null, quizFinishedAt := Null,
                    questionOrder := [], answerOrder := map[]))
  }

  /** `resetSearch()`. */
  function ResetSearch(s: State): (r: State)
    ensures SameData(s, r)
    ensures r.searchConfig == Null && r.searchOrder == []
    ensures r.explainOpen == {} && r.forceOriginalQuestionView == {} && !r.reviewAnsweredOnly
    ensures r.answers == s.answers && r.submitted == s.submitted && r.results == s.results
    ensures r.excludedAnswers == s.excludedAnswers
    ensures r.questionOrder == s.questionOrder && r.answerOrder == s.answerOrder
    ensures r.quizConfig == s.quizConfig && r.currentSessionId == s.currentSessionId
    ensures r.quizFinishedAt == s.quizFinishedAt
    ensures r.(searchConfig := s.searchConfig, searchOrder := s.searchOrder, explainOpen := s.explainOpen,
               forceOriginalQuestionView := s.forceOriginalQuestionView,
               reviewAnsweredOnly := s.reviewAnsweredOnly) == s
  {
    s.(searchConfig := Null, searchOrder := [], explainOpen := {},
       forceOriginalQuestionView := {}, reviewAnsweredOnly := false)
  }

  /** Resetting twice is resetting once, and a search reset after a session
      reset changes nothing the session reset had not already cleared except
      the search itself. */
  lemma ResetsSettle(s: State)
    ensures ResetAnswers(ResetAnswers(s)) == ResetAnswers(s)
    ensures ResetQuizSession(ResetQuizSession(s)) == ResetQuizSession(s)
    ensures ResetSearch(ResetSearch(s)) == ResetSearch(s)
    ensures ResetSearch(ResetQuizSession(s)) == ResetQuizSession(ResetSearch(s))
  {
  }

  /** The start-up state is a reset state. */
  lemma InitialIsReset()
    ensures ResetQuizSession(Initial()) == Initial()
    ensures ResetSearch(Initial()) == Initial()
  {
  }
}
