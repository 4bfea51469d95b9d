/** src/ui/components.js: the facts the question header shows (exam, topic
    path, image count, the changed-answer badge and the maintenance traffic
    light) and the text of the "explain this question" prompt. The HTML
    markup around these facts is not modelled. */
module Components {
  import opened Wrappers
  import opened Js
  import opened Questions
  import Seqs
  import Utils

  // ---------------------------------------------------------------------
  // Maintenance traffic light

  datatype Level = Unknown | Green | Yellow | Red

  /** The `level` of `maintenanceTrafficLightHtml(severity)`. */
  function MaintenanceLevel(severity: Option<real>): (l: Level)
    ensures l == Unknown <==> severity.None?
    ensures l == Red <==> severity.Some? && severity.value >= 3.0
    ensures l == Yellow <==> severity.Some? && 2.0 <= severity.value < 3.0
    ensures l == Green <==> severity.Some? && severity.value < 2.0
  {
    if severity.None? then Unknown
    else if severity.value >= 3.0 then Red
    else if severity.value >= 2.0 then Yellow
    else Green
  }

  /** The `label`, computed by its own chain of comparisons. */
  function MaintenanceLabel(severity: Option<real>): string {
    if severity.None? then "unbekannt"
    else if severity.value >= 3.0 then "hoch"
    else if severity.value >= 2.0 then "mittel"
    else "niedrig"
  }

  /** The label belonging to each level. */
  function LabelOf(l: Level): string {
    match l
    case Unknown => "unbekannt"
    case Green => "niedrig"
    case Yellow => "mittel"
    case Red => "hoch"
  }

  /** The label and the level always agree, and different levels have
      different labels. */
  lemma LabelMatchesLevel(severity: Option<real>, l1: Level, l2: Level)
    ensures MaintenanceLabel(severity) == LabelOf(MaintenanceLevel(severity))
    ensures LabelOf(l1) == LabelOf(l2) ==> l1 == l2
  {
  }

  function Urgency(l: Level): nat {
    match l
    case Unknown => 0
    case Green => 1
    case Yellow => 2
    case Red => 3
  }

  /** A higher severity never gives a lower level. */
  lemma LevelMonotone(a: real, b: real)
    requires a <= b
    ensures Urgency(MaintenanceLevel(Some(a))) <= Urgency(MaintenanceLevel(Some(b)))
  {
  }

  /** `severityText`. */
  function SeverityText(e: Engine, severity: Option<real>): string {
    if severity.None? then "ohne Severity-Wert" else "Severity " + e.formatNumber(severity.value)
  }

  // ---------------------------------------------------------------------
  // qMetaHtml

  /** A topic name `filter(Boolean)` keeps. */
  predicate Present(t: Option<string>) {
    t.Some? && t.value != ""
  }

  /** `[q.aiSuperTopic, q.aiSubtopic].filter(Boolean).join(" → ")`, or the
      empty path when topics are hidden. */
  function TopicPath(q: Question, showTopics: bool): (r: string)
    ensures !showTopics ==> r == ""
    ensures showTopics && Present(q.aiSuperTopic) && Present(q.aiSubtopic) ==>
              r == q.aiSuperTopic.value + " → " + q.aiSubtopic.value
    ensures showTopics && Present(q.aiSuperTopic) && !Present(q.aiSubtopic) ==> r == q.aiSuperTopic.value
    ensures showTopics && !Present(q.aiSuperTopic) && Present(q.aiSubtopic) ==> r == q.aiSubtopic.value
    ensures r == "" <==> !showTopics || (!Present(q.aiSuperTopic) && !Present(q.aiSubtopic))
  {
    if !showTopics then ""
    else
      var parts := (if Present(q.aiSuperTopic) then [q.aiSuperTopic.value] else [])
                   + (if Present(q.aiSubtopic) then [q.aiSubtopic.value] else []);
      assert |parts| == 2 ==> Seqs.Join(" → ", parts[1..]) == parts[1];
      Seqs.Join(" → ", parts)
  }

  /** What the header shows besides its markup. */
  datatype Meta = Meta(
    ordinal: int,
    exam: Option<string>,
    topicPath: Option<string>,
    imageCount: Option<nat>,
    changedBadge: bool,
    level: Level,
    levelLabel: string)

  /** `qMetaHtml(q, ordinal, { showTopics })`: the exam pill when the exam
      name is truthy, the topic pill when the path is not empty, the image
      pill with the number of image files when there are any, the badge
      exactly when `aiChangedAnswers` is truthy, and the traffic light. */
  function QMeta(e: Engine, q: Question, ordinal: int, showTopics: bool): (m: Meta)
    ensures m.exam.Some? <==> Truthy(q.examName)
    ensures m.exam.Some? ==> m.exam.value == ToString(e, q.examName)
    ensures m.topicPath.Some? <==> TopicPath(q, showTopics) != ""
    ensures m.topicPath.Some? ==> m.topicPath.value == TopicPath(q, showTopics)
    ensures m.imageCount.Some? <==> |q.imageFiles| > 0
    ensures m.imageCount.Some? ==> m.imageCount.value == |q.imageFiles|
    ensures m.changedBadge <==> Truthy(q.aiChangedAnswers)
    ensures m.levelLabel == LabelOf(m.level) && m.level == MaintenanceLevel(q.aiMaintenanceSeverity)
  {
    var path := TopicPath(q, showTopics);
    LabelMatchesLevel(q.aiMaintenanceSeverity, Unknown, Unknown);
    Meta(ordinal,
         if Truthy(q.examName) then Some(ToString(e, q.examName)) else None,
         if path != "" then Some(path) else None,
         if |q.imageFiles| > 0 then Some(|q.imageFiles|) else None,
         Truthy(q.aiChangedAnswers),
         MaintenanceLevel(q.aiMaintenanceSeverity),
         MaintenanceLabel(q.aiMaintenanceSeverity))
  }

  // ---------------------------------------------------------------------
  // buildExplainPrompt

  /** Indices `letter` can render as a character. */
  predicate Lettered(xs: seq<int>) {
    forall i :: 0 <= i < |xs| ==> Utils.IsLetterIndex(xs[i])
  }

  /** `xs.map(i => letter(i))`. */
  function Letters(xs: seq<int>): (r: seq<string>)
    requires Lettered(xs)
    ensures |r| == |xs|
    ensures forall i :: 0 <= i < |xs| ==> r[i] == [Utils.Letter(xs[i])]
  {
    seq(|xs|, i requires 0 <= i < |xs| => [Utils.Letter(xs[i])])
  }

  /** Single characters joined with `", "`: the `k`-th character sits at
      position `3k`, so the list reads back in order. */
  lemma {:induction false} JoinedLetters(parts: seq<string>)
    requires |parts| > 0 && forall i :: 0 <= i < |parts| ==> |parts[i]| == 1
    ensures |Seqs.Join(", ", parts)| == 3 * |parts| - 2
    ensures forall k :: 0 <= k < |parts| ==> Seqs.Join(", ", parts)[3 * k] == parts[k][0]
    ensures forall k :: 0 <= k < |parts| - 1 ==> Seqs.Join(", ", parts)[3 * k + 1] == ','
    ensures forall k :: 0 <= k < |parts| - 1 ==> Seqs.Join(", ", parts)[3 * k + 2] == ' '
  {
    if |parts| > 1 {
      var rest := Seqs.Join(", ", parts[1..]);
      JoinedLetters(parts[1..]);
      assert Seqs.Join(", ", parts) == parts[0] + ", " + rest;
      forall k | 1 <= k < |parts|
        ensures Seqs.Join(", ", parts)[3 * k] == parts[k][0]
      {
        assert parts[1..][k - 1] == parts[k];
        assert Seqs.Join(", ", parts)[3 * k] == rest[3 * (k - 1)];
      }
      forall k | 1 <= k < |parts| - 1
        ensures Seqs.Join(", ", parts)[3 * k + 1] == ','
      {
        assert Seqs.Join(", ", parts)[3 * k + 1] == rest[3 * (k - 1) + 1];
      }
      forall k | 1 <= k < |parts| - 1
        ensures Seqs.Join(", ", parts)[3 * k + 2] == ' '
      {
        assert Seqs.Join(", ", parts)[3 * k + 2] == rest[3 * (k - 1) + 2];
      }
    }
  }

  /** The text after `MEINE AUSWAHL: `: `(keine)` exactly when nothing is
      selected, otherwise the selected letters in order, separated by
      `", "`. */
  function SelectionText(selected: seq<int>): (r: string)
    requires Lettered(selected)
    ensures r == "(keine)" <==> |selected| == 0
    ensures |selected| > 0 ==> |r| == 3 * |selected| - 2
    ensures forall k :: 0 <= k < |selected| ==> r[3 * k] == Utils.Letter(selected[k])
    ensures forall k :: 0 <= k < |selected| - 1 ==> r[3 * k + 1] == ',' && r[3 * k + 2] == ' '
  {
    if |selected| == 0 then "(keine)"
    else
      var r := Seqs.Join(", ", Letters(selected));
      JoinedLetters(Letters(selected));
      r
  }

  /** The text after `RICHTIGE LÖSUNG: `: the letters of `correctIndices`. */
  function SolutionText(correct: seq<int>): (r: string)
    requires Lettered(correct)
    ensures |correct| == 0 ==> r == ""
    ensures |correct| > 0 ==> |r| == 3 * |correct| - 2
    ensures forall k :: 0 <= k < |correct| ==> r[3 * k] == Utils.Letter(correct[k])
    ensures forall k :: 0 <= k < |correct| - 1 ==> r[3 * k + 1] == ',' && r[3 * k + 2] == ' '
  {
    if |correct| == 0 then ""
    else
      JoinedLetters(Letters(correct));
      Seqs.Join(", ", Letters(correct))
  }

  /** Answer indices up to `n` can all be rendered as letters. */
  predicate LetteredCount(n: nat) {
    forall i :: 0 <= i < n ==> Utils.IsLetterIndex(i)
  }

  /** One line `<letter>) <text>` per answer, in order. */
  function OptionLines(answers: seq<Answer>): (r: seq<string>)
    requires LetteredCount(|answers|)
    ensures |r| == |answers|
    ensures forall i :: 0 <= i < |answers| ==>
              |r[i]| == |answers[i].text| + 3 && r[i][0] == Utils.Letter(i) && r[i][1..3] == ") " && r[i][3..] == answers[i].text
  {
    seq(|answers|, i requires 0 <= i < |answers| => [Utils.Letter(i)] + ") " + answers[i].text)
  }

  /** `Herkunfts-Klausur: ...`. */
  function ExamLine(e: Engine, q: Question): string {
    if Truthy(q.examName) then "Herkunfts-Klausur: " + ToString(e, q.examName)
    else "Herkunfts-Klausur: unbekannt"
  }

  /** The closing request of the prompt. */
  const ClosingLines: seq<string> := [
    "",
    "Bitte:",
    "1) Begründe die richtige(n) Antwort(en) knapp und klar.",
    "2) Erkläre, warum die falschen Antworten falsch sind.",
    "3) Nenne prüfungsrelevante Merksätze/typische Fallen.",
    "4) Falls passend: klinisches Mini-Beispiel."
  ]

  /** The lines of `buildExplainPrompt(q, selectedOriginal)` before the
      closing request. */
  function ExplainPromptLines(e: Engine, q: Question, selected: seq<int>): (lines: seq<string>)
    requires LetteredCount(|q.answers|) && Lettered(selected) && Lettered(q.correctIndices)
    ensures |lines| == 11
    ensures lines[1] == ExamLine(e, q) && lines[4] == q.text
    ensures lines[7] == Seqs.Join("\n", OptionLines(q.answers))
    ensures lines[9] == "MEINE AUSWAHL: " + SelectionText(selected)
    ensures lines[10] == "RICHTIGE LÖSUNG: " + SolutionText(q.correctIndices)
  {
    var head := ["Erkläre mir diese MC-Frage auf Prüfungsniveau:", ExamLine(e, q), "", "FRAGE:", q.text, ""];
    var body := ["ANTWORTOPTIONEN:", Seqs.Join("\n", OptionLines(q.answers)), "",
                 "MEINE AUSWAHL: " + SelectionText(selected),
                 "RICHTIGE LÖSUNG: " + SolutionText(q.correctIndices)];
    head + body
  }

  /** `buildExplainPrompt(q, selectedOriginal)`: all lines joined with line
      breaks. */
  function BuildExplainPrompt(e: Engine, q: Question, selected: seq<int>): string
    requires LetteredCount(|q.answers|) && Lettered(selected) && Lettered(q.correctIndices)
  {
    Seqs.Join("\n", ExplainPromptLines(e, q, selected) + ClosingLines)
  }
}
