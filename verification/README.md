# Exams app core, modelled in Dafny

This project models the data core of a browser app for exam multiple-choice
questions. It covers:

- how raw question records from JSON datasets become normalised questions,
  and how several datasets are merged by question id;
- the AI-derived fields of a question: corrected answer indices, cited
  sources, maintenance reasons, and per-option explanations;
- the AI reconstruction of a question, and how the quiz decides which
  version of a question it shows and scores;
- how the stored answer selection follows the shown version;
- the statistics views: quiz progress, per-exam statistics, the topic tree,
  and per-topic performance;
- the pager and the jump to a question;
- HTML escaping and search highlighting;
- the theme tokens, the image archive index, and the seeded shuffle.

Every operation is a pure function, or a short method over sequences. Each
comes with the property the app relies on: a round trip, a preserved
invariant, an independent reference definition, or an if-and-only-if with
the input.

JavaScript values are the datatype `Js.Json`: undefined, null, booleans,
numbers, strings, arrays and objects. `Js.Num` holds numbers, including
`NaN` and the infinities. Truthiness, `||`, `??` and property paths follow
JavaScript. The conversions the code leaves to the engine are fields of an
`Engine` parameter:

- `Number(string)`;
- `String(number)`;
- number formatting.

The helpers the core imports from files outside this model are fields of
parameter records (`Loaders.Env`, `Display.RenderEnv`):

- `decodeHtmlEntities`;
- `evaluateAiChangedLabel` and `resolveAiDisplayText`;
- `applyLocalQuestionOverride`, `getCorrectIndices` and `evaluate`.

Modules follow the source files:

| module | source |
|---|---|
| `Js`, `Questions`, `Wrappers`, `Seqs`, `Sorting` | JavaScript semantics, the question record, and shared sequence facts |
| `Utils`, `Shuffling` | `src/utils.js` |
| `Loaders`, `AiSources`, `Normalization`, `Clusters`, `Loading` | `src/data/loaders.js` |
| `ZipImages` | `src/data/zipImages.js` |
| `QuestionVariant` | `src/quiz/questionVariant.js` |
| `AppState` | `src/state.js` |
| `Theme` | `src/theme.js` |
| `Components` | `src/ui/components.js` |
| `Display`, `Markup`, `Stats`, `Paging` | the pure parts of `src/ui/render.js` |

## Model

| member | source | states |
|---|---|---|
| `Utils.NormSpace` | src/utils.js:3-5 | The result has no leading or trailing white space, no white-space runs and no white space other than plain spaces; its non-space characters are exactly those of the input, in order. |
| `Utils.NormSpaceIdempotent` | src/utils.js:3-5 | Normalising white space twice gives the same string as normalising once. |
| `Utils.NormSpaceIsJoinedWords` | src/utils.js:3-5 | The normalised text is exactly the maximal non-white-space words of the input joined by single spaces: each inner run becomes one space and none is left at either end. |
| `Utils.CollapseFacts` | src/utils.js:4 | Replacing each white-space run by one space gives the pieces between the runs joined by single spaces: only plain spaces, never two in a row, and every other character kept in order. |
| `Utils.Letter` | src/utils.js:7-9 | Indices 0 to 25 become the capital letters A to Z, each at its own offset from A. |
| `Utils.LetterInjective` | src/utils.js:7-9 | Different indices below 26 give different letters. |
| `Utils.Hash32` | src/utils.js:12-19 | The loop computes the 32-bit FNV-1a hash of the string's UTF-16 code units, and the result is an unsigned 32-bit number. |
| `Utils.Utf16OfBmp` | src/utils.js:14-15 | For characters of the basic plane, the code units `charCodeAt` reads are the characters themselves. |
| `Utils.ToInt32` | src/utils.js:24 | The signed 32-bit conversion lies in the signed 32-bit range and agrees with its input modulo 2^32. |
| `Utils.MulberryNext` | src/utils.js:22-29 | One generator step moves the state by 0x6D2B79F5 modulo 2^32, stays a signed 32-bit value, and draws a numerator below 2^32. |
| `Utils.MulberryStateAfter` | src/utils.js:22-24 | After n draws the state equals the seed plus n times 0x6D2B79F5, modulo 2^32. |
| `Utils.MulberryDraw` | src/utils.js:22-29 | Every draw's numerator lies in the range of an unsigned 32-bit number. |
| `Shuffling.DrawIndexIsFloor` | src/utils.js:34 | The swap partner is floor(rng() * (i + 1)) for the draw rng() = numerator / 2^32. |
| `Shuffling.DrawIndex` | src/utils.js:34 | The swap partner of position i is never beyond i. |
| `Shuffling.PassesPermute` | src/utils.js:31-37 | Any number of Fisher-Yates passes yields a permutation of the input. |
| `Shuffling.PassesStep` | src/utils.js:33-35 | Each pass swaps the next position from the end with its drawn partner. |
| `Shuffling.Shuffle` | src/utils.js:31-38 | The loop performs exactly the specified passes from the last position down to 1, and the result is a permutation of the input. |
| `Shuffling.SampleK` | src/utils.js:40-43 | The sample is the first k elements of the shuffle: a sub-multiset of the input with min(k, length) elements when k is not negative. |
| `Loaders.ToNumberOrNull` | src/data/loaders.js:8-11 | null gives 0, undefined gives nothing, a number is kept exactly when finite, and booleans give 1 or 0. |
| `Loaders.CleanText` | src/data/loaders.js:13-15 | The cleaned text is white-space normalised and keeps all non-space characters of the decoded input, with a falsy input read as the empty string. |
| `Loaders.CleanTextWords` | src/data/loaders.js:13-15 | The cleaned text is the words of the decoded text, a falsy input read as the empty string, joined by single spaces. |
| `Loaders.CleanTextOfFalsy` | src/data/loaders.js:14 | Every falsy value is cleaned like the empty string. |
| `Loaders.SortAscending` | src/data/loaders.js:22 | The numeric sort gives an ascending permutation of its input. |
| `Loaders.NormalizeIndices` | src/data/loaders.js:17-35 | Non-arrays give no indices. Otherwise the integer entries are sorted ascending. When they all lie in 1 to answerCount they are shifted down by one into 0 to answerCount - 1; otherwise they are kept as they are. |
| `Loaders.FromOneBasedFacts` | src/data/loaders.js:26-34 | The one-based conversion keeps the order, undoes exactly a shift by one, and is the identity when the guard fails. |
| `Loaders.OneBasedSameElements` | src/data/loaders.js:26-28 | The one-based guard depends only on which integers occur, not on their order. |
| `Loaders.NormalizeIndicesNotIdempotent` | src/data/loaders.js:17-35 | Normalising an already normalised pair of one-based indices shifts it a second time. |
| `Loaders.WrongOptionOf` | src/data/loaders.js:154-167 | An explanation entry is kept exactly when its cleaned text is not empty and its index is an integer within 0 to answerCount. A one-based index is shifted down by one, and the kept index is always a valid answer position. |
| `Loaders.WrongOptionList` | src/data/loaders.js:152-168 | The kept explanations are those of the entries that pass, in entry order: the one of entry i follows those of the passing entries before it. Each has text and a valid answer index. |
| `Loaders.WrongOptionExplanations` | src/data/loaders.js:150-169 | An array list gives the kept explanations of its entries in entry order. A missing or non-array list gives none. Every kept one has text and a valid answer index. |
| `Loaders.CleanedNonEmpty` | src/data/loaders.js:145 | The result is the cleaned texts of the elements with the empty ones removed, in element order. It holds exactly the non-empty cleaned texts, each white-space normalised. |
| `Loaders.MaintenanceReasons` | src/data/loaders.js:144-148 | A top-level reasons array is cleaned and filtered. Failing that, an array at `aiAudit.maintenance.reasons` is. Otherwise there are none. Every reason is non-empty and normalised. |
| `AiSources.Gather` | src/data/loaders.js:66-82 | Gathering over the candidate lists skips non-arrays. It yields the values of all entries of the array lists, list by list and entry by entry, in order. |
| `AiSources.Entries` | src/data/loaders.js:66-68 | The entries visited are exactly the elements of the candidate lists that are arrays. |
| `AiSources.GatherMembers` | src/data/loaders.js:66-82 | A gathered value is exactly one that some entry of an array list yields. |
| `AiSources.Cite` | src/data/loaders.js:59-64 | There is no citation for an empty file name. An empty page text gives the file name alone. Otherwise the citation is the file name, " · S. " and the page text. |
| `AiSources.Citation` | src/data/loaders.js:59-64 | `pushSource` cites nothing for a blank cleaned document. Otherwise it cites the cleaned document, followed by " · S. " and the cleaned page when that is not empty. |
| `AiSources.EntryCitation` | src/data/loaders.js:68-80 | Falsy entries, numbers and booleans cite nothing. A non-empty string cites its cleaned text when that is not empty. An object goes through `pushSource` with its first truthy document field and its first non-nullish page field. No citation is empty. |
| `AiSources.NoDocumentNoCitation` | src/data/loaders.js:75-79 | An object entry without any of the six document keys cites nothing. |
| `AiSources.DigitRun` | src/data/loaders.js:96 | The digit run is the longest prefix of decimal digits. |
| `AiSources.PageSuffix` | src/data/loaders.js:96 | A recognised page is all digits and is followed by nothing or by a `c`-chunk suffix. |
| `AiSources.PageSuffixComplete` | src/data/loaders.js:96 | Every digit string followed by a valid chunk tail is recognised as that page. |
| `AiSources.ParseFrom` | src/data/loaders.js:96 | The lazy match finds the first `#p` position whose remainder parses, with no line break before it; no earlier position parses. |
| `AiSources.ParseChunkId` | src/data/loaders.js:96 | The chunk-id pattern matches with the shortest non-empty document part. When it fails, no split of the string matches. |
| `AiSources.ParseChunkIdRoundTrip` | src/data/loaders.js:96-97 | Parsing a composed id `doc#p<page>[c<n>]` returns exactly that document and page. |
| `AiSources.ChunkCitation` | src/data/loaders.js:93-98 | An id with an empty cleaned text cites nothing. A parsed id cites "document · S. page". Any other id cites its cleaned text. |
| `AiSources.ChunkCitationOfComposed` | src/data/loaders.js:93-97 | An id whose cleaned text is `doc#p<digits>`, with an optional `c<digits>` suffix, is cited as "doc · S. digits". |
| `AiSources.SourceCitations` | src/data/loaders.js:66-82 | The source loop pushes the citations of the list entries in entry order, none of them empty. |
| `AiSources.ChunkCitations` | src/data/loaders.js:91-100 | The chunk loop pushes the citations of the chunk ids in order, none of them empty. |
| `AiSources.Pushed` | src/data/loaders.js:58-100 | Everything pushed is the source citations followed by the chunk citations. |
| `AiSources.NormalizeAiSources` | src/data/loaders.js:37-103 | The sources are free of duplicates and non-empty. They hold exactly the pushed citations, listed in order of first occurrence. |
| `AiSources.NormalizedSourcesMembers` | src/data/loaders.js:37-103 | A text is among the sources exactly when some entry of an array source list cites it, or some id of an array chunk list does. |
| `AiSources.SourcesFirst` | src/data/loaders.js:37-103 | The distinct source-list citations come first, in their own order, before any chunk citation. |
| `AiSources.DirectSourceCited` | src/data/loaders.js:40-73 | A string in the question's own `aiSources` list appears among the normalised sources. |
| `AiSources.ChunkIdCited` | src/data/loaders.js:84-97 | A parsed evidence chunk id appears as `document · S. page`. |
| `Normalization.IdOf` | src/data/loaders.js:106 | The id is the string form of the id, or of the empty string for a falsy id, with exactly its surrounding white space cut off. |
| `Normalization.AnswerOf` | src/data/loaders.js:212-215 | An answer's correctness is the truthiness of its flag, and its text is the cleaned raw text. |
| `Normalization.AnswersOf` | src/data/loaders.js:212-215 | There is one answer per raw answer, in order. |
| `Normalization.RawOriginalIndices` | src/data/loaders.js:116-119 | The question's own original indices are used when truthy, otherwise those of the plausibility audit. |
| `Normalization.RawFinalIndices` | src/data/loaders.js:122-126 | Final indices fall back from the question, to the audit, to `correctIndices`, in that order. |
| `Normalization.RawConfidence` | src/data/loaders.js:135-139 | The confidence falls back through the nullish chain: the question, then the verification pass, then pass A. |
| `Normalization.AiChangedAnswers` | src/data/loaders.js:141-142 | The changed-answers flag holds exactly when the raw label is truthy and the confidence exceeds 1. |
| `Normalization.LowConfidenceNotChanged` | src/data/loaders.js:141-142 | A confidence of 0.9 never marks answers as changed. |
| `Normalization.ReconstructionOf` | src/data/loaders.js:171-198 | A reconstruction exists exactly for object values. Its question text is the cleaned raw text. It has one answer per raw answer, or none without an answer array, each with `Number` of its raw index and its cleaned text. |
| `Normalization.CleanOrNull` | src/data/loaders.js:111-112 | A cleaned text is kept exactly when it is non-empty, and is then the cleaned text itself. |
| `Normalization.ExamYear` | src/data/loaders.js:185 | The exam year is absent exactly when the raw value is nullish, and is otherwise `Number` of it. |
| `Normalization.Build` | src/data/loaders.js:173-218 | Every field is read along its own source chain: the or- and nullish-chains, the cleaned texts, the index lists normalised against the answer count, the sources and the explanations. As consequences, the answers carry the truthiness of their raw flags, both index lists are ascending, the changed flag needs a confidence above the cutoff, the explanations point at real answers, the sources are distinct and non-empty, and no cluster is set yet. |
| `Normalization.NormalizeQuestion` | src/data/loaders.js:105-219 | The outcome is one of three. It throws exactly for a nullish record, or for a record with an id whose answers cannot be read. It drops exactly the records without an id. Otherwise it keeps a record with that trimmed, non-empty id, with every field read along its source chain as in `Normalization.Build`. |
| `Clusters.ClusterKey` | src/data/loaders.js:225-228 | A question has a cluster key exactly when it has a cluster id. |
| `Clusters.GroupIds` | src/data/loaders.js:224-233 | A cluster's id list has one id per question with that key, in question order, duplicates included, and holds exactly the ids of those questions. |
| `Clusters.ClusterOf` | src/data/loaders.js:241-252 | A question gets a cluster exactly when its key is truthy and some question has it. Its label is "Cluster " and the key. Its size is the number of questions with that key. Its related ids are the group's ids other than its own. It is high-relevance exactly when the size is 3 or more. |
| `Clusters.AnnotateQuestionClusters` | src/data/loaders.js:221-254 | Annotation keeps the questions and their order, and adds to each its cluster facts. |
| `Clusters.SameClusterRelated` | src/data/loaders.js:241-252 | Questions with the same key share the cluster id and size, and each lists the other as related. |
| `Clusters.RelatedAreClusterMates` | src/data/loaders.js:245 | Every related id belongs to another question with the same key. |
| `Clusters.ClusterSizeIsGroupCount` | src/data/loaders.js:241-252 | A question without a cluster id gets size 0 and no relations. A clustered one gets as its size the number of questions sharing its key, between 1 and the number of questions, and is high-relevance exactly when that number is at least 3. |
| `Clusters.ThreeMakeHighRelevance` | src/data/loaders.js:246-250 | Three questions at different positions sharing a key make their cluster highly relevant. |
| `Loading.PayloadQuestions` | src/data/loaders.js:262 | Iterating the payload's questions, or an empty list, fails exactly for a nullish payload or a truthy non-iterable. Otherwise it iterates the array, or the characters of a string. |
| `Loading.KeptRecords` | src/data/loaders.js:262-266 | A dataset fails exactly when some record throws. Otherwise the kept records are the records that normalise, each once per source record and in source order. |
| `Loading.AllRecords` | src/data/loaders.js:258-267 | Loading succeeds exactly when every response arrives and every record of it normalises without throwing; the records are then the kept records of each response, concatenated in response order. |
| `Loading.UpsertIds` | src/data/loaders.js:265 | `Map.set` keeps the key order and appends only new ids. |
| `Loading.UpsertMembers` | src/data/loaders.js:265 | After `Map.set` the map holds the new record and the other records of the other ids. |
| `Loading.MergeById` | src/data/loaders.js:257-268 | The merged ids are the distinct ids in first-occurrence order. |
| `Loading.MergeKeepsLast` | src/data/loaders.js:257-268 | The merged record for every id is the last record with that id. |
| `Loading.LoadJsonUrls` | src/data/loaders.js:256-270 | Loading succeeds exactly when all responses succeed. The loaded questions carry every loaded id once, in order of first appearance. Each is the last record loaded with its id, annotated with its cluster among the merged questions. |
| `ZipImages.BaseName` | src/data/zipImages.js:28 | The base name is the part of the path after its last slash. |
| `ZipImages.BaseNameOfFile` | src/data/zipImages.js:28 | A file under any directory has its own name as base name. |
| `ZipImages.ExtensionOf` | src/data/zipImages.js:29 | An extension is found exactly when the base name ends with it. |
| `ZipImages.ExtensionUnique` | src/data/zipImages.js:29 | At most one image extension can end a name. |
| `ZipImages.KeyOfBase` | src/data/zipImages.js:29 | The key is the non-empty name before an image extension. Names with no such stem get no key. |
| `ZipImages.KeyOfImageFile` | src/data/zipImages.js:29 | `name.EXT` with an image extension in any letter case gives the key `name`. |
| `ZipImages.NoKeyForOtherFiles` | src/data/zipImages.js:29 | Files with any other extension get no key. |
| `ZipImages.ImageKeyOfImagePath` | src/data/zipImages.js:27-30 | An image file in any directory is indexed under its stem. |
| `ZipImages.IndexBy` | src/data/zipImages.js:27-31 | The index has exactly the keys of the paths. Each key maps to a path with that key, and that path is the last one carrying it. |
| `ZipImages.ClearZipObjectUrls` | src/data/zipImages.js:3-8 | Clearing empties the URL cache and changes nothing else. |
| `ZipImages.LoadZipArrayBuffer` | src/data/zipImages.js:10-32 | Loading clears the URL cache first. A missing buffer clears the archive and index. A present buffer fails when the library is missing, with its fixed message, or when decompression rejects, with that error; either way the archive and index stay as they were. Otherwise the archive and its path index replace them. Nothing else changes. |
| `ZipImages.GetImageUrl` | src/data/zipImages.js:46-55 | There is no URL exactly when there is no archive or no indexed file. A cached URL is returned unchanged; otherwise the new URL is cached. |
| `ZipImages.GetImageUrlMemoized` | src/data/zipImages.js:48 | Asking twice for the same image gives the same URL and no further change. |
| `ZipImages.NoArchiveNoImages` | src/data/zipImages.js:17-47 | After loading no archive, no image has a URL. |
| `ZipImages.FailedLoadKeepsImages` | src/data/zipImages.js:17-53 | After a failed load an image found before is still found, under a fresh URL. |
| `QuestionVariant.Rank` | src/quiz/questionVariant.js:5-12 | Each answer gets the sort index (its one-based index minus one, or its position) and its trimmed text. |
| `QuestionVariant.SortedRanked` | src/quiz/questionVariant.js:13 | The sort is a stable ascending permutation by sort index. |
| `QuestionVariant.NormalizeReconstructedAnswers` | src/quiz/questionVariant.js:1-15 | The result is the trimmed texts of the answers in their stable sort order by sort index, one per answer, a permutation of the input texts. |
| `QuestionVariant.OrderedStaysPut` | src/quiz/questionVariant.js:1-15 | Answers already in index order keep their order. |
| `QuestionVariant.AiModeEnabled` | src/quiz/questionVariant.js:18 | AI mode is off exactly when the first non-nullish of the two flags is `false`. |
| `QuestionVariant.GetQuizQuestionVariant` | src/quiz/questionVariant.js:17-44 | The AI version is used exactly when AI mode is on and a reconstruction has text or answers. Each branch takes the text and answers the source chooses. Every answer flagged correct is one of the question's answers. |
| `AppState.ResetAnswers` | src/state.js:49-57 | Answers, results, exclusions and UI sets are cleared, and everything else is kept. |
| `AppState.ResetQuizSession` | src/state.js:59-66 | The session fields are cleared, the answers are reset, and the search and data are kept. |
| `AppState.ResetSearch` | src/state.js:68-74 | The search, its order and the UI sets are cleared. Every other field is kept: the answers, results and session, including the finish time. |
| `AppState.ResetsSettle` | src/state.js:49-74 | Each reset is idempotent, and the search and session resets commute. |
| `AppState.InitialIsReset` | src/state.js:59-74 | The initial state is already reset. |
| `Theme.Channels` | src/theme.js:15-24 | Channels are read exactly from `#rrggbb` or `#rrggbbaa` strings, and each channel is below 256. |
| `Theme.HexToRgba` | src/theme.js:19-26 | A non-colour gives black, and a colour gives its three decimal channels, with the alpha. |
| `Theme.ChannelsRoundTrip` | src/theme.js:15-24 | Writing a colour as hex and reading it back gives the same channels. |
| `Theme.AlphaDigitsIgnored` | src/theme.js:21-24 | An eight-digit colour reads like its first six digits. |
| `Theme.ResolveThemeIdAsWritten` | src/theme.js:28-31 | Registered ids are kept and empty ones give the default, but the result is always the default or the input. |
| `Theme.ResolveThemeIdAcceptsInheritedName` | src/theme.js:28-31 | The inherited property name "constructor" is accepted although no theme has that id. |
| `Theme.ResolveThemeId` | src/theme.js:28-31 | The result is always a registered theme: the input when registered, else the default. |
| `Theme.ResolveThemeIdSettles` | src/theme.js:28-31 | Resolving twice changes nothing, and the source's lookup agrees with the corrected one on all but inherited names. |
| `Theme.Resolve` | src/theme.js:52-69 | A chain of JavaScript or-operators gives its first truthy source, or the fallback, and is always truthy. |
| `Theme.ToCssVars` | src/theme.js:44-72 | Every variable of the table, in order, gets its chain's value, followed by the pie-inner colour. |
| `Theme.EmptyThemeUsesFallbacks` | src/theme.js:44-72 | Without theme data every variable takes its fallback. |
| `Theme.EmptyThemePieInner` | src/theme.js:70 | Without theme data the pie inner colour is the background at 82 percent. |
| `Theme.ChartSeries` | src/theme.js:77-79 | A non-empty theme series is used, otherwise the six default colours. |
| `Theme.BuildThemeTokens` | src/theme.js:74-94 | The series is the theme's non-empty series or the default colours. Each progress token and the pie label is read along its own chain of theme paths with its literal as the last resort. The pie inner colour comes from the background. Every token is present and truthy. |
| `Theme.EmptyThemeTokens` | src/theme.js:74-94 | Without theme data every token is its literal: the six default chart colours, the four progress colours, the label colour, and the default background at 82 percent. |
| `Components.MaintenanceLevel` | src/ui/components.js:4-5 | Unknown without severity, red from 3, yellow from 2, and green below. |
| `Components.LabelMatchesLevel` | src/ui/components.js:5-6 | The label computed separately always names the level, and levels have distinct labels. |
| `Components.LevelMonotone` | src/ui/components.js:5 | A higher severity never gives a lower level. |
| `Components.TopicPath` | src/ui/components.js:19-21 | The path joins the present topic names with an arrow, and is empty exactly when topics are hidden or none is present. |
| `Components.QMeta` | src/ui/components.js:16-38 | Each pill appears exactly when its field is present. The exam pill shows the exam name, the topic pill the path, and the image pill the number of images. The badge appears exactly for changed answers, and the traffic light has a matching label. |
| `Components.JoinedLetters` | src/ui/components.js:42-43 | Joining single letters with ", " puts the k-th letter at position 3k, with a comma and a space between neighbours. |
| `Components.SelectionText` | src/ui/components.js:42 | The selection reads "(keine)" exactly when empty. Otherwise it lists its letters in order, separated by ", ". |
| `Components.SolutionText` | src/ui/components.js:43 | The solution lists the letters of the correct indices in order, separated by ", ", and is empty without any. |
| `Components.OptionLines` | src/ui/components.js:41 | Each answer line is its letter, ") " and its text. |
| `Components.ExplainPromptLines` | src/ui/components.js:40-57 | The prompt has the exam line, the question, the options, the selection and the solution in fixed positions. |
| `Display.OverrideOf` | src/ui/render.js:117 | A local override is found exactly when one is stored for the id. |
| `Display.GetDisplayedQuestion` | src/ui/render.js:116-153 | Outside quiz and review the overridden question is shown. A forced original shows the raw question. An override shows the overridden question. Otherwise the AI variant is shown, with the question's own images. |
| `Display.AiReconstructionPrecedence` | src/ui/render.js:116-153 | The AI version is shown exactly in quiz or review, with no forced original and no override, when AI mode is on and a reconstruction exists. |
| `Display.DisplayedFlagsComeFromAQuestion` | src/ui/render.js:116-153 | Every displayed answer flagged correct belongs to the raw or to the overridden question. |
| `Display.IsAiModeEnabled` | src/ui/render.js:178-181 | The render check agrees with the variant's AI-mode rule. |
| `Display.FindWrong` | src/ui/render.js:191 | `find` returns the first entry with the index, or nothing when none has it. |
| `Display.AiExplanationTooltipForOption` | src/ui/render.js:183-193 | Correct options show the non-empty correctness explanation. Other options show the reason of the first entry for the option exactly when that reason is non-empty, and nothing when no entry exists. The tooltip is never an empty text. |
| `Display.NormalizedSelection` | src/ui/render.js:162-170 | The kept selection holds only stored, in-range indices. A multi-answer question keeps all of them in stored order. A single-answer question keeps the first of them, or none when none is in range. |
| `Display.NormalizeAnswerStateForVariant` | src/ui/render.js:160-176 | Only the question's selection, and for a submitted question its result, change. The result is the score of the normalised selection. |
| `Display.NormalizeAnswerStateSettles` | src/ui/render.js:160-176 | Normalising a second time changes nothing. |
| `Display.SortedDistinct` | src/ui/render.js:1820 | `Array.from(set).sort` yields a strictly increasing list of exactly the set's members. |
| `Display.StrictlyIncreasingUnique` | src/ui/render.js:1820 | Two strictly increasing lists with the same members are equal. |
| `Display.OptionChange` | src/ui/render.js:1815-1823 | A single-answer change selects just the option. A multi-answer change adds or removes it and keeps the selection strictly increasing. |
| `Display.OptionChangeSettles` | src/ui/render.js:1815-1823 | Repeating the same change has no further effect. |
| `Display.OptionToggleBack` | src/ui/render.js:1817-1820 | Checking and then unchecking an option not selected before is the same as only unchecking it. |
| `Display.IndexOrMinusOne` | src/ui/render.js:1474-1475 | Each correct answer maps to its position, every other answer to -1. |
| `Display.CorrectIndicesOf` | src/ui/render.js:1474-1476 | The saved indices are strictly increasing and exactly the positions of correct answers. |
| `Display.EditorOverride` | src/ui/render.js:1470-1483 | The override keeps the trimmed text and answers and the images, and its indices mark exactly the correct drafts. |
| `Display.SaveOverride` | src/ui/render.js:1485-1490 | Without a truthy active dataset id nothing changes. With one, the override is stored, the forced original is dropped, and the selection is normalised against the new version. Results stay unless the question was submitted; a submitted question is re-scored against the override-applied question with the normalised selection. Nothing else changes. |
| `Display.SavedOverrideIsShown` | src/ui/render.js:1485-1490 | After saving, the overridden question is both scored and shown, and the selection fits its answers. |
| `Markup.EscapeHtml` | src/ui/render.js:701-708 | The escaped text contains no `<`, `>` or quotes, and every `&` starts an entity. |
| `Markup.EscapePassesAreEscapeEach` | src/ui/render.js:703-707 | The five successive replacements equal escaping each character once. |
| `Markup.UnescapeEscapeHtml` | src/ui/render.js:701-708 | Unescaping the five entities gives back the original text. |
| `Markup.EscapeHtmlOf` | src/ui/render.js:702 | Falsy values escape to the empty string. |
| `Markup.IndexOf` | src/ui/render.js:381 | `indexOf` finds the first match at or after the start, or -1 when there is none. |
| `Markup.HighlightText` | src/ui/render.js:367-394 | The segments concatenate back to the text, and a blank query gives one plain segment. Otherwise each mark lies exactly on a case-insensitive match. No match starts inside a plain segment, plain segments are non-empty, and no two are adjacent: the marks are the leftmost non-overlapping matches. |
| `Markup.HighlightedUnique` | src/ui/render.js:367-394 | Only one segmentation has these properties, so they fix the result. |
| `Markup.NextSegments` | src/ui/render.js:380-393 | Each loop step advances. It keeps the segments a faithful split of the text so far, with marks on matches and match-free plain runs, and it appends a plain run only before a mark or at the end. |
| `Paging.ClampPageSize` | src/ui/render.js:1111 | The page size is clamped to 10 to 300: kept when already inside, 10 for anything smaller (negative infinity included), 300 for anything larger (infinity included); `NaN` stays `NaN`. |
| `Paging.TotalPages` | src/ui/render.js:1112 | The page count is at least 1, enough pages cover all questions, and there is no surplus page. |
| `Paging.PagerOf` | src/ui/render.js:1111-1118 | The page lies within 1 to the page count: kept when already valid, 1 for anything smaller, the page count for anything larger. |
| `Paging.RenderPager` | src/ui/render.js:1106-1119 | Empty inputs give page size 50 and page 1. |
| `Paging.PagerIntegers` | src/ui/render.js:1111-1114 | Integer inputs give an integer page size and page. |
| `Paging.SliceBounds` | src/ui/render.js:1683 | For any page of at least 1, fractional ones included, each slice bound is the product truncated towards zero and cut to the list length, and the slice lies within the list. |
| `Paging.PagesMeet` | src/ui/render.js:1683 | The slice of each page ends where the slice of the next page begins. |
| `Paging.PageSlice` | src/ui/render.js:1674-1683 | A field that reads as `NaN` renders an empty slice. Otherwise the slice has the bounds of the pager's page and size. |
| `Paging.JumpPage` | src/ui/render.js:1508-1509 | The jump page is the page p with (p - 1) times the size at most idx, and idx below p times the size. |
| `Paging.JumpPageWithinPager` | src/ui/render.js:1508-1509 | The jump page never exceeds the page count. |
| `Paging.JumpRendersQuestion` | src/ui/render.js:1501-1512 | For integer page sizes, the jump page is kept by the pager and its slice holds the question. |
| `Paging.JumpMissesQuestionAsWritten` | src/ui/render.js:1508-1509 | With page size 10.5 the question at position 10 is sent to page 1, whose slice ends before it. |
| `Paging.JumpPageCorrected` | src/ui/render.js:1509 | The corrected page p has (p - 1) times the size below idx + 1 and idx + 1 at most p times the size: exactly the page whose truncated slice holds idx. |
| `Paging.JumpPageCorrectedRendersQuestion` | src/ui/render.js:1501-1512 | For every page size the pager allows, the corrected page is kept and its slice holds the question. |
| `Paging.JumpPageCorrectedAgrees` | src/ui/render.js:1509 | For integer page sizes the correction equals the source's page. |
| `Stats.RoundPercent` | src/ui/render.js:101 | The rounded percentage is the nearest integer to 100 times part/whole, rounding halves up, and lies in 0 to 100. |
| `Stats.RoundPercentEnds` | src/ui/render.js:101 | All correct gives 100 and none correct gives 0. |
| `Stats.ComputeQuizProgress` | src/ui/render.js:96-103 | Total and submitted are counted, and correct counts the submitted questions scored true. The percentage is their rounded ratio, or 0 with nothing submitted. |
| `Stats.ProgressEnds` | src/ui/render.js:101 | Full marks give 100 and none give 0. |
| `Stats.ExamStatsOf` | src/ui/render.js:480-496 | Answered counts the exam's questions with a stored answer, and correct those answered correctly. The counts add up. The exam is complete exactly when nothing is unanswered, and the percentage rounds correct over answered. |
| `Stats.ExamCorrectCounts` | src/ui/render.js:480-496 | Correct is positive exactly when some exam question was last answered correctly. It equals answered exactly when every answered one was. |
| `Stats.EntriesSound` | src/ui/render.js:480-497 | Every entry emitted is a grouping key whose stats pass the filter. |
| `Stats.EntriesComplete` | src/ui/render.js:480-497 | Every key whose stats pass the filter is emitted. |
| `Stats.ExamNamesOccur` | src/ui/render.js:472-477 | An exam is grouped exactly when it is truthy and some question has it. |
| `Stats.AnsweredExams` | src/ui/render.js:479-497 | Each exam appears once, with its statistics, exactly when some of its questions are answered. |
| `Stats.GetExamStatsMap` | src/ui/render.js:464-500 | Without a dataset id or answers the map is empty. Otherwise it has exactly the truthy exams with an answered question, each once and with its own statistics. |
| `Stats.SortedNames` | src/ui/render.js:603-608 | Names are sorted by collation, free of duplicates, and keep their members. |
| `Stats.SuperTopics` | src/ui/render.js:594-599 | The tree's topics are exactly the non-empty trimmed super topics. |
| `Stats.SubTopicsUnder` | src/ui/render.js:595-600 | A topic's subtopics are exactly the non-empty trimmed subtopics of its questions. |
| `Stats.TopicNodeOf` | src/ui/render.js:605-608 | A node lists its subtopics sorted and without duplicates. |
| `Stats.GetTopicTree` | src/ui/render.js:591-609 | The tree has one node for every present super topic and no other, distinct and sorted by collation, each with its own subtopics. |
| `Stats.NameOr` | src/ui/render.js:821-822 | A trimmed name is used, or the fallback when it is blank, and the result is never empty. |
| `Stats.RowOf` | src/ui/render.js:818-863 | A question's row has its trimmed topics or the fallbacks "Sonstige" and "Nicht zugeordnet", and is answered or correct as the state says. |
| `Stats.Reference` | src/ui/render.js:824-863 | The reference tally of a bucket counts the matching rows consistently. |
| `Stats.Tallies` | src/ui/render.js:817-864 | The loop builds one topic per super topic of the rows, each once. Each topic and sub-topic bucket is its reference tally, the sub-topics are exactly those of its rows, and their totals sum to the topic's. |
| `Stats.Rate` | src/ui/render.js:868-884 | The denominator is answered or total. Both shares are rounded percentages of it (0 when it is 0), and the unanswered share fills up to 100 without going negative. |
| `Stats.RankPerfs` | src/ui/render.js:888-900 | The ranking is a permutation sorted by denominator descending, then by collation. |
| `Stats.ComputeTopicPerformance` | src/ui/render.js:813-903 | Topics and subtopics come out ranked. |
| `Stats.TopicPerformanceAgrees` | src/ui/render.js:813-903 | Every topic entry equals the reference tally of its rows. The sub totals sum to the topic total, and every subtopic present is listed once with its own tally. |
| `Stats.TopicPerformanceCovers` | src/ui/render.js:817-866 | Topic names are distinct, and a topic is listed exactly when some question of the session has it. |

## Left out

- Network, storage and the DOM: `fetch`, `res.ok` and `res.json()` become an optional response per URL (a missing one fails the load). Local storage writes, toasts, scrolling, element creation and all HTML markup are not modelled.
- Helpers the core imports but this model does not contain are parameters: `decodeHtmlEntities`, `evaluateAiChangedLabel`, `resolveAiDisplayText`, `applyLocalQuestionOverride`, `getCorrectIndices`, `evaluate`, `questionIdIndex`, `getLatestAnsweredResultsByQuestion`, `getQuizMode` and `reviewPalette`.
- `Number(string)`, `String(number)` and number formatting are engine parameters; the model never invents their results.
- `localeCompare(…, "de")` is a collation key `string -> real`, so ties between distinct names that collate equal are left to the stable sort.
- `String.prototype.toLowerCase` is modelled for ASCII letters only; other case mappings are not modelled.
- `JSZip` decompression and object URLs: an archive is its list of paths. Whether the library is loaded, what decompression settles to (the archive or a rejection message) and a new object URL are parameters; the asynchronous timing is not modelled.
- Colours (`reviewPalette`), pie charts and the other SVG output of render.js are not modelled.
- `toast` in src/utils.js touches only the DOM and timers.
- `loadThemeDefinition` and `applyCssVars` in src/theme.js perform I/O and DOM writes.
- Stats.RoundPercent: computed on exact rationals; `Math.round` on doubles can differ when 100 times the ratio lands just beside a half.
- Stats.Rate: shares are rounded on exact rationals like `Stats.RoundPercent`; colours are left out.
- Stats.ComputeTopicPerformance: its own contract only states the ranking; the agreement with the reference tallies is in `Stats.TopicPerformanceAgrees` and `Stats.TopicPerformanceCovers`.
- Shuffling.Shuffle: the draw is the numerator of `rng()` as a function of the pass number; the floor of numerator times (i + 1) over 2^32 equals the double computation while that product stays below 2^53.
- Utils.Hash32: strings are sequences of Unicode scalar values, so lone surrogates in the input are not representable.
- Utils.Letter: only indices whose code unit is not a surrogate are accepted, since such characters have no `char`.
- Loaders.NormalizeIndices: the source is not idempotent, as `Loaders.NormalizeIndicesNotIdempotent` shows: normalising [2, 3] with 4 answers gives [1, 2], and again gives [0, 1]. The model follows the code.
- Components.QMeta: the HTML around the facts and the `Severity` number formatting are not modelled.
- Display.SaveOverride: the write to local storage and the events and re-render after it are not modelled.

## Findings

| source | as written | input that shows it | evidently intended | confidence | as-written member | corrected member |
|---|---|---|---|---|---|---|
| src/theme.js:28-31 | `THEME_REGISTRY[themeId]` also finds properties inherited from `Object.prototype` | theme id "constructor" is returned as a theme id, and the later `THEME_REGISTRY[id].file` is undefined | only ids registered in `THEME_REGISTRY` are accepted; anything else gives "spezi" | not executed | `Theme.ResolveThemeIdAsWritten`, `Theme.ResolveThemeIdAcceptsInheritedName` | `Theme.ResolveThemeId`, `Theme.ResolveThemeIdSettles` |
| src/ui/render.js:1508-1509 | the jump page is `floor(idx / pageSize) + 1`, while the rendered slice `qs.slice((page - 1) * pageSize, page * pageSize)` truncates fractional bounds | page size field "10.5", more than 1000 questions, jump to the question at position 10: page 1 is chosen, but it renders positions 0 to 9 | the page whose rendered slice contains the question, `ceil((idx + 1) / pageSize)` | not executed | `Paging.JumpPage`, `Paging.JumpMissesQuestionAsWritten` | `Paging.JumpPageCorrected`, `Paging.JumpPageCorrectedRendersQuestion` |
