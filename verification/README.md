# GulfCertify quiz platform — a Dafny model of its logic

GulfCertify is an exam-preparation site for medical multiple-choice
questions (MCQs). Users answer questions by exam month, by subject, or in a
four-hour mock test, and then review a results screen. The site has three
parts, and each is modelled here as pure functions over immutable data:

- **The browser quiz.** There are two versions: a React app (the
  `useQuizState` hook, the `MCQView`, `ResultsView`, `MockTest`,
  `ExamWise` and `SubjectWise` components, and the `api.js` helpers) and a
  vanilla page (`static/js/script.js`). The model covers loading a
  question set, recording answers, moving the cursor, the answer lock, the
  scores, percentage and tier, the mock countdown and its persisted
  snapshot, the clock text, and HTML escaping.
- **The Flask server.** The model covers the month-to-table naming, the
  exam-month route, the mock-test assembly, the form validators, and the
  register / verify / resend / login / logout flow, which is a state
  machine over a session record and a user store.
- **The ingestion scripts.** The model covers:
  - slicing JSON out of a model reply, sorting by question number, and
    stripping number prefixes;
  - merging duplicate questions and filling highlighted answers;
  - the page chunking of `extract_mcqs.py` and `main.py`, and argument
    parsing;
  - question normalisation and text cleaning before insertion, batch
    counting, and row numbering in `db_handler.py`;
  - reply parsing and batching in `classify_mcqs.py`.

Everything the code leaves to the outside world becomes a parameter: a
database query, a model reply, the clock, storage, a mail send or a
password hash. Python dicts are insertion-ordered association lists
(`Dict`). JavaScript `null` and Python `None` are `Option.None`. A "truthy"
string is a present, non-empty one. JavaScript `Math.round` of a ratio is
integer half-up division (`JsMath.RoundDiv`), and `%` on a negative
JavaScript number is `JsMath.JsRem`.

One module per source file: `QuizState`, `MockTimer`, `McqView`,
`ResultsView`, `MockTest`, `ExamWise`, `SubjectWise`, `VanillaQuiz`, `Api`,
`ExtractMcqs`, `DbHandler`, `ClassifyMcqs`, `App`, `MainPipeline`, `Forms`
and `Auth`. Shared helpers live in `Wrappers`, `Text`, `Dict`, `JsMath`,
`Mcq` (the frontend question record) and `Navigation`.

## Model

| member | source | states |
|---|---|---|
| Mcq.HasCorrectAnswer | frontend/src/components/MCQView.js:30 | a question is answerable exactly when its key is present and not blank after trimming |
| Mcq.VisibleOptions | frontend/src/components/MCQView.js:84-85 | every shown option has a non-empty value and is one of the question's options; every option with a non-empty value is shown |
| Mcq.NullAnswers | frontend/src/hooks/useQuizState.js:64 | n answer slots, every one unanswered |
| Navigation.Next | frontend/src/components/ExamWise.js:46-53 | the cursor advances by one exactly when it is below the last index; otherwise the move asks for the results |
| Navigation.Previous | frontend/src/components/ExamWise.js:55-60 | the cursor steps back by one above 0 and stays at 0 |
| Navigation.MovesStayInRange | frontend/src/components/MockTest.js:70-85 | from a cursor inside the list both moves stay inside it, and results are asked for exactly at the last index |
| Navigation.PreviousUndoesNext | frontend/src/components/SubjectWise.js:42-56 | Previous after an advancing Next returns to the starting index |
| Navigation.NextPane | frontend/src/components/ExamWise.js:46-53 | below the last index the cursor advances by one and nothing else changes; at the last index only the results flag changes (SubjectWise.js:42-49 is the same handler) |
| Navigation.PreviousPane | frontend/src/components/ExamWise.js:55-60 | the cursor steps back by one above 0, and nothing changes at 0 (the same handler in SubjectWise.js:51-56 and MockTest.js:80-85) |
| Navigation.ReviewPane | frontend/src/components/ExamWise.js:73-76 | review hides the results at index 0 and keeps the questions and answers (SubjectWise.js:69-72 is the same) |
| Navigation.PaneMovesKeepCursor | frontend/src/components/SubjectWise.js:42-56 | both moves keep the cursor inside the list, and Previous undoes a Next that did not finish |
| QuizState.HandleMcqData | frontend/src/hooks/useQuizState.js:61-68 | loading n questions gives cursor 0, score 0, attempted 0 and n unanswered slots; the mock flag is set exactly for the subject "Mock Test" |
| QuizState.ContextLabelPrefers | frontend/src/hooks/useQuizState.js:69 | the saved label is "subject:…" when a subject is given, else "month:…" when a month is given, else "direct"; different subjects give different labels |
| QuizState.SetSlot | frontend/src/hooks/useQuizState.js:73-74 | writing slot i stores the value there and keeps every other slot; writing past the end grows the array with unanswered slots, as a JavaScript array does |
| QuizState.SelectOption | frontend/src/hooks/useQuizState.js:72-80 | only the current slot changes, and it gets the chosen key; attempted grows by one; score grows by one exactly when the choice equals the key, and is unchanged otherwise |
| QuizState.TransitionsKeepValid | frontend/src/hooks/useQuizState.js:61-80 | score ≤ attempted holds in the initial session and after loading, and every answer keeps it |
| QuizState.AnswerAllCounts | frontend/src/hooks/useQuizState.js:72-80 | after k answers, attempted has grown by k and score by the number of matching answers, which is at most k |
| QuizState.LoadQuizState | frontend/src/hooks/useQuizState.js:41-51 | a snapshot comes back exactly when storage holds parsable JSON whose question list is an array, and it is the stored snapshot |
| QuizState.SaveLoadRoundTrip | frontend/src/hooks/useQuizState.js:23-51 | loading what was saved gives back the session, the context label and the timestamp |
| MockTimer.Resume | frontend/src/hooks/useQuizState.js:111-133 | an unpaused snapshot resumes at max(0, saved − max(0, now − lastTick)); a paused one keeps the saved value and pauses; a missing or invalid one gives 4 hours unpaused |
| MockTimer.Tick | frontend/src/hooks/useQuizState.js:137-153 | a tick writes storage exactly when the timer is unpaused with time left; the time then drops strictly, to max(0, prev − 1000); the record written holds the new value and lastTick = now; otherwise nothing changes |
| MockTimer.TickResumeRoundTrip | frontend/src/hooks/useQuizState.js:111-153 | resuming later from a tick's record deducts exactly the elapsed time, clamped at 0; resuming at the same instant gives back the ticked value |
| MockTimer.RunTicksClamp | frontend/src/hooks/useQuizState.js:137-153 | k ticks of an unpaused timer leave max(0, remaining − 1000·k), so the time never goes negative and never grows |
| MockTimer.PausedStays | frontend/src/hooks/useQuizState.js:137-153 | ticks of a paused timer change nothing |
| MockTimer.FieldsAreClock | frontend/src/hooks/useQuizState.js:159-163 | for ms ≥ 0, minutes and seconds are below 60 and hh·3600 + mm·60 + ss = ⌊ms/1000⌋ |
| MockTimer.FieldDigits | frontend/src/hooks/useQuizState.js:161-163 | each field is all digits, at least 2 wide (exactly 2 below 100), has no ':', and reads back as its number |
| MockTimer.FormatTimeReadsBack | frontend/src/hooks/useQuizState.js:159-165 | the clock text splits at ':' into three digit fields, the last two 2 wide, whose values recombine to ⌊ms/1000⌋ |
| MockTimer.ClearTimer | frontend/src/hooks/useQuizState.js:167-174 | clearing resets the remaining time to 4 hours and leaves the pause flag alone |
| MockTimer.ClearThenResume | frontend/src/hooks/useQuizState.js:111-174 | once clearTimer has removed the stored item, a resume gives the fresh 4-hour timer, whereas the snapshot of a running test with time used would not |
| McqView.OnOptionClick | frontend/src/components/MCQView.js:34-37 | a click is forwarded exactly when the question is answerable and its slot is empty, and it forwards the clicked key with the question's key |
| McqView.SlotSetAtMostOnce | frontend/src/components/MCQView.js:34-37 | after a forwarded click the slot holds the clicked key, and every later click on that question is ignored |
| McqView.OptionClass | frontend/src/components/MCQView.js:39-56 | "option" comes first; "disabled" appears exactly when the question is unanswerable or in review; "incorrect" exactly on a chosen key that is not the key; "correct" exactly on the key once the question is answered |
| McqView.Header | frontend/src/components/MCQView.js:62 | the header shows index + 1 over 200 in mock mode, and over the question count otherwise |
| McqView.Nav | frontend/src/components/MCQView.js:121-136 | Previous is hidden exactly at index 0; Next is shown exactly when the slot is answered; the label is "Show Results" exactly at the last index |
| McqView.KeylessQuestionBlocks | frontend/src/components/MCQView.js:121-136 | at a first question with no key, no click is forwarded and neither button is shown |
| McqView.NavCorrected | static/js/script.js:326-332 | corrected buttons: Next is also shown for a question with no key, as the vanilla page does; Previous and the label are unchanged |
| McqView.CorrectedAlwaysProgresses | frontend/src/components/MCQView.js:121-136 | with the corrected buttons every question either shows Next or accepts a click, and a forwarded click makes Next appear |
| ResultsView.TotalAnswered | frontend/src/components/ResultsView.js:9 | the answered count is at most the slot count; it is 0 exactly when no slot is answered and full exactly when all are |
| ResultsView.CorrectAnswers | frontend/src/components/ResultsView.js:10-12 | the exact-match count is at most the number of slots; its relation to the answered count is in CorrectWithinAnswered and NullKeyInflatesScore |
| ResultsView.Percentage | frontend/src/components/ResultsView.js:13 | 0 when nothing is answered; otherwise the integer nearest to 100·correct/answered, with ties rounded up |
| ResultsView.PercentageBounds | frontend/src/components/ResultsView.js:13 | the percentage is never negative, is at most 100 when correct ≤ answered, and is exactly 100 when every answer is correct |
| ResultsView.CorrectWithinAnswered | frontend/src/components/ResultsView.js:10-12 | when no unanswered slot belongs to a question without a key, correct ≤ answered |
| ResultsView.NullKeyInflatesScore | frontend/src/components/ResultsView.js:10-13 | one right answer plus one unanswered question without a key scores 2 correct of 1 answered, i.e. 200% |
| ResultsView.CorrectAnswered | frontend/src/components/ResultsView.js:10-12 | corrected count: only answered slots can count, so it never exceeds the answered count |
| ResultsView.CorrectAnsweredAgrees | frontend/src/components/ResultsView.js:10-13 | the corrected count equals the as-written one when no unanswered slot meets a null key, and its percentage always lies in 0..100 |
| ResultsView.TierOf | frontend/src/components/ResultsView.js:161-182 | Excellent exactly from 80, Good exactly on 60..79, Fair exactly on 40..59, Needs Improvement exactly below 40 |
| ResultsView.TierMonotone | frontend/src/components/ResultsView.js:161-182 | a higher percentage never earns a lower tier |
| ResultsView.MockResult | frontend/src/components/ResultsView.js:135-137 | the mock card reports the correct count out of all questions served, a total no smaller than the answered count, with the answered-based percentage |
| ResultsView.ReviewStyle | frontend/src/components/ResultsView.js:53-59 | in review the key is styled correct, a chosen wrong key wrong, and anything else muted |
| ResultsView.ReviewRows | frontend/src/components/ResultsView.js:46-59 | one review row per non-empty option, in order, each with its style |
| ResultsView.ReviewHighlightsAtMostOne | frontend/src/components/ResultsView.js:46-59 | with distinct option keys at most one row is styled correct and at most one wrong, and a right answer leaves no wrong row |
| MockTest.Load | frontend/src/components/MockTest.js:28-68 | the test is ready exactly for a non-empty question list; a thrown fetch goes home with its message or the default; an empty list goes home with "No MCQs available for mock test"; a ready screen is in mock mode at index 0 with one empty answer slot per question, a full timer, and neither loading nor results |
| MockTest.ExpiryEffect | frontend/src/components/MockTest.js:20-26 | results show exactly when they already did or the timer ran out while loaded with questions; only then is the timer cleared; otherwise nothing changes |
| MockTest.Next | frontend/src/components/MockTest.js:70-78 | below the last index the cursor advances by one; at the last index the results show and the timer is cleared |
| MockTest.CursorStaysInRange | frontend/src/components/MockTest.js:70-85 | Next and the shared Previous keep the cursor inside the question list |
| MockTest.OnReview | frontend/src/components/MockTest.js:131-134 | review hides the results and returns to index 0, keeping the answers, the timer and the loading flag |
| MockTest.TimeTaken | frontend/src/components/MockTest.js:107-111 | the minutes are never negative, and are the nearest whole minute to the elapsed time |
| MockTest.TimeTakenRange | frontend/src/components/MockTest.js:107-111 | 0 minutes for a full timer, 240 for an empty one, and growing as the time runs down |
| MockTest.FinishReportsZero | frontend/src/components/MockTest.js:70-78 | after Next at the last question, or after expiry, the card shows 0 minutes, because the timer has just been cleared |
| MockTest.FinishCorrected | frontend/src/components/MockTest.js:70-78 | corrected finish: the same screen change, with the minutes taken before the timer is cleared |
| MockTest.FinishCorrectedReportsElapsed | frontend/src/components/MockTest.js:107-111 | the corrected finish reports 240 minutes for an expired timer, and at least 1 once half a minute has passed |
| ExamWise.Mount | frontend/src/components/ExamWise.js:7-11 | the initial year and month copy the props when truthy, with an empty session and no results |
| ExamWise.ReloadTarget | frontend/src/components/ExamWise.js:13-21 | with both props given, a load happens exactly when they differ from the current year/month, and it loads the props; otherwise exactly when a year and month are set but nothing is loaded |
| ExamWise.MountNeverLoads | frontend/src/components/ExamWise.js:8-21 | right after mounting with both props, no load is triggered |
| ExamWise.ReloadTargetCorrected | frontend/src/components/ExamWise.js:13-21 | corrected trigger: load when the props differ from what is loaded, or when nothing is loaded yet |
| ExamWise.CorrectedMountLoads | frontend/src/components/ExamWise.js:13-21 | the corrected trigger loads the props right after mounting, and agrees with the written one whenever that one loads |
| ExamWise.Load | frontend/src/components/ExamWise.js:23-44 | the session starts exactly for a non-empty list, labelled "month year" and not in mock mode; an empty list goes home with "This Month's MCQs for <year> will be updated soon"; a thrown fetch goes home with its message |
| ExamWise.LoadedLabel | frontend/src/components/ExamWise.js:34 | the saved context label is "month:<month> <year>" |
| ExamWise.WalkToResults | frontend/src/components/ExamWise.js:46-53 | k Next presses from k + 1 before the end reach the last index with the answers untouched, and one more shows the results |
| SubjectWise.Mount | frontend/src/components/SubjectWise.js:7-10 | the initial subject copies a truthy prop, with an empty session and no results |
| SubjectWise.ReloadTarget | frontend/src/components/SubjectWise.js:12-18 | a load happens exactly when a truthy prop differs from the current subject, or a subject is set but nothing is loaded; a differing prop is what loads |
| SubjectWise.MountLoadsSubject | frontend/src/components/SubjectWise.js:8-18 | right after mounting with a subject, that subject is loaded |
| SubjectWise.NoReloadWhenLoaded | frontend/src/components/SubjectWise.js:12-18 | the same subject with questions already loaded triggers nothing |
| SubjectWise.Load | frontend/src/components/SubjectWise.js:20-40 | the session starts exactly when the payload is a list, even an empty one, under the subject label and not in mock mode; an error payload or a thrown fetch goes home with its message |
| SubjectWise.LoadedLabel | frontend/src/components/SubjectWise.js:30 | the saved context label is "subject:<subject>" |
| VanillaQuiz.ResetState | static/js/script.js:49-56 | the cursor and all counters are 0, and the questions and answers are empty |
| VanillaQuiz.KeyedCount | static/js/script.js:159 | the valid-question count is at most the question count, full exactly when every question has a key, and 0 exactly when none has |
| VanillaQuiz.HandleMcqData | static/js/script.js:156-166 | loading sets the questions, cursor 0, the keyed count and n unanswered slots, and leaves score and attempted alone |
| VanillaQuiz.SelectOption | static/js/script.js:413-418 | attempted grows by one, and score grows by one exactly when the choice equals the key; only the current slot changes |
| VanillaQuiz.ReanswerScoresAgain | static/js/script.js:413-418 | the counters have no lock: answering the same question right twice adds 2 to the score (score ≤ attempted still holds) |
| VanillaQuiz.PreviousQuestion | static/js/script.js:436-441 | above 0 the previous question is shown in review; at 0 nothing happens |
| VanillaQuiz.NextQuestion | static/js/script.js:443-450 | below the last index the next question is shown, in review exactly when its slot is answered; otherwise the final results are shown |
| VanillaQuiz.Final | static/js/script.js:452-477 | the final card shows the answered count, the exact-match count, their rounded percentage, and the question count, which is at least the answered count |
| VanillaQuiz.ReviewStatus | static/js/script.js:493-496 | "Not Attempted" exactly for a falsy answer; otherwise Correct exactly when the answer equals the key |
| VanillaQuiz.NextShownOnRender | static/js/script.js:326-332 | for a question with no key the Next button is shown at once; otherwise exactly when its slot is answered |
| VanillaQuiz.NeverStuck | static/js/script.js:286-332 | every question either shows Next or has clickable options, and answering a clickable one shows Next |
| VanillaQuiz.LoadExamDate | static/js/script.js:112-134 | a session starts exactly for an OK response with a non-empty list; an HTTP failure, an error payload, or a null or empty list each show their message |
| VanillaQuiz.LoadSubject | static/js/script.js:136-154 | a session starts exactly for a list payload; an error payload shows its message; a null payload fails on the property read |
| Api.EscapeChar | frontend/src/utils/api.js:32-36 | each of & < > " ' becomes an entity that starts with '&' and ends with ';'; every other character is unchanged |
| Api.EscapeEach | frontend/src/utils/api.js:30-37 | the per-character escape is never shorter than its input and contains no < > " ' |
| Api.EscapeEachConcat | frontend/src/utils/api.js:30-37 | the per-character escape distributes over concatenation |
| Api.EscapeHtmlChar | frontend/src/utils/api.js:31-36 | the five chained replacements turn one character into its entity |
| Api.EscapeHtmlConcat | frontend/src/utils/api.js:30-37 | escapeHtml(a + b) = escapeHtml(a) + escapeHtml(b) |
| Api.EscapeHtmlIsPerChar | frontend/src/utils/api.js:30-37 | the chain of global replaces equals the per-character escape |
| Api.EscapeHtmlProperties | frontend/src/utils/api.js:30-37 | the output has no < > " '; escaping is per-character; the output is never shorter, with equal length exactly when no special character occurs, and then is the input itself |
| Api.EscapeEachLength | frontend/src/utils/api.js:30-37 | the length is kept exactly when no special character occurs, and then the text is unchanged |
| Api.FormatExplanation | frontend/src/utils/api.js:39-66 | a missing or blank explanation gives the fixed "No explanation is available" block; any other gives either the wrapped text or the rendered sections |
| Api.PlainExplanationWrapped | frontend/src/utils/api.js:44-59 | a non-blank explanation without "**" comes back verbatim inside the wrapper |
| ExtractMcqs.CleanJsonMissing | extract_mcqs.py:48-67 | None exactly when the reply has neither '[' nor '{', or neither ']' nor '}' |
| ExtractMcqs.JsonStart | extract_mcqs.py:52-56 | the start is the first '[', else the first '{', and is None exactly when neither occurs |
| ExtractMcqs.JsonEnd | extract_mcqs.py:59-63 | the end is the last ']', else the last '}', and is None exactly when neither occurs |
| ExtractMcqs.CleanJsonRecoversArray | extract_mcqs.py:48-67 | an array framed by text without '[' before it or ']' after it is recovered exactly |
| ExtractMcqs.CleanJsonRecoversObject | extract_mcqs.py:48-67 | in a reply with no brackets, an object framed by text without '{' before it or '}' after it is recovered exactly |
| ExtractMcqs.CleanJsonReversed | extract_mcqs.py:65-67 | when the last ']' comes before the first '[', the result is the empty string |
| ExtractMcqs.ExtractNumber | extract_mcqs.py:74-80 | there is no number, so the entry sorts last, exactly when the label has no digit |
| ExtractMcqs.ExtractNumberOfLabel | extract_mcqs.py:74-80 | the digits of n framed by digit-free text read back as n |
| ExtractMcqs.InsertContents | extract_mcqs.py:82 | inserting adds exactly one copy of the element |
| ExtractMcqs.InsertSorted | extract_mcqs.py:82 | inserting into a sorted list keeps it sorted |
| ExtractMcqs.SortByCorrect | extract_mcqs.py:72-82 | the sort is a permutation, is ordered by key with keyless entries last, and keeps the input order among equal keys (stable) |
| ExtractMcqs.SortByNumberCorrect | extract_mcqs.py:72-82 | sorting by question number is a stable permutation ordered by the number formed from the label's digits, with digit-less labels last |
| ExtractMcqs.Patterns | extract_mcqs.py:87-94 | the six patterns are the number followed by "-", ".", ")", " -", " .", " )", in that order |
| ExtractMcqs.StripPrefixes | extract_mcqs.py:96-101 | the text never grows, and is unchanged when no pattern is a prefix |
| ExtractMcqs.CleanQuestionText | extract_mcqs.py:84-101 | the cleaned text is never longer, and is the text itself when it starts with none of the number's patterns |
| ExtractMcqs.StripPrefixesAt | extract_mcqs.py:96-101 | when pattern k is the first that matches and no later pattern matches the stripped rest, the result is that stripped rest |
| ExtractMcqs.SeparatorsPrefixFree | extract_mcqs.py:87-94 | a text made with a later pattern does not start with an earlier one |
| ExtractMcqs.NumberPrefixRemoved | extract_mcqs.py:84-101 | "N<sep>body" cleans to the stripped body, unless that body starts with N again |
| ExtractMcqs.MergeOptionsProps | extract_mcqs.py:332-334 | a non-empty existing option is kept, every non-empty incoming option ends up present, and the keys are the union |
| ExtractMcqs.MergeInto | extract_mcqs.py:328-336 | the merged question has a key exactly when either copy had one, keeps an existing key, takes the longer text, keeps every non-empty option and fills in the other's |
| ExtractMcqs.CleanAll | extract_mcqs.py:320-323 | every question's text has its number prefix cleaned, in place and in order |
| ExtractMcqs.AbsorbGet | extract_mcqs.py:325-336 | a new number is added, a seen one is merged, and no other entry changes |
| ExtractMcqs.DedupKeys | extract_mcqs.py:318-336 | the merged table has one entry per distinct number, holds exactly the numbers that occur, and files each under its own number |
| ExtractMcqs.DedupAnswer | extract_mcqs.py:330-331 | a merged question has a key exactly when some copy of that number had one |
| ExtractMcqs.DedupCovers | extract_mcqs.py:328-336 | for every copy, the merged entry's text is no shorter and every non-empty option of the copy is present |
| ExtractMcqs.MergeDuplicatesNumbers | extract_mcqs.py:318-338 | the merged list has pairwise distinct numbers, exactly the numbers of the input |
| ExtractMcqs.MergeDuplicatesKeeps | extract_mcqs.py:318-338 | every input copy has its entry in the merged list: same number, a key exactly when some copy had one, a text no shorter than its cleaned text, and all its non-empty options |
| ExtractMcqs.PageRangeEnd | extract_mcqs.py:183 | the end page is start + max_pages when max_pages is truthy and fits, and the page count otherwise |
| ExtractMcqs.ChunkStarts | extract_mcqs.py:218 | the chunk starts run from the start page in steps of 3 while below the end, and the last step reaches the end |
| ExtractMcqs.ChunksCoverPages | extract_mcqs.py:218-223 | every page in [start, end) lies in some chunk [p, min(p + 5, end)), and consecutive full chunks overlap by 2 pages |
| ExtractMcqs.FormatForDisplay | extract_mcqs.py:355-379 | there are at most as many answer lines as formatted entries, and at most as many of those as input records |
| ExtractMcqs.FormatCompleteRecords | extract_mcqs.py:355-379 | with every field present, each record gives one "number text" entry and one "number: answer" line, in order |
| ExtractMcqs.FirstMarked | extract_mcqs.py:275-284 | the option picked is the first, in dict order, whose non-empty text is marked in the source text; there is none exactly when no option is marked |
| ExtractMcqs.HighlightFill | extract_mcqs.py:272-284 | only a question without a key can change, and only its key, which becomes the first marked option |
| ExtractMcqs.HighlightFillIdempotent | extract_mcqs.py:272-284 | filling twice is filling once |
| DbHandler.RemovePrefixes | db_handler.py:77-79 | the result is a suffix of the text, and is the text itself when no listed prefix followed by a space starts it |
| DbHandler.NormalizeQuestion | db_handler.py:54-82 | None exactly for a missing or empty question; otherwise the hash of the normalised key |
| DbHandler.SameKeySameDigest | db_handler.py:54-82 | questions with the same normalised key get the same digest, whatever the hash |
| DbHandler.KeyIgnoresCase | db_handler.py:60 | questions that differ only in letter case get the same key |
| DbHandler.KeyIgnoresPunctuation | db_handler.py:67 | inserting a punctuation character leaves the key unchanged |
| DbHandler.KeyNewlineForms | db_handler.py:63-64 | a literal "\n", a newline and a space give the same key |
| DbHandler.KeyIgnoresSpaceRuns | db_handler.py:69-70 | a run of two whitespace characters and a single one, or any whitespace character and a space, give the same key |
| DbHandler.RemovePrefixesConcat | db_handler.py:77-79 | the prefix list is applied in list order, each prefix once |
| DbHandler.OnlyLastMatches | db_handler.py:77-79 | when only the last prefix matches, exactly it and its space are removed |
| DbHandler.PrefixRemovedOnce | db_handler.py:73-79 | "the the x" loses a single "the " |
| DbHandler.CleanText | db_handler.py:139-145 | a falsy text is returned as is; otherwise the result has single spaces only, none at the ends, no literal "\n", and the same non-space characters as the text with its literal "\n"s turned into newlines |
| DbHandler.CleanTextIdempotent | db_handler.py:139-145 | cleaning twice is cleaning once |
| DbHandler.CleanTextEscapedNewline | db_handler.py:142 | a literal "\n" and a real newline clean alike |
| DbHandler.CleanOption | db_handler.py:151-154 | the string 'null' becomes None, and anything else is cleaned |
| DbHandler.DefaultSubject | db_handler.py:160-163 | the subject is always one of the four; a known one is kept, and anything else becomes 'Medicine' |
| DbHandler.OptionValue | db_handler.py:151-154 | a missing option key reads as None, and a present one as its value |
| DbHandler.PrepareColumns | db_handler.py:147-163 | the stored columns are the cleaned text, the digest of the cleaned text, the four cleaned options and the defaulted subject |
| DbHandler.PreparedColumnsClean | db_handler.py:147-163 | a stored truthy text is whitespace-canonical, the subject is known, and a digest exists exactly when the cleaned text is truthy |
| DbHandler.BatchInsert | db_handler.py:227-245 | successful + failed = the number of questions; successful counts the inserts that returned a truthy id; with no failure, failed is 0 |
| DbHandler.OptionEntry | db_handler.py:277-280 | an option is added under its key exactly when its value is truthy, and the other keys are unchanged |
| DbHandler.PresentOptionsShape | db_handler.py:276-280 | the option dict holds exactly the truthy ones of A–D, each under its own letter, and no empty value |
| DbHandler.BySubject | db_handler.py:273-292 | one item per row, in order, numbered i + 1, carrying the row's fields and only its non-empty options |
| DbHandler.BySubjectNumbering | db_handler.py:274-284 | the display numbers increase strictly and are exactly 1..n |
| DbHandler.NumberScan | db_handler.py:324-349 | the counter restarts at 1 whenever the subject changes and otherwise grows by 1; a first row without a subject gets 0 |
| DbHandler.NumberingRuns | db_handler.py:327-349 | within a run of equal subjects the numbers go 1, 2, 3, … |
| DbHandler.ByExamDate | db_handler.py:323-350 | one item per row, in order, carrying the row's fields, only its non-empty options, and the per-subject number |
| ClassifyMcqs.OptionLines | classify_mcqs.py:34-36 | the prompt lists exactly the options with non-empty values: every line renders such an option, and every such option has its line |
| ClassifyMcqs.SubjectOfLine | classify_mcqs.py:54-64 | a line yields a subject exactly when its upper-cased text names one, taking Surgery over Medicine over Gynae over Paeds |
| ClassifyMcqs.ParseLines | classify_mcqs.py:53-64 | at most one known subject per reply line |
| ClassifyMcqs.ParseLinesConcat | classify_mcqs.py:53-64 | lines are parsed independently, in order |
| ClassifyMcqs.ParseOneLine | classify_mcqs.py:53-64 | a single line gives its subject, or nothing when it names none |
| ClassifyMcqs.ParseLinesCount | classify_mcqs.py:53-64 | the parsed list has exactly one subject per line that names one |
| ClassifyMcqs.ParseReply | classify_mcqs.py:51-64 | every subject parsed from a reply is one of the four |
| ClassifyMcqs.Padded | classify_mcqs.py:66-68 | the parsed subjects are kept and followed by 'Unknown' up to the batch length; a longer list stays longer |
| ClassifyMcqs.PadUnknown | classify_mcqs.py:66-68 | the padding loop computes the padded list |
| ClassifyMcqs.ClassifyBatch | classify_mcqs.py:41-73 | a failed call gives one 'Unknown' per question; a reply gives its padded subjects; there are never fewer subjects than questions |
| ClassifyMcqs.Batches | classify_mcqs.py:82-83 | the batches are non-empty, all full except possibly the last, and together are the input in order |
| ClassifyMcqs.Zip | classify_mcqs.py:88-91 | pairing stops at the shorter list, and each output is the question with its subject |
| ClassifyMcqs.ZipBatches | classify_mcqs.py:82-91 | one output per input question, in order, each carrying that question and a known subject or 'Unknown' |
| ClassifyMcqs.ClassifyAll | classify_mcqs.py:75-93 | the batching loop computes the batch-wise classification |
| ClassifyMcqs.ClassifyAllShape | classify_mcqs.py:75-93 | the output has exactly one entry per input, in order, each a copy of its input question |
| App.YearSuffix | app.py:125 | the suffix is the last two digits of the year (one digit below 10) and reads back as year mod 100 |
| App.MonthTableName | app.py:122-126 | the table name starts with the lower-cased month, ends with "_mcqs", and has the year suffix between them |
| App.TableName2025 | app.py:122-126 | for a lower-case month m the 2025 name is m + "25_mcqs" |
| App.MonthTablesAgree | app.py:128-141 | the fixed table has the twelve months once each, each mapped to its computed 2025 name |
| App.MonthLookup | app.py:150 | the lookup succeeds exactly when the lower-cased month is one of the twelve, and then gives the computed name |
| App.Exam2025 | app.py:149-166 | for 2025: an unknown month gives 404 "No MCQ table configured…"; a query error gives 500 "Server error: …"; no rows give 404 "…will be updated soon"; rows are returned |
| App.GetExamMcqsAsWritten | app.py:145-173 | the route as written: 2025 behaves as above, and every other year ends in the 500 "Server error" branch |
| App.OtherYearsFailAsWritten | app.py:149-159 | for any year other than 2025 the request fails with status 500, never with the "Data for … will be updated soon" 404 |
| App.GetExamMcqs | app.py:145-168 | corrected route: 2025 as above; any other year gives 404 "Data for <month> <year> will be updated soon" |
| App.CorrectedExamRoute | app.py:153-168 | the corrected route answers 2023 and 2024 (and every other year) with the 404 message, and agrees with the written one for 2025 |
| App.GetExamMcqsOld | app.py:176-180 | the route without a year is the 2025 route |
| App.Exam2025Table | app.py:149-166 | the 2025 lookup ignores case, and an existing but empty table gives the "will be updated soon" 404 |
| App.MockItemOf | app.py:297-311 | a mock row maps to an item carrying its fields and only its non-empty options |
| App.ExistingTables | app.py:232-246 | the tables kept are exactly the listed ones whose existence check says yes; a failed check skips the table |
| App.Limit | app.py:287-288 | the query keeps a prefix of at most n rows, and all rows when there are no more than n |
| App.Collect | app.py:252-329 | the assembled test never holds more items than the sum of the subject quotas |
| App.MockTest | app.py:248-335 | no existing table gives 404 "No MCQ tables found"; otherwise the items collected from the existing tables |
| App.MockTestBounded | app.py:203-311 | a successful mock test has at most 70 + 50 + 40 + 30 = 190 items, and no item has an empty option |
| App.CollectOptions | app.py:297-314 | every collected item is the mapping of some row |
| MainPipeline.Basename | main.py:55 | the base name has no '/', ends the path, and follows its last '/'; a path without '/' is its own base name |
| MainPipeline.BasenameOfPdfPath | main.py:155-156 | the base name of "pdf_files/<name>" is the name |
| MainPipeline.SourceLabelShape | main.py:55 | the label starts with "<basename>:p" and ends with "-<chunk end>" |
| MainPipeline.SourceLabelPages | main.py:55 | after "<basename>:p" the label splits at '-' into two digit runs reading cur + 1 and the chunk end |
| MainPipeline.Chunks | main.py:27-30 | there are no chunks exactly when the start is not below the end; otherwise the first starts at the start and the last ends at the end |
| MainPipeline.ChunkWidths | main.py:29-30 | every chunk is non-empty and at most chunk_size pages wide |
| MainPipeline.ChunksConsecutive | main.py:29-71 | each chunk but the last is exactly chunk_size wide and ends where the next begins |
| MainPipeline.ChunksUnfold | main.py:29-30 | the first chunk is [cur, min(cur + size, end)) and the rest start at cur + size |
| MainPipeline.ChunksCover | main.py:27-30 | a page lies in some chunk exactly when it is in [start − 1, end) |
| MainPipeline.ChunksDisjoint | main.py:27-30 | the chunks are pairwise disjoint and in order |
| MainPipeline.TotalsWithoutSaves | main.py:42-72 | chunks that found nothing or raised add nothing to either total |
| MainPipeline.ExtractRange | main.py:18-74 | the loop returns the sums of the per-chunk saved and failed counts over exactly the chunks of the range |
| MainPipeline.RunChunks | main.py:27-72 | for any chunk stage, the totals are the saved and failed counts summed over the chunks from the start page, an empty or raising chunk adding nothing |
| MainPipeline.NonPositiveChunkNeverEnds | main.py:27-72 | with a chunk size of 0 or less and a non-empty range, the cursor stays below the end page after any number of passes |
| MainPipeline.PositiveChunkEnds | main.py:27-72 | with a positive chunk size, the cursor is below the end page before each chunk's pass and reaches it after one pass per chunk |
| MainPipeline.ValidatePdfAndPages | main.py:76-104 | a missing file is rejected; an unreadable page count is accepted; the total is returned only when start ≤ total < end; acceptance with a page count means start < end ≤ total |
| MainPipeline.ValidationOrder | main.py:88-98 | an end past the total returns the total before start ≥ end is checked; a 0 total then counts as failure |
| MainPipeline.ValidationRejects | main.py:76-104 | rejection happens exactly for a missing file, a start past the total, or start ≥ end within the total |
| MainPipeline.ParseInt | main.py:138 | `int()` succeeds exactly when the stripped text is a digit run with at most one leading sign; the value is the run's value, negated after '-' |
| MainPipeline.ParseIntRoundTrip | main.py:138-142 | every integer's decimal text parses back to it |
| MainPipeline.ParseArguments | main.py:122-144 | help exactly when the first argument is a help flag; otherwise a refusal exactly when a given number does not parse; no arguments give the defaults ("March 2025.pdf", 438, 452, 20); each argument given replaces its default by position, and each one left out keeps it |
| MainPipeline.NonPositiveChunkAccepted | main.py:141-142 | any chunk size of 0 or less, given as its decimal text, is accepted as it is |
| MainPipeline.ParseArgumentsChecked | main.py:122-144 | corrected parse: the same help and results, except that a chunk size below 1 is refused; every accepted chunk size is positive |
| MainPipeline.ParseArgumentsRoundTrip | main.py:122-144 | printing four arguments and parsing them gives them back, whatever follows |
| MainPipeline.HelpFirst | main.py:124-126 | a help flag as the first argument wins whatever follows |
| MainPipeline.PlannedRange | main.py:152-167 | the extraction runs exactly when validation returns a truthy value, over [start − 1, end) with the given chunk size |
| MainPipeline.DefaultRun | main.py:128-132 | with enough pages the default run is the single chunk [437, 452) |
| MainPipeline.AdjustmentUnused | main.py:92-94 | when validation returns a smaller page total, the run still uses the requested end page |
| Forms.Check | forms.py:9-12 | a later validator adds its message exactly when it fails |
| Forms.Chain | forms.py:8-9 | missing or blank data gives the required message alone; otherwise the later validators' messages |
| Forms.FirstLine | forms.py:26 | the part before the first newline, the only part `.*` can scan |
| Forms.UsernameErrorsAsWritten | forms.py:7-14 | the username field as written accepts exactly present 3–50 character data matching the pattern, where `$` lets one final newline through |
| Forms.NewlineUsernameAccepted | forms.py:10-13 | "ab\n" passes the written field although it is not letters, digits and underscores |
| Forms.UsernameErrors | forms.py:7-14 | corrected field: a missing, wrongly sized or wrongly drawn username gets the matching message |
| Forms.UsernameValidIff | forms.py:7-14 | the corrected field accepts exactly 3–50 letters, digits and underscores |
| Forms.UsernameCorrectedNarrower | forms.py:10-13 | whatever the corrected field accepts, the written one accepts too |
| Forms.NewlineRegistrationAccepted | forms.py:5-29 | with a valid email and password, the written form accepts the username "ab\n" and the corrected one refuses it |
| Forms.RegistrationValidIff | forms.py:5-29 | the corrected form accepts exactly a 3–50 character word username, a present, checked address of at most 100 characters, and a password the password field accepts; whatever it accepts, the written form accepts |
| Forms.EmailErrors | forms.py:16-20 | an email is accepted exactly when it is present, passes the address check and has at most 100 characters |
| Forms.PasswordErrors | forms.py:22-29 | a password is accepted exactly when it is present, has 8–128 characters and passes the class pattern |
| Forms.PasswordClassesIff | forms.py:22-29 | for a password without a newline, the field accepts exactly 8–128 characters with a lower-case letter, an upper-case letter and a digit |
| Forms.PasswordSecondLineIgnored | forms.py:26 | a digit only after a newline does not count: "Abcdefgh\n1" is refused |
| Forms.LoginUsernameErrors | forms.py:33-36 | a login name is accepted exactly when it is present with at most 100 characters |
| Forms.LoginPasswordErrors | forms.py:38-41 | a login password is accepted exactly when it is present with at most 128 characters; any failure reads "Password is required" |
| Forms.CodeErrors | forms.py:45-49 | a missing code gets "Verification code is required" alone |
| Forms.CodeValidIff | forms.py:45-49 | a code is accepted exactly when it is six digits; six digits plus a final newline is refused by the length check |
| Auth.LoginRequired | auth.py:10-16 | the guard redirects to login exactly when the session has no user id, and otherwise runs the handler unchanged |
| Auth.Register | auth.py:18-62 | a missing field is refused without creating a pending record, leaving the session as it was; the pending record changes exactly for complete, untaken details with a working lookup; the flow goes on to verification exactly when the mail is also sent; users and login are untouched |
| Auth.PendingSurvivesSending | auth.py:44-58 | the pending record {username, email, password, code} is stored whether or not the mail goes out |
| Auth.RegisterRefusesTaken | auth.py:33-39 | a username or email already in the store is refused with "Username or email already exists" and nothing changes |
| Auth.VerifyEmail | auth.py:66-107 | without a pending record: back to register; GET renders; the user store changes exactly when the pending record is cleared, and then the new verified user is added and the flow goes to login; otherwise the session is untouched |
| Auth.VerifyIffCodeMatches | auth.py:77-105 | the pending record is cleared exactly when the submitted code equals the stored one and the insert succeeds; a wrong code leaves everything unchanged with "Invalid verification code" |
| Auth.Resend | auth.py:109-133 | without a pending record nothing changes; otherwise only the code of the pending record is replaced, and the flow returns to verification |
| Auth.ResendReplacesCode | auth.py:118-122 | after a resend the name, email and password are kept, and the old code is refused |
| Auth.FindUser | auth.py:148-153 | the lookup returns a stored user with that username, and nothing exactly when none has it |
| Auth.Login | auth.py:135-170 | login succeeds exactly for present fields, a working lookup, a known user, a matching password and a verified account, and then sets the user id and username; every refusal returns to login with the session unchanged |
| Auth.LoginHidesWhichFailed | auth.py:155-166 | an unknown user and a wrong password get the same message and the same outcome |
| Auth.Logout | auth.py:174-178 | logout clears the user id and the pending record, and goes to login |
| Auth.LogoutGuards | auth.py:10-16 | after logout every guarded handler redirects to login |
| Auth.RegisterVerifyLogin | auth.py:18-172 | registering, verifying with the mailed code and logging in with the password reaches the index as that user |
| Auth.FindUserAppend | auth.py:82-91 | a user added under a new username is found by it |
| Text.StripEmptyIffBlank | frontend/src/components/MCQView.js:30 | trimming leaves nothing exactly for an all-whitespace text, and otherwise leaves no whitespace at either end |
| Text.CollapseCanonical | db_handler.py:144 | `' '.join(s.split())` has single spaces only, none at the ends, and the same non-space characters |
| Text.CollapseIdempotent | db_handler.py:144 | collapsing whitespace twice is collapsing it once |
| Text.NatToStringRoundTrip | app.py:125 | the decimal text of a number reads back as that number |
| Text.SplitJoinRoundTrip | classify_mcqs.py:51 | joining the pieces of a split with the separator gives the text back |

## Left out

- Rendering, JSX, CSS, modals, toasts and animations. Only the decisions the
  screens make are modelled: classes, visibility, labels and counts.
- The regular-expression pipelines that turn an explanation's sections into
  HTML (`formatExplanationContent`, and the vanilla copy of it). The
  renderer is a parameter of `Api.FormatExplanation`. Only the empty-input
  fallback and the no-section fallback are stated.
- The `fetch` calls, Flask routing, CSRF, cookies and mail configuration,
  the psycopg2 connections, DDL, savepoints and SQL ordering. Query and
  fetch results are inputs to the model; a failed query is a `Raised`
  case.
- `get_mcqs_by_exam_table` is not part of this model. Its result reaches
  `App.Exam2025` as the `fetch` parameter. The `/get_mcqs/<subject>`
  route is not modelled either. Its database half is `DbHandler.BySubject`.
- The order of rows in the mock test. The route shuffles them with
  `random.shuffle`, which is not modelled. `App.MockTest` returns them
  in subject order, and its properties do not depend on that order.
- The verification code's random generation, the mail send and werkzeug
  password hashing. Each is a parameter: `code`, `sending`, `hash`, `check`.
- The Flask-WTF Email validator. It is the `isEmail` parameter of
  `Forms.EmailErrors`.
- The forms themselves are not used by the auth routes, which read
  `request.form` directly. The model keeps the two apart, as the code does.
- The GET renders of register and login, and the flash categories other
  than the messages stated.
- MD5. It is an uninterpreted function parameter of
  `DbHandler.NormalizeQuestion`, so the key properties hold for any hash.
- Gemini calls and prompt prose. `generate_explanation` is not modelled.
  PyMuPDF page reading, `time.sleep`, and retries are not modelled either.
- The exam date that `insert_mcq` parses with `strptime`, and its SQL
  upsert. Only the column values it prepares are modelled.
- Printed progress, the success-rate percentages and `show_help`'s text.
  The statistics and verification printouts are not modelled either.
- `setInterval`, `setTimeout`, `Date.now`, React effects and batching, and
  `localStorage` with JSON. The clock is the `now` parameter. The stored
  snapshot is a datatype, with an unparsable payload as its own case. Each
  React handler is one state transition.
- Floating point. `Math.round(c / t * 100)` and the minute rounding are
  integer half-up division. Float rounding can differ at exact ties.
- Text.IsSpace: whitespace is the six characters space, tab, newline,
  carriage return, vertical tab and form feed, which both languages count.
  Python's `isspace`, `split()`, `strip()` and `\s` also count the
  separators U+001C to U+001F and U+0085. Both languages also count U+00A0
  and the Unicode spaces. None of these extra characters are modelled, so
  `DbHandler.CleanText` and the question key treat them as ordinary
  characters.
- Unicode. `isalnum`, `isdigit`, `\d`, `lower()` and `upper()` are their
  ASCII versions (see `Text`). Python's and JavaScript's Unicode classes
  and case mappings are wider.
- ExtractMcqs.ExtractNumber: `question_number` is modelled as a string. In
  Python, a JSON integer there makes `filter(str.isdigit, …)` raise. The
  bare `except` then gives the key infinity, so the entry sorts last. The
  model has no case for a non-string number, and neither does
  `ExtractMcqs.SortByNumberCorrect`.
- The exact text of a Python exception. In
  `App.GetExamMcqsAsWritten` it is the `unbound` parameter.
- MainPipeline.ParseInt: accepts optional surrounding whitespace and a sign
  before ASCII digits. Python's `int()` also takes underscores between
  digits and non-ASCII digits. Those are not modelled, so such text parses
  to None here.
- MainPipeline.ExtractRange: requires a positive chunk size. With any
  non-positive size and a non-empty range, the Python loop never ends. The
  cursor moves by the size on every path and never reaches the end page
  (`MainPipeline.NonPositiveChunkNeverEnds`). A negative size gives an empty
  page range, so no page is read; a size of 0 rereads the rest of the PDF on
  every pass. Those endless runs are not modelled as results.
- ClassifyMcqs.ClassifyAll: requires a positive batch size. Python's
  `range` raises for 0.
- ResultsView.CorrectAnswers: its own contract only bounds the count by the
  slot count. How it relates to the answered count is stated by the lemmas
  CorrectWithinAnswered and NullKeyInflatesScore.
- ExtractMcqs.FormatForDisplay: the contract bounds the lengths in general.
  The exact contents are stated for complete records by
  FormatCompleteRecords. A record missing its number, text or options
  raises before its entry is appended, so it adds nothing. A record missing
  only its answer gets its entry but no answer line. The function does
  both, as the code does, but no lemma states the partial cases.

## Findings

| source | as written | input that shows it | evidently intended | confidence | as-written member | corrected member |
|---|---|---|---|---|---|---|
| app.py:149-159 | `if not table_name` is indented under the route body rather than under `if year == 2025`, so for any other year `table_name` is read before assignment and the request ends in the 500 "Server error" handler | year 2024, any month | 2023/2024 and other years answer 404 "Data for <month> <year> will be updated soon" | high (not executed) | App.GetExamMcqsAsWritten, App.OtherYearsFailAsWritten | App.GetExamMcqs, App.CorrectedExamRoute |
| frontend/src/components/ResultsView.js:10-12 | the correct count compares every slot with the key, so an unanswered (null) slot of a question with a null key counts as correct | questions with keys "A" and null, answers ["A", null]: 2 correct of 1 answered, 200% | count only answered slots that match the key | high (not executed) | ResultsView.CorrectAnswers, ResultsView.NullKeyInflatesScore | ResultsView.CorrectAnswered, ResultsView.CorrectAnsweredAgrees |
| frontend/src/components/MockTest.js:70-78 | finishing calls `clearTimer`, which resets the remaining time to 4 hours, before the result card computes the time taken from it | any finish, e.g. Next at the last question with 1 hour left: shows 0 minutes | report the minutes elapsed before the timer is cleared | medium (not executed) | MockTest.FinishReportsZero | MockTest.FinishCorrected, MockTest.FinishCorrectedReportsElapsed |
| frontend/src/components/ExamWise.js:8-21 | the initial state copies the props, so the mount effect sees them as already loaded and never fetches | mount with year 2025, month "March": no load | load the selected month on mount | medium (not executed) | ExamWise.ReloadTarget, ExamWise.MountNeverLoads | ExamWise.ReloadTargetCorrected, ExamWise.CorrectedMountLoads |
| frontend/src/components/MCQView.js:121-136 | Next is shown only once the slot is answered, but a question with a blank key cannot be answered, so its screen has no way forward | a first question with no key | show Next for a question with no key, as the vanilla page does | medium (not executed) | McqView.Nav, McqView.KeylessQuestionBlocks | McqView.NavCorrected, McqView.CorrectedAlwaysProgresses |
| forms.py:10-13 | Python's `$` also matches before a final newline, so the username pattern lets one trailing "\n" through | "ab\n" | letters, digits and underscores only | medium (not executed) | Forms.UsernameErrorsAsWritten, Forms.NewlineUsernameAccepted, Forms.NewlineRegistrationAccepted | Forms.UsernameErrors, Forms.UsernameValidIff, Forms.RegistrationValidIff |
| main.py:141-142 | the chunk size is taken from `int()` with no range check, so 0 or a negative size is accepted, and the chunk loop then never ends, because its cursor moves by the size on every path | `python main.py "March 2025.pdf" 1 100 0` | refuse a chunk size below 1 | medium (not executed) | MainPipeline.NonPositiveChunkAccepted, MainPipeline.NonPositiveChunkNeverEnds | MainPipeline.ParseArgumentsChecked, MainPipeline.PositiveChunkEnds |
