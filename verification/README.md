# Exam platform core, modelled in Dafny

The system is an online examination platform:
- Teachers create exams and author multiple-choice questions.
- Students take timed attempts in a randomised question order.
- The backend grades a submission with per-question marks and negative marking. It aggregates results overall, per tier ("I"/"II") and per section.

This project models the parts of the platform that compute something. Each is written as pure Dafny functions over immutable data, with its contracts and lemmas:

- **Grading engine.** `submitExam` covers:
  - the request checks and the answer map (a later answer for a question replaces an earlier one);
  - the three-way classification into correct, wrong and unattempted;
  - the `marks || 0` coercions and the `tier || "I"` / `section || "General"` keys;
  - the two bucket maps, the detailed results, and the score rounded with `toFixed(2)`.
- **Question schema.** Defaults, required paths and the tier enum.
- **Question routes.**
  - Authentication gate, exam lookup, and the owner / published checks.
  - Fisher–Yates shuffle of the listed questions.
  - The create handler's payload.
  - The update guard and the delete handler.
- **Student exam page.**
  - Answer ledger with toggle-to-deselect.
  - Attempted/unattempted status and clamped Previous/Next.
  - The question card's click.
  - The countdown, which fires `submitExam` once on expiry, and never for an exam without a `duration`. The post on expiry carries the answers as of the last tick.
  - The page's own shuffle.
- **Legacy exam page.**
  - An exam-wide or per-question clock that always ends the attempt.
  - Answers keyed by question id, and the string-equality score.
- **Text helpers.** The four `formatTime` helpers: two clock faces and two duration labels, with parse-back round trips.
- **Question editor.** Option list bounds, trimming and the validation messages.
- **Teacher exam pages.** The create-exam title guard, the points label and the correct-option highlight.
- **Result page.** Accuracy, percentage, total marks, the ✅/❌/⚪ review and the option marks.
- **Profile statistics.** Count, average, highest score and average accuracy.

Random numbers, the database and the clock are parameters:
- the shuffle takes its `Math.random()` draws as a sequence of reals in [0, 1);
- the handlers take the stored exams and questions as values;
- timers are one-second tick functions.

JavaScript number semantics are written out explicitly:
- `Math.floor` is a floor division.
- `%` is a truncating remainder.
- `Number(x.toFixed(2))` rounds to the nearest hundredth, with halves rounded away from zero.
- `Number(...) || d` is a default applied to a falsy value, with `None` standing for NaN or undefined.

Where the schema and the routes that use it disagree, the model follows the code:
- The Exam schema (`backend/models/Exam.js`) declares only `title`, `description` and `duration`, the last in minutes. It has no owner, no published flag and no total time in seconds, so the routes read `exam.owner` and `exam.published` as possibly absent (`QuestionRoutes.Exam.owner` is an `Option`).
- The only mounted exam-create route (`backend/routes/examRoutes.js`) sends `title`, `description`, `totalTime`, `published` and `owner`; the schema keeps only the first two, so a created exam has no `duration`, and the student page's countdown starts from NaN (`SessionClock.StartedCountdownFires`).
- The create route sends `correct` and `timeLimit`, which the Question schema does not declare. It never sends the required `correctAnswer`, so under that schema the route can never save a question (`QuestionRoutes.CreateNeverSaves`).

## Model

Some modelled handlers are unreachable in the server as shipped. `backend/server.js` mounts neither `questionRoutes.js` nor a `/responses/my` route, which the profile page requests. The student exam page also requests `/exams/{id}/questions`, but `backend/routes/examRoutes.js` has only `/` and `/:id`, so that page never gets past "Loading...". These handlers and pages are modelled as written.

| member | source | states |
|---|---|---|
| JsNumber.FloorDiv | student-frontend/src/pages/ExamPage.jsx:85 | `Math.floor(a / b)`: the largest q with q·b ≤ a |
| JsNumber.Rem | student-frontend/src/pages/ExamPage.jsx:86 | JavaScript `%`: the remainder has the sign of the dividend and lies strictly within ±b |
| JsNumber.FloorDivRemSplit | frontend/src/pages/ExamsPage.jsx:107-108 | for a non-negative count, minutes·60 + seconds gives back the count and seconds < 60 |
| JsNumber.Decimal | student-frontend/src/pages/ExamPage.jsx:87 | a whole number prints as a non-empty digit string without a leading zero |
| JsNumber.DecimalRoundTrip | student-frontend/src/pages/ExamPage.jsx:87 | the printed digits of a whole number read back as that number |
| JsNumber.Hundredths | backend/controllers/responseController.js:113 | `Number(x.toFixed(2))` is within half a hundredth of x and keeps its sign |
| JsNumber.HundredthsExact | backend/controllers/responseController.js:134 | a value already in whole hundredths is left unchanged by the rounding |
| JsNumber.HundredthsMonotone | backend/controllers/responseController.js:134 | rounding to hundredths preserves order |
| Text.Trim | frontend/src/components/QuestionForm.jsx:40-42 | `trim()` removes only whitespace and leaves no whitespace at either end |
| Text.TrimEmptyIffBlank | frontend/src/components/QuestionForm.jsx:40 | `!s.trim()` holds exactly when every character of s is whitespace |
| Text.TrimIdempotent | frontend/src/components/QuestionForm.jsx:48-50 | trimming an already trimmed value changes nothing |
| QuestionModel.ValidationErrors | backend/models/Question.js:5-17 | a draft validates exactly when examId and text are non-empty, correctAnswer is present and the tier, if given, is "I" or "II"; `options` never fails, since an absent array defaults to [] |
| QuestionModel.Create | backend/models/Question.js:4-21 | saving fails with the validation errors, or stores a question with marks 2, negativeMarks 0.5, tier "I", section "General" and options [] filled in where absent |
| QuestionModel.OfExam | backend/controllers/responseController.js:20 | `Question.find({ examId })` returns exactly the stored questions of that exam |
| QuestionModel.OfExamKeepsOrder | backend/controllers/responseController.js:20 | the exam's questions come in collection order: selecting from two consecutive runs of the collection concatenates the selections |
| Grading.AnswerMap | backend/controllers/responseController.js:36 | the answer map has an entry for exactly the submitted question ids |
| Grading.AnswerMapLastWins | backend/controllers/responseController.js:36 | for a duplicated question id the last submitted answer is kept |
| Grading.DetailFor | backend/controllers/responseController.js:91-104 | a detailed result carries the question's id, text, options and correct index, the selection, the numeric marks and bucket keys; an empty image is sent as null; `isCorrect` exactly for the correct index |
| Grading.Contribution | backend/controllers/responseController.js:58-90 | each question adds exactly one to exactly one counter, and adds its marks to the maximum |
| Grading.Grade | backend/controllers/responseController.js:39-106 | one detailed result per question in question order; correct + wrong + unattempted = number of questions |
| Grading.EarnedMarksRule | backend/controllers/responseController.js:41-90 | +marks exactly for the correct index, −negativeMarks for any other non-null selection, 0 for null/undefined or a missing answer; `isCorrect` only in the first case |
| Grading.TallyCount | backend/controllers/responseController.js:65-90 | a tally counts every question exactly once |
| Grading.OverallIsTally | backend/controllers/responseController.js:26-90 | the running totals equal the independently defined per-question tally |
| Grading.ScoreIsSumOfEarned | backend/controllers/responseController.js:71-124 | the unrounded score is the sum of the earned marks of the details, and the maximum is the separately reduced total of marks |
| Grading.BucketKeys | backend/controllers/responseController.js:47-56 | a tier or section bucket exists exactly for the keys some question carries |
| Grading.BucketsAreTallies | backend/controllers/responseController.js:51-90 | each bucket equals the tally of exactly the questions carrying its key |
| Grading.BucketCountsPartition | backend/controllers/responseController.js:65-90 | within a bucket the three counters partition its questions |
| Grading.BucketsSumToOverall | backend/controllers/responseController.js:58-90 | summing all buckets of either map gives the overall totals |
| Grading.UnknownAnswerIgnored | backend/controllers/responseController.js:36-41 | an answer whose id matches no question does not change the grading |
| Grading.GradeReadsOnlyQuestionIds | backend/controllers/responseController.js:41 | the grading depends on the answers only at the questions' ids |
| Grading.ScoreBounds | backend/controllers/responseController.js:62-90 | with non-negative marks, −Σ negativeMarks ≤ score ≤ total marks |
| Grading.CreatedQuestionKeys | backend/models/Question.js:12-20 | a saved question is graded with its schema defaults, and its tier key is always in the enum |
| ResponseController.SubmitExam | backend/controllers/responseController.js:6-139 | 400 exactly for a missing examId or non-array answers, 404 for an unknown exam or an exam without questions; otherwise the reply's counters, tier and section buckets and detailed results are the grading's, its totalMarks is the summed marks, its score is the rounded total, and the saved document agrees with it on every shared field |
| ResponseController.ReplyAgreesWithBuckets | backend/controllers/responseController.js:113-137 | the reply's totalMarks, score and question count are recovered from either bucket map |
| Shuffle.SwapPartner | backend/routes/questionRoutes.js:25 | `Math.floor(Math.random() * (i + 1))` lies in [0, i] |
| Shuffle.Swap | backend/routes/questionRoutes.js:26 | the destructuring swap exchanges positions i and j and keeps all others |
| Shuffle.LoopPermutes | backend/routes/questionRoutes.js:24-27 | the swap loop permutes its input |
| Shuffle.Shuffled | student-frontend/src/pages/ExamPage.jsx:17-24 | the shuffle is a permutation, and lists of length 0 or 1 are unchanged |
| Shuffle.ShuffleCopy | student-frontend/src/pages/ExamPage.jsx:17-24 | shuffling a copy returns a permutation of the input, equal to the reference shuffle |
| Shuffle.ShuffleInPlace | backend/routes/questionRoutes.js:23-27 | the in-place loop leaves the array equal to the reference shuffle |
| Shuffle.LastSlot | backend/routes/questionRoutes.js:24-26 | the last position receives the element the first draw picks |
| Shuffle.AnyElementCanComeLast | backend/routes/questionRoutes.js:24-26 | for every element there are draws that move it to the last position |
| QuestionRoutes.TeacherGate | backend/middleware/authMiddleware.js:1-9 | 401 without a session, 403 "Forbidden: teacher only" for a non-teacher, otherwise the user passes |
| QuestionRoutes.ListAccess | backend/routes/questionRoutes.js:11-18 | 404 exactly for a missing exam, 403 "Forbidden" exactly for a teacher who does not own it, 403 "Exam not available" exactly for a student and an unpublished exam |
| QuestionRoutes.ListQuestions | backend/routes/questionRoutes.js:10-30 | an authorised request gets a permutation of exactly the exam's questions; otherwise the access status |
| QuestionRoutes.ListedAreTheExamsQuestions | backend/routes/questionRoutes.js:21-29 | every listed question belongs to the exam, and every question of the exam is listed |
| QuestionRoutes.TimeLimitOrDefault | backend/routes/questionRoutes.js:39 | `Number(timeLimit) \|\| 30` is never 0, and is 30 exactly for NaN, 0 or 30 |
| QuestionRoutes.Payload | backend/routes/questionRoutes.js:35-39 | the create payload defaults options to [] and applies the time-limit default |
| QuestionRoutes.ToDraft | backend/routes/questionRoutes.js:39 | the schema drops `correct` and `timeLimit`, and `correctAnswer` stays absent |
| QuestionRoutes.CreateQuestion | backend/routes/questionRoutes.js:34-42 | the gate status, then 404 for an unknown exam and 403 for a non-owner; an owner's request saves the question or fails unhandled |
| QuestionRoutes.CreateNeverSaves | backend/routes/questionRoutes.js:39-40 | no create request can succeed: the missing correctAnswer is always a validation error |
| QuestionRoutes.FindQuestion | backend/routes/questionRoutes.js:46 | `findById` finds the first stored question with that id, or reports that there is none |
| QuestionRoutes.UpdateGuard | backend/routes/questionRoutes.js:45-50 | 404 for an unknown question or exam, 403 for a non-owner, otherwise the stored question |
| QuestionRoutes.UpdateAllowedIffListable | backend/routes/questionRoutes.js:45-50 | an update passes exactly for a teacher whom the list route lets read the question's exam, and returns the question with the requested id |
| QuestionRoutes.DeleteQuestion | backend/routes/questionRoutes.js:57-64 | 404 for an unknown question, a crash when its exam is missing, 403 for a non-owner, otherwise the list without that question |
| QuestionRoutes.DeleteRemovesOne | backend/routes/questionRoutes.js:62 | a delete removes exactly one copy of the question and keeps the order of the rest |
| AnswerLedger.FirstEntry | student-frontend/src/pages/ExamPage.jsx:94 | `find` returns the first entry with the id, or none when no entry has it |
| AnswerLedger.SetAll | student-frontend/src/pages/ExamPage.jsx:63-69 | the map sets the selection of every entry for the id and leaves all other entries as they were |
| AnswerLedger.HandleSelect | student-frontend/src/pages/ExamPage.jsx:58-73 | a new id appends an entry; an existing id keeps the ids and positions of all entries |
| AnswerLedger.HandleSelectToggles | student-frontend/src/pages/ExamPage.jsx:58-94 | selecting the displayed option clears it, any other option displays it, and other questions are unaffected |
| AnswerLedger.SelectTwiceClears | student-frontend/src/pages/ExamPage.jsx:58-73 | pressing an option twice from unanswered leaves the question unanswered |
| AnswerLedger.HandleSelectKeepsUnique | student-frontend/src/pages/ExamPage.jsx:58-73 | `handleSelect` never creates a second entry for a question |
| AnswerLedger.Displayed | student-frontend/src/pages/ExamPage.jsx:93-94 | the highlighted selection is null for a question without an entry, and otherwise the selection of one of its entries |
| AnswerLedger.Attempted | student-frontend/src/pages/ExamPage.jsx:96-99 | the tracker shows a question attempted exactly when the page highlights a selection for it |
| AnswerLedger.ToAnswers | student-frontend/src/pages/ExamPage.jsx:76-79 | the submitted answers keep the ledger's ids in order, with null for a cleared selection |
| AnswerLedger.ScoringSeesDisplayed | student-frontend/src/pages/ExamPage.jsx:93-99 | the backend grades the selection the page displayed, and counts a question unattempted exactly when the tracker shows it unattempted |
| AnswerLedger.Previous | student-frontend/src/pages/ExamPage.jsx:193 | `Math.max(i - 1, 0)` is never negative and steps back by one above zero |
| AnswerLedger.Next | student-frontend/src/pages/ExamPage.jsx:210 | `Math.min(i + 1, n - 1)` never passes the last question |
| AnswerLedger.HandleClick | student-frontend/src/components/QuestionCard.jsx:6-10 | the same option clears the card's selection, another one replaces it, and `onSelect` receives the new value |
| AnswerLedger.CardAgreesWithLedger | student-frontend/src/components/QuestionCard.jsx:6-10 | the card's new selection is what the page's ledger displays after the same click |
| SessionClock.StartCountdown | student-frontend/src/pages/ExamPage.jsx:32 | the countdown starts at a whole number of minutes in seconds, and at NaN exactly for an exam without a duration |
| SessionClock.CountdownTick | student-frontend/src/pages/ExamPage.jsx:42-55 | a tick decrements a running clock, and fires the submission exactly when one second is left |
| SessionClock.CountdownFiresOnce | student-frontend/src/pages/ExamPage.jsx:42-55 | from t ≥ 1 seconds, k ticks leave max(t − k, 0) seconds and submit exactly once, when k ≥ t |
| SessionClock.StoppedStaysStopped | student-frontend/src/pages/ExamPage.jsx:43 | a clock at zero or below neither moves nor fires |
| SessionClock.NaNCountdownNeverFires | student-frontend/src/pages/ExamPage.jsx:42-55 | a NaN clock stays NaN and never submits |
| SessionClock.StartedCountdownFires | student-frontend/src/pages/ExamPage.jsx:32-55 | left alone, the page submits once after duration·60 seconds for a positive duration, and never for a zero, negative or absent one |
| SessionClock.Start | frontend/src/pages/TakeExam.jsx:49-60 | starting gives a fresh, running attempt whose clock is `totalTime \|\| first timeLimit \|\| 0` |
| SessionClock.SubmitAll | frontend/src/pages/TakeExam.jsx:95-103 | submitting finishes the attempt, with a score between 0 and the number of questions |
| SessionClock.Tick | frontend/src/pages/TakeExam.jsx:69-87 | expiry submits an exam-wide clock, or moves to the next question with its time limit, or submits after the last question; otherwise one second passes |
| SessionClock.RunClock | frontend/src/pages/TakeExam.jsx:69-87 | left alone, a running attempt always finishes, scoring exactly the answers chosen so far |
| SessionClock.ChooseAnswer | frontend/src/pages/TakeExam.jsx:90-92 | choosing overwrites the answer for that question and keeps all others |
| SessionClock.PressPrevious | frontend/src/pages/TakeExam.jsx:320-322 | Previous steps back by one and is disabled on the first question |
| SessionClock.PressForward | frontend/src/pages/TakeExam.jsx:329-339 | "Next Question" advances before the last question, and "Submit Exam" on it submits |
| TimeFormat.ClockText | student-frontend/src/pages/ExamPage.jsx:84-88 | for non-negative seconds the clock ends in ':' and two digits |
| TimeFormat.PaddedClockText | frontend/src/pages/TakeExam.jsx:105-109 | the legacy clock of non-negative seconds ends in ':' and two digits |
| TimeFormat.PadStart2 | frontend/src/pages/TakeExam.jsx:108 | `padStart(2, "0")` pads with zeros on the left to at least two characters |
| TimeFormat.ClockFacesAgree | frontend/src/pages/TakeExam.jsx:105-109 | on non-negative seconds the two exam clocks print the same text |
| TimeFormat.ClockFacesDifferBelowZero | frontend/src/pages/TakeExam.jsx:105-109 | below zero they differ: "-1:0-5" against "-1:-5" |
| TimeFormat.ClockRoundTrip | student-frontend/src/pages/ExamPage.jsx:84-88 | the clock face of a non-negative count reads back as that count |
| TimeFormat.DurationText | frontend/src/pages/ManageExam.jsx:54-58 | "{m}m {s}s" from one minute up, "{s}s" below a minute |
| TimeFormat.DurationRoundTrip | frontend/src/pages/ExamsPage.jsx:107-109 | the duration label of a non-negative count reads back as that count |
| TimeFormat.ExamDurationLabel | frontend/src/pages/ExamsPage.jsx:105-110 | "Per question" exactly for an absent or zero time, otherwise the duration label |
| TimeFormat.QuestionTimeLabel | frontend/src/pages/ManageExam.jsx:223 | the question list has no special case: an absent time prints "NaNs" |
| TimeFormat.LabelsAgreeExceptZero | frontend/src/pages/ManageExam.jsx:54-58 | the two teacher labels agree on every non-zero time and differ on zero ("Per question" against "0s") |
| QuestionForm.AddOption | frontend/src/components/QuestionForm.jsx:69-73 | below six options an empty option is appended; at six nothing changes |
| QuestionForm.IsValid | frontend/src/components/QuestionForm.jsx:91 | the form is valid exactly when the text, the answer and every option are non-blank |
| QuestionForm.Reset | frontend/src/components/QuestionForm.jsx:29-37 | reset gives four empty options, no answer, 30 seconds and no question being edited |
| QuestionForm.Without | frontend/src/components/QuestionForm.jsx:77 | the filter drops exactly the option at the index, and leaves the list alone for an index out of range |
| QuestionForm.RemoveOption | frontend/src/components/QuestionForm.jsx:75-83 | above two options, removes one and clears the answer if it was that option's text |
| QuestionForm.UpdateOption | frontend/src/components/QuestionForm.jsx:85-89 | only the edited option changes |
| QuestionForm.Submit | frontend/src/components/QuestionForm.jsx:39-52 | succeeds exactly when `isValid`; the three alerts come in the form's order; the payload is trimmed |
| QuestionForm.ResetIsInvalid | frontend/src/components/QuestionForm.jsx:29-40 | a freshly reset form asks for the question text |
| QuestionForm.PayloadResubmits | frontend/src/components/QuestionForm.jsx:46-52 | a submitted payload, loaded back, submits to the same payload |
| ExamAdmin.CreateExam | frontend/src/pages/ExamsPage.jsx:50-54 | a blank title is refused with "Please enter exam title"; otherwise the untrimmed title, the numeric time and `published: false` are sent |
| ExamAdmin.CreatedExamHiddenFromStudents | backend/routes/questionRoutes.js:10-18 | a created exam, stored without owner or published flag, is refused to every student as "Exam not available" and to every teacher, its creator included, as "Forbidden" |
| ExamAdmin.ShownPoints | frontend/src/pages/ManageExam.jsx:226 | `q.points \|\| 1` shows 1 for an absent or zero value |
| ExamAdmin.PointsLabel | frontend/src/pages/ManageExam.jsx:226 | as written, the singular "point" appears exactly when the stored points are 1 |
| ExamAdmin.PointsLabelPluralOne | frontend/src/pages/ManageExam.jsx:226 | a question without points is labelled "1 points" |
| ExamAdmin.PointsLabelFixed | frontend/src/pages/ManageExam.jsx:226 | as intended, the singular appears exactly when the shown number is 1 |
| ExamAdmin.PointsLabelsAgreeOnStoredValues | frontend/src/pages/ManageExam.jsx:226 | both labels agree whenever points are stored and non-zero |
| ExamAdmin.Highlights | frontend/src/pages/ManageExam.jsx:238-259 | an option is highlighted exactly when its text equals `q.correct` |
| ExamAdmin.HighlightedIffListed | frontend/src/pages/ManageExam.jsx:238-259 | some option is highlighted exactly when the answer text is listed, and with distinct options at most one is |
| ResultPage.Accuracy | student-frontend/src/pages/ResultPage.jsx:40-42 | accuracy is 0 with nothing attempted, otherwise the rounded share of correct answers, always in [0, 100] |
| ResultPage.Percentage | student-frontend/src/pages/ResultPage.jsx:44-45 | 0 unless total marks are positive, within [0, 100] for a score between 0 and the total |
| ResultPage.Render | student-frontend/src/pages/ResultPage.jsx:32-168 | without a result only "No result data found."; otherwise attempted, the rounded accuracy, the summed detail marks, the percentage of those marks, and one icon per detail |
| ResultPage.IconOf | student-frontend/src/pages/ResultPage.jsx:164-168 | ⚪ exactly for a null or undefined selection, ✅ exactly for the correct index, ❌ for any other selection |
| ResultPage.IconAgreesWithScoring | student-frontend/src/pages/ResultPage.jsx:164-168 | ✅, ❌ and ⚪ are exactly the backend's correct, wrong and unattempted, and ✅ is exactly `isCorrect` |
| ResultPage.ReviewMatchesGrade | student-frontend/src/pages/ResultPage.jsx:162-168 | the review shows as many ✅, ❌ and ⚪ as the backend's three counters |
| ResultPage.ReviewMarksMatchGrade | student-frontend/src/pages/ResultPage.jsx:43 | the page's sum of detail marks is the backend's total of marks |
| ResultPage.ReportMatchesReply | student-frontend/src/pages/ResultPage.jsx:40-45 | for an accepted submission, the icon counts equal the reply's counters, totalMarks equals the reply's, and attempted + unattempted = totalQuestions |
| ResultPage.OptionMarks | student-frontend/src/pages/ResultPage.jsx:190-207 | no option is marked both "(Correct)" and "(Your Answer)"; "(Your Answer)" appears on one listed option exactly for a ❌ whose selection is listed |
| ProfileStats.HighestScore | student-frontend/src/pages/Profile.jsx:28 | `Math.max` is at least every score and equal to one of them |
| ProfileStats.ResultAccuracy | student-frontend/src/pages/Profile.jsx:30-32 | a response's accuracy is in [0, 100], and is 0 when nothing was attempted |
| ProfileStats.TotalAccuracy | student-frontend/src/pages/Profile.jsx:29-33 | the summed accuracies are at most 100 per response |
| ProfileStats.FetchStats | student-frontend/src/pages/Profile.jsx:25-40 | with no responses the stats stay; otherwise count, rounded average, rounded maximum, and the average accuracy within half a hundredth of the mean per-response accuracy, in [0, 100] |
| ProfileStats.AverageAtMostHighest | student-frontend/src/pages/Profile.jsx:26-37 | the shown average never exceeds the shown highest score |
| ProfileStats.PerfectAverage | student-frontend/src/pages/Profile.jsx:29-38 | responses with no wrong answers and at least one correct show an average accuracy of exactly 100 |

## Left out

- Floating point: marks, scores and accuracies are exact reals. Binary rounding error in the running sums and in `toFixed` is not modelled.
- ResponseController.SubmitExam: a null element in `answers` is not expressible. The model's answer list holds only answer records, but the source accepts `answers: [null]`: it passes the `Array.isArray` test at lines 10-11 of `backend/controllers/responseController.js`. For an existing exam with questions, line 36 then throws a TypeError on `a.questionId`, and the catch at lines 140-143 replies 500 "Error during exam submission".
- The 500 replies of `submitExam` that come from database failures, and the invalid-id (cast) errors of the database lookups, are not modelled: I/O failures are outside the model.
- Authentication beyond the middleware (sessions, passport, JWT) is not part of this model. The user is a parameter.
- The uniform distribution of the shuffle is not stated; only the permutation property and the reachability of every last element are proved.
- The one-shot property of the page's shuffle is not modelled: both shuffles run once per fetch, and re-rendering is outside the model.
- The `Object.assign` merge of the update route is not modelled, because the merged fields are arbitrary request data. `UpdateGuard` covers its guards.
- `getMyResponses` is left out: it is a database query with `populate`.
- `QuestionForm`'s `editQuestion` loading effect (lines 19-27 of `frontend/src/components/QuestionForm.jsx`) is left out because it copies props into state.
- `toString` of numbers in exponent notation, and of non-integers, is not modelled: the clocks and labels take whole seconds.
- The page can post twice: the manual "Submit Exam" button (`student-frontend/src/pages/ExamPage.jsx:202`) and expiry both call `submitExam`, and `submitted` is set only after the request returns. The countdown is modelled alone, with `submitted` false while it runs.
- SessionClock.CountdownTick: the post made on expiry carries the ledger as of the last tick, not the current one. The timer effect depends only on `[submitted, timeLeft]` (`student-frontend/src/pages/ExamPage.jsx:42-55`). So the interval that expires calls the `submitExam` closure of the render in which `timeLeft` became 1, and that closure holds that render's `answers` (lines 75-79). Options chosen or cleared during the final second are missing from the automatic submission. `AnswerLedger.ScoringSeesDisplayed` holds for the ledger that is posted, which on this path can lag the displayed one. The model does not say which ledger the expiry posts.
- Buckets are a Dafny map. The source keeps them in plain objects and tests `!sectionScores[sectionKey]`, so a free-text section named after an inherited property ("constructor", "toString", "__proto__") finds a truthy value, gets no bucket of its own, and is missing from the reply; there `Grading.BucketKeys` and `Grading.BucketsSumToOverall` fail for the source. Tier keys are confined to the enum and are not affected.
- SessionClock.Tick: a `timeLimit` is a whole number. An absent `timeLimit`, which would make the legacy clock NaN, is not modelled.
- QuestionForm.UpdateOption: requires an index within the option list. The page only calls it from the rendered option inputs.
- ExamAdmin.CreateExam: `totalTime` is given as the number `Number(...)` yields. Parsing the field's text is not modelled.
- ResultPage.Accuracy: the value is the number that `toFixed(2)` denotes. The string type of the shown value (against the number 0 in the other branch) is not modelled.

## Findings

| source | as written | input that shows it | evidently intended | confidence | as-written member | corrected member |
|---|---|---|---|---|---|---|
| frontend/src/pages/ManageExam.jsx:226 | the plural `s` is chosen on the stored `q.points` while the number shown is `q.points \|\| 1` | a question without `points` (the Question schema has no such path) is labelled "1 points" | the singular exactly when the shown number is 1 | medium, not executed | ExamAdmin.PointsLabel (counterexample: ExamAdmin.PointsLabelPluralOne) | ExamAdmin.PointsLabelFixed |
