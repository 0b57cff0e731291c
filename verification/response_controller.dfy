/** The `submitExam` request handler: request validation, the three rejection paths,
    grading, and the Response record it persists next to the payload it returns. */
module ResponseController {
  import opened Wrappers
  import opened QuestionModel
  import opened Grading
  import JsNumber

  /** The `answers` field of the request body: an array, or some other JSON value. */
  datatype AnswersField = AnswerArray(items: seq<Answer>) | NotAnArray

  /** The request body; an absent `timeTakenSeconds` defaults to null (`None`). */
  datatype SubmitRequest = SubmitRequest(examId: Option<string>, answers: AnswersField, timeTakenSeconds: Option<real>)

  /** What the handler reads from the database: the ids of the stored exams and the
      question collection. */
  datatype Store = Store(exams: set<string>, questions: seq<Question>)

  /** The persisted Response document. */
  datatype ResponseDoc = ResponseDoc(
    examId: string,
    studentId: Option<string>,
    answers: seq<Answer>,
    score: real,
    correctCount: nat,
    wrongCount: nat,
    unattempted: nat,
    tierScores: map<string, Bucket>,
    sectionScores: map<string, Bucket>,
    timeTakenSeconds: Option<real>)

  /** The JSON body of the 200 reply. */
  datatype SubmitBody = SubmitBody(
    examId: string,
    totalQuestions: nat,
    totalMarks: real,
    correctCount: nat,
    wrongCount: nat,
    unattempted: nat,
    score: real,
    tierScores: map<string, Bucket>,
    sectionScores: map<string, Bucket>,
    detailedResults: seq<Detail>,
    timeTakenSeconds: Option<real>)

  /** Either an error status (nothing is persisted) or the saved document with the reply. */
  datatype Reply = Rejected(status: nat, error: string) | Accepted(saved: ResponseDoc, body: SubmitBody)

  /** `!examId || !Array.isArray(answers)` */
  predicate Malformed(req: SubmitRequest) {
    req.examId.None? || req.examId.value == "" || req.answers.NotAnArray?
  }

  /** Handles one submission. `studentId` is `req.user?.id`, absent for an
      unauthenticated caller. */
  function SubmitExam(req: SubmitRequest, store: Store, studentId: Option<string>): (r: Reply)
    ensures r.Rejected? ==> r.status == 400 || r.status == 404
    ensures (r.Rejected? && r.status == 400) <==> Malformed(req)
    ensures (r.Rejected? && r.error == "Exam not found") <==> !Malformed(req) && req.examId.value !in store.exams
    ensures (r.Rejected? && r.error == "No questions found for this exam") <==>
      !Malformed(req) && req.examId.value in store.exams && OfExam(store.questions, req.examId.value) == []
    ensures r.Accepted? ==>
      var qs := OfExam(store.questions, req.examId.value);
      var g := Grade(qs, AnswerMap(req.answers.items));
      && r.saved.score == r.body.score == JsNumber.Hundredths(g.overall.score)
      && r.saved.examId == r.body.examId == req.examId.value
      && r.saved.answers == req.answers.items
      && r.saved.studentId == studentId
      && r.body.totalQuestions == |qs| == |r.body.detailedResults|
      && r.saved.correctCount == r.body.correctCount
      && r.saved.wrongCount == r.body.wrongCount
      && r.saved.unattempted == r.body.unattempted
      && r.body.correctCount == g.overall.correct
      && r.body.wrongCount == g.overall.wrong
      && r.body.unattempted == g.overall.unattempted
      && r.body.correctCount + r.body.wrongCount + r.body.unattempted == r.body.totalQuestions
      && r.body.tierScores == g.tierScores
      && r.body.sectionScores == g.sectionScores
      && r.body.detailedResults == g.details
      && r.body.totalMarks == SumMarks(qs)
      && r.saved.tierScores == r.body.tierScores
      && r.saved.sectionScores == r.body.sectionScores
      && r.saved.timeTakenSeconds == r.body.timeTakenSeconds == req.timeTakenSeconds
  {
    if Malformed(req) then Rejected(400, "Invalid request data")
    else
      var examId := req.examId.value;
      if examId !in store.exams then Rejected(404, "Exam not found")
      else
        var qs := OfExam(store.questions, examId);
        if qs == [] then Rejected(404, "No questions found for this exam")
        else
          var g := Grade(qs, AnswerMap(req.answers.items));
          var score := JsNumber.Hundredths(g.overall.score);
          var doc := ResponseDoc(examId, studentId, req.answers.items, score,
                                 g.overall.correct, g.overall.wrong, g.overall.unattempted,
                                 g.tierScores, g.sectionScores, req.timeTakenSeconds);
          var body := SubmitBody(examId, |qs|, SumMarks(qs),
                                 g.overall.correct, g.overall.wrong, g.overall.unattempted,
                                 score, g.tierScores, g.sectionScores, g.details, req.timeTakenSeconds);
          Accepted(doc, body)
  }

  /** The reply's total marks is the sum of every bucket's maximum marks, in either
      bucket map, and its score is the bucket score total rounded to hundredths. */
  lemma ReplyAgreesWithBuckets(req: SubmitRequest, store: Store, studentId: Option<string>, d: Dimension)
    requires SubmitExam(req, store, studentId).Accepted?
    ensures var r := SubmitExam(req, store, studentId);
      var buckets := if d == ByTier then r.body.tierScores else r.body.sectionScores;
      && SumBuckets(buckets).totalMarks == r.body.totalMarks
      && JsNumber.Hundredths(SumBuckets(buckets).score) == r.body.score
      && SumBuckets(buckets).Count() == r.body.totalQuestions
  {
    var qs := OfExam(store.questions, req.examId.value);
    var ans := AnswerMap(req.answers.items);
    BucketsSumToOverall(qs, ans, d);
    ScoreIsSumOfEarned(qs, ans);
    assert Grade(qs, ans).Buckets(d) == if d == ByTier then Grade(qs, ans).tierScores else Grade(qs, ans).sectionScores;
  }
}
