/** The student's result page: the summary figures it derives from the reply of
    `/responses/submit` (attempted, accuracy, total marks, percentage) and the per
    question review with its icon and its "(Correct)" / "(Your Answer)" marks. */
module ResultPage {
  import opened Wrappers
  import opened JsNumber
  import opened QuestionModel
  import opened Grading
  import opened ResponseController

  /** The icon next to a reviewed question: ⚪ (`Blank`), ✅ (`Tick`) or ❌ (`Cross`). */
  datatype Icon = Blank | Tick | Cross

  /** The figures above the review. */
  datatype Summary = Summary(attempted: nat, accuracy: real, totalMarks: real, percentage: real)

  /** Without a result only the error line is shown. */
  datatype View = NoResult(message: string) | Report(summary: Summary, icons: seq<Icon>)

  /** `attempted > 0 ? ((correct / attempted) * 100).toFixed(2) : 0`, read as a number. */
  function Accuracy(correct: nat, wrong: nat): (r: real)
    ensures 0.0 <= r <= 100.0
    ensures correct + wrong == 0 ==> r == 0.0
    ensures correct + wrong > 0 ==>
      -0.005 <= r - correct as real / (correct + wrong) as real * 100.0 <= 0.005
    ensures correct + wrong > 0 && wrong == 0 ==> r == 100.0
    ensures correct == 0 ==> r == 0.0
  {
    var attempted := correct + wrong;
    if attempted > 0 then
      RatioRounding(correct as real, attempted as real);
      Hundredths(correct as real / attempted as real * 100.0)
    else 0.0
  }

  /** The rounded percentage of a part of a positive whole: within [0, 100] when the
      part is, exactly 100 for the whole and exactly 0 for nothing. */
  lemma RatioRounding(part: real, whole: real)
    requires whole > 0.0
    ensures 0.0 <= part <= whole ==> 0.0 <= Hundredths(part / whole * 100.0) <= 100.0
    ensures part == whole ==> Hundredths(part / whole * 100.0) == 100.0
    ensures part == 0.0 ==> Hundredths(part / whole * 100.0) == 0.0
  {
    var x := part / whole * 100.0;
    if 0.0 <= part <= whole {
      QuotientAtMost(part, whole, 1.0);
      HundredthsWithin(x, 0, 10000);
    }
    if part == whole {
      assert x == 10000 as real / 100.0;
      HundredthsExact(10000);
    }
    if part == 0.0 {
      assert x == 0 as real / 100.0;
      HundredthsExact(0);
    }
  }

  /** `detailedResults.reduce((sum, q) => sum + q.marks, 0)` */
  function DetailMarks(ds: seq<Detail>): real
    decreases |ds|
  {
    if ds == [] then 0.0 else DetailMarks(ds[..|ds| - 1]) + ds[|ds| - 1].marks
  }

  /** `totalMarks > 0 ? ((score / totalMarks) * 100).toFixed(2) : 0`, read as a number. */
  function Percentage(score: real, totalMarks: real): (r: real)
    ensures totalMarks <= 0.0 ==> r == 0.0
    ensures totalMarks > 0.0 ==> -0.005 <= r - score / totalMarks * 100.0 <= 0.005
    ensures totalMarks > 0.0 && 0.0 <= score <= totalMarks ==> 0.0 <= r <= 100.0
    ensures totalMarks > 0.0 && score < 0.0 ==> r <= 0.0
  {
    if totalMarks > 0.0 then
      RatioRounding(score, totalMarks);
      Hundredths(score / totalMarks * 100.0)
    else 0.0
  }

  /** The review icon: ⚪ when `selected` is null or undefined, otherwise ✅ when it is
      strictly equal to `correctAnswer` and ❌ when not. */
  function IconOf(d: Detail): (ic: Icon)
    ensures ic == Blank <==> d.selected.Null? || d.selected.Undefined?
    ensures ic == Tick <==> d.selected.Number? && d.selected.n == d.correctAnswer
    ensures ic == Cross <==> d.selected.NonNumeric? || (d.selected.Number? && d.selected.n != d.correctAnswer)
  {
    if d.selected == Null || d.selected == Undefined then Blank
    else if d.selected == Number(d.correctAnswer) then Tick
    else Cross
  }

  /** The summary and the icons of a result, or the error line without one. */
  function Render(result: Option<SubmitBody>): (v: View)
    ensures v.NoResult? <==> result.None?
    ensures v.NoResult? ==> v.message == "No result data found."
    ensures v.Report? ==>
      && v.summary.attempted == result.value.correctCount + result.value.wrongCount
      && v.summary.accuracy == Accuracy(result.value.correctCount, result.value.wrongCount)
      && 0.0 <= v.summary.accuracy <= 100.0
      && v.summary.totalMarks == DetailMarks(result.value.detailedResults)
      && v.summary.percentage == Percentage(result.value.score, v.summary.totalMarks)
      && |v.icons| == |result.value.detailedResults|
      && forall i :: 0 <= i < |v.icons| ==> v.icons[i] == IconOf(result.value.detailedResults[i])
  {
    match result
    case None => NoResult("No result data found.")
    case Some(b) =>
      var total := DetailMarks(b.detailedResults);
      Report(Summary(b.correctCount + b.wrongCount, Accuracy(b.correctCount, b.wrongCount),
                     total, Percentage(b.score, total)),
             seq(|b.detailedResults|, i requires 0 <= i < |b.detailedResults| => IconOf(b.detailedResults[i])))
  }

  /** The icon the page draws is the backend's own verdict on that question: ✅ exactly
      for a correct answer (the detail's `isCorrect`), ❌ for a wrong one and ⚪ for an
      unattempted one. */
  lemma IconAgreesWithScoring(q: Question, sel: Selected)
    ensures var d := DetailFor(q, sel);
      && (IconOf(d) == Tick <==> d.isCorrect)
      && (IconOf(d) == Tick <==> Classify(sel, q.correctAnswer) == Correct)
      && (IconOf(d) == Cross <==> Classify(sel, q.correctAnswer) == Wrong)
      && (IconOf(d) == Blank <==> Classify(sel, q.correctAnswer) == Unattempted)
  {
  }

  /** How many of the details carry icon ic. */
  function CountIcons(ds: seq<Detail>, ic: Icon): nat
    decreases |ds|
  {
    if ds == [] then 0
    else CountIcons(ds[..|ds| - 1], ic) + if IconOf(ds[|ds| - 1]) == ic then 1 else 0
  }

  /** The backend's counter that corresponds to an icon. */
  function Counter(b: Bucket, ic: Icon): nat {
    match ic
    case Tick => b.correct
    case Cross => b.wrong
    case Blank => b.unattempted
  }

  lemma CountIconsAppend(ds: seq<Detail>, d: Detail, ic: Icon)
    ensures CountIcons(ds + [d], ic) == CountIcons(ds, ic) + if IconOf(d) == ic then 1 else 0
  {
    assert (ds + [d])[..|ds|] == ds;
  }

  /** Grading one more question keeps the icon count in step with its counter. */
  lemma StepKeepsCount(g: Grading, q: Question, ans: map<string, Selected>, ic: Icon)
    requires CountIcons(g.details, ic) == Counter(g.overall, ic)
    ensures CountIcons(Step(g, q, ans).details, ic) == Counter(Step(g, q, ans).overall, ic)
  {
    var sel := SelectionFor(q, ans);
    CountIconsAppend(g.details, DetailFor(q, sel), ic);
    IconAgreesWithScoring(q, sel);
  }

  /** The page's per-question review adds up to the backend's counters: as many ✅ as
      correct answers, ❌ as wrong ones and ⚪ as unattempted ones. */
  lemma {:induction false} ReviewMatchesGrade(qs: seq<Question>, ans: map<string, Selected>, ic: Icon)
    ensures CountIcons(Grade(qs, ans).details, ic) == Counter(Grade(qs, ans).overall, ic)
    decreases |qs|
  {
    if qs != [] {
      var p := qs[..|qs| - 1];
      ReviewMatchesGrade(p, ans, ic);
      StepKeepsCount(Grade(p, ans), qs[|qs| - 1], ans, ic);
    }
  }

  /** The page's total marks is the backend's sum of marks. */
  lemma {:induction false} ReviewMarksMatchGrade(qs: seq<Question>, ans: map<string, Selected>)
    ensures DetailMarks(Grade(qs, ans).details) == SumMarks(qs)
    decreases |qs|
  {
    if qs != [] {
      var p := qs[..|qs| - 1];
      ReviewMarksMatchGrade(p, ans);
      var ds := Grade(qs, ans).details;
      assert ds[..|ds| - 1] == Grade(p, ans).details;
    }
  }

  /** On an accepted submission the page agrees with the reply: its ✅, ❌ and ⚪ counts
      are the reply's correct, wrong and unattempted counts, its total marks is the
      reply's `totalMarks`, and its percentage is taken of that total. */
  lemma ReportMatchesReply(req: SubmitRequest, store: Store, studentId: Option<string>)
    requires SubmitExam(req, store, studentId).Accepted?
    ensures var b := SubmitExam(req, store, studentId).body;
      var v := Render(Some(b));
      && CountIcons(b.detailedResults, Tick) == b.correctCount
      && CountIcons(b.detailedResults, Cross) == b.wrongCount
      && CountIcons(b.detailedResults, Blank) == b.unattempted
      && v.summary.totalMarks == b.totalMarks
      && v.summary.percentage == Percentage(b.score, b.totalMarks)
      && v.summary.attempted + b.unattempted == b.totalQuestions
  {
    var qs := OfExam(store.questions, req.examId.value);
    ReviewMatchesGrade(qs, AnswerMap(req.answers.items), Tick);
    ReviewMatchesGrade(qs, AnswerMap(req.answers.items), Cross);
    ReviewMatchesGrade(qs, AnswerMap(req.answers.items), Blank);
    ReviewMarksMatchGrade(qs, AnswerMap(req.answers.items));
  }

  /** "(Correct)" follows the option at `correctAnswer`. */
  predicate MarkedCorrect(d: Detail, idx: nat) {
    idx == d.correctAnswer
  }

  /** "(Your Answer)" follows the selected option when it is not the correct one. */
  predicate MarkedYourAnswer(d: Detail, idx: nat) {
    Number(idx) == d.selected && idx != d.correctAnswer
  }

  /** No option carries both marks; "(Your Answer)" appears on some option exactly when
      the question is marked ❌ and its selection is one of the listed options, and then
      only on that option; "(Correct)" appears on exactly the correct option when that
      index is listed. */
  lemma OptionMarks(d: Detail)
    ensures forall idx: nat :: !(MarkedCorrect(d, idx) && MarkedYourAnswer(d, idx))
    ensures (exists idx: nat :: idx < |d.options| && MarkedYourAnswer(d, idx)) <==>
      IconOf(d) == Cross && d.selected.Number? && 0 <= d.selected.n < |d.options|
    ensures forall idx: nat, jdx: nat :: MarkedYourAnswer(d, idx) && MarkedYourAnswer(d, jdx) ==> idx == jdx
    ensures forall idx: nat :: MarkedCorrect(d, idx) <==> idx as int == d.correctAnswer
  {
    if IconOf(d) == Cross && d.selected.Number? && 0 <= d.selected.n < |d.options| {
      var n: nat := d.selected.n;
      assert MarkedYourAnswer(d, n);
    }
  }
}
