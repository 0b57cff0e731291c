/** The teacher pages around an exam: the exam list's create form (title guard and
    request body) and the exam manager's per-question points label and correct-option
    highlighting. */
module ExamAdmin {
  import opened Wrappers
  import opened Text
  import QuestionRoutes

  /** The create form. `totalTime` is the value `Number(...)` reads from its field;
      `None` stands for NaN. */
  datatype ExamForm = ExamForm(title: string, description: string, totalTime: Option<real>)

  /** The body posted to `/exams`. */
  datatype ExamPayload = ExamPayload(title: string, description: string, totalTime: Option<real>, published: bool)

  /** `create()`: a blank title is refused with an alert; otherwise the title goes out
      as typed (untrimmed), the time as a number, and the exam unpublished. */
  function CreateExam(f: ExamForm): (r: Result<ExamPayload, string>)
    ensures r.Failure? <==> IsBlank(f.title)
    ensures r.Failure? ==> r.error == "Please enter exam title"
    ensures r.Success? ==>
      && r.value.title == f.title && r.value.description == f.description
      && r.value.totalTime == f.totalTime && !r.value.published
  {
    TrimEmptyIffBlank(f.title);
    if Trim(f.title) == "" then Failure("Please enter exam title")
    else Success(ExamPayload(f.title, f.description, f.totalTime, false))
  }

  /** What the Exam schema keeps of a created exam: it declares neither `owner` nor
      `published`, so both are dropped on save and read back as undefined. A student's
      request for its questions gets 403 "Exam not available", and a teacher's, its
      creator's included, gets 403 "Forbidden", since `String(undefined)` is
      "undefined" and matches no real user id. */
  lemma CreatedExamHiddenFromStudents(f: ExamForm, examId: string, teacher: string, student: string)
    requires !IsBlank(f.title)
    ensures !CreateExam(f).value.published
    ensures var exams := map[examId := QuestionRoutes.Exam(None, false)];
      && QuestionRoutes.ListAccess(exams, examId, QuestionRoutes.User(student, QuestionRoutes.Student))
         == QuestionRoutes.Status(403, "Exam not available")
      && ((QuestionRoutes.ListAccess(exams, examId, QuestionRoutes.User(teacher, QuestionRoutes.Teacher))
           == QuestionRoutes.Status(403, "Forbidden")) <==> teacher != "undefined")
  {
  }

  /** A question's stored points: `None` is undefined, null or NaN. */
  type Points = Option<real>

  /** The number the label shows: `q.points || 1`, so a falsy value reads as 1. */
  function ShownPoints(p: Points): (n: real)
    ensures p.None? || p == Some(0.0) ==> n == 1.0
    ensures p.Some? && p.value != 0.0 ==> n == p.value
  {
    if p.None? || p.value == 0.0 then 1.0 else p.value
  }

  /** The label as written: `point` plus an `s` whenever `q.points !== 1`. The plural
      is decided on the stored value, not on the shown one. */
  function PointsLabel(p: Points): (r: (real, string))
    ensures r.0 == ShownPoints(p)
    ensures r.1 == "point" <==> p == Some(1.0)
  {
    (ShownPoints(p), if p != Some(1.0) then "points" else "point")
  }

  /** A question without points is labelled "1 points". */
  lemma PointsLabelPluralOne()
    ensures PointsLabel(None) == (1.0, "points")
    ensures PointsLabel(Some(0.0)) == (1.0, "points")
  {
  }

  /** The label as intended: the singular exactly when the shown number is 1. */
  function PointsLabelFixed(p: Points): (r: (real, string))
    ensures r.0 == ShownPoints(p)
    ensures r.1 == "point" <==> r.0 == 1.0
    ensures r.1 == "point" || r.1 == "points"
  {
    var n := ShownPoints(p);
    (n, if n != 1.0 then "points" else "point")
  }

  /** The two labels agree except where the stored value is falsy. */
  lemma PointsLabelsAgreeOnStoredValues(p: Points)
    requires p.Some? && p.value != 0.0
    ensures PointsLabel(p) == PointsLabelFixed(p)
  {
  }

  /** `opt === q.correct`: an option is highlighted (green border, filled letter and the
      "Correct Answer" badge) exactly when its text is the stored answer text. */
  function Highlights(options: seq<string>, correct: string): (h: seq<bool>)
    ensures |h| == |options|
    ensures forall i :: 0 <= i < |options| ==> (h[i] <==> options[i] == correct)
  {
    seq(|options|, i requires 0 <= i < |options| => options[i] == correct)
  }

  /** The options hold no two equal texts. */
  predicate Distinct(options: seq<string>) {
    forall i, j :: 0 <= i < j < |options| ==> options[i] != options[j]
  }

  /** Some option is highlighted exactly when the answer text is one of the options;
      with distinct options at most one is. */
  lemma HighlightedIffListed(options: seq<string>, correct: string)
    ensures (exists i :: 0 <= i < |options| && Highlights(options, correct)[i]) <==> correct in options
    ensures Distinct(options) ==>
      forall i, j ::
        (0 <= i < |options| && 0 <= j < |options| &&
         Highlights(options, correct)[i] && Highlights(options, correct)[j]) ==> i == j
  {
    var h := Highlights(options, correct);
    if correct in options {
      var k :| 0 <= k < |options| && options[k] == correct;
      assert h[k];
    }
  }
}
