/** The backend's Question document: its fields, the defaults the schema fills in and
    the validation it applies when a question is saved. */
module QuestionModel {
  import opened Wrappers

  const DefaultMarks: real := 2.0
  const DefaultNegativeMarks: real := 0.5
  const DefaultTier: string := "I"
  const DefaultSection: string := "General"

  /** The only tier labels the schema admits. */
  const TierValues: set<string> := {"I", "II"}

  /** A stored question as the backend reads it back. A field a stored document can lack
      (one written before the field existed, or by a route that bypasses the defaults) is
      an Option; a marks value that `Number(...)` turns into NaN is `None` as well. */
  datatype Question = Question(
    id: string,
    examId: string,
    text: string,
    image: Option<string>,
    options: seq<string>,
    correctAnswer: int,
    marks: Option<real>,
    negativeMarks: Option<real>,
    tier: Option<string>,
    section: Option<string>)

  /** The fields handed to `new Question({...})`, before defaults and validation;
      `None` is a field left undefined. */
  datatype Draft = Draft(
    id: string,
    examId: Option<string>,
    text: Option<string>,
    image: Option<string>,
    options: Option<seq<string>>,
    correctAnswer: Option<int>,
    marks: Option<real>,
    negativeMarks: Option<real>,
    tier: Option<string>,
    section: Option<string>)

  datatype SchemaError = Required(path: string) | NotInEnum(path: string, value: string)

  /** A required string fails on an absent value and on the empty string. */
  predicate MissingText(s: Option<string>) {
    s.None? || s.value == ""
  }

  /** Every validation failure of a draft, in schema order. `options` never fails: an
      array path defaults to the empty array, and `required` rejects only null or
      undefined. */
  function ValidationErrors(d: Draft): (errs: seq<SchemaError>)
    ensures errs == [] <==>
      && d.examId.Some? && d.examId.value != ""
      && d.text.Some? && d.text.value != ""
      && d.correctAnswer.Some?
      && (d.tier.None? || d.tier.value in TierValues)
  {
    (if MissingText(d.examId) then [Required("examId")] else [])
    + (if MissingText(d.text) then [Required("text")] else [])
    + (if d.correctAnswer.None? then [Required("correctAnswer")] else [])
    + (if d.tier.Some? && d.tier.value !in TierValues then [NotInEnum("tier", d.tier.value)] else [])
  }

  /** Saving a draft: defaults are filled in (marks 2, negativeMarks 0.5, tier "I",
      section "General", options []) and the document is validated; a saved question always
      carries every defaulted field and a tier from the enum. */
  function Create(d: Draft): (r: Result<Question, seq<SchemaError>>)
    ensures r.Failure? <==> ValidationErrors(d) != []
    ensures r.Failure? ==> r.error == ValidationErrors(d)
    ensures r.Success? ==>
      && r.value.tier.Some? && r.value.tier.value in TierValues
      && r.value.tier.value == d.tier.GetOr(DefaultTier)
      && r.value.section == Some(d.section.GetOr(DefaultSection))
      && r.value.marks == Some(d.marks.GetOr(DefaultMarks))
      && r.value.negativeMarks == Some(d.negativeMarks.GetOr(DefaultNegativeMarks))
      && Some(r.value.correctAnswer) == d.correctAnswer
      && r.value.options == d.options.GetOr([])
      && Some(r.value.text) == d.text
  {
    var errs := ValidationErrors(d);
    if errs != [] then Failure(errs)
    else
      Success(Question(
        d.id, d.examId.value, d.text.value, d.image, d.options.GetOr([]), d.correctAnswer.value,
        Some(d.marks.GetOr(DefaultMarks)),
        Some(d.negativeMarks.GetOr(DefaultNegativeMarks)),
        Some(d.tier.GetOr(DefaultTier)),
        Some(d.section.GetOr(DefaultSection))))
  }

  /** `Question.find({ examId })`: the exam's questions, in collection order. */
  function OfExam(questions: seq<Question>, examId: string): (r: seq<Question>)
    ensures |r| <= |questions|
    ensures forall q :: q in r <==> q in questions && q.examId == examId
    decreases |questions|
  {
    if questions == [] then []
    else
      var rest := OfExam(questions[..|questions| - 1], examId);
      var last := questions[|questions| - 1];
      assert questions == questions[..|questions| - 1] + [last];
      if last.examId == examId then rest + [last] else rest
  }

  /** The selection keeps collection order: selecting from two consecutive runs of the
      collection gives the two selections one after the other. */
  lemma {:induction false} OfExamKeepsOrder(a: seq<Question>, b: seq<Question>, examId: string)
    ensures OfExam(a + b, examId) == OfExam(a, examId) + OfExam(b, examId)
    decreases |b|
  {
    if b == [] {
      assert a + b == a;
    } else {
      var p := b[..|b| - 1];
      var last := b[|b| - 1];
      var tail := if last.examId == examId then [last] else [];
      OfExamKeepsOrder(a, p, examId);
      assert (a + b)[..|a + b| - 1] == a + p;
      assert (a + b)[|a + b| - 1] == last;
      assert OfExam(a + b, examId) == OfExam(a + p, examId) + tail;
      assert OfExam(b, examId) == OfExam(p, examId) + tail;
      assert OfExam(a, examId) + OfExam(p, examId) + tail == OfExam(a, examId) + (OfExam(p, examId) + tail);
    }
  }
}
