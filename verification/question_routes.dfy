/** The question routes of the backend: the randomised question list of an exam with
    its access rules, and the owner-guarded create, update and delete handlers. The
    database is passed in as values: a map from exam id to exam, and the question
    collection in storage order. */
module QuestionRoutes {
  import opened Wrappers
  import opened QuestionModel
  import opened Shuffle

  datatype Role = Teacher | Student | OtherRole(name: string)

  /** The authenticated user the session attaches to the request. */
  datatype User = User(id: string, role: Role)

  /** An exam as the routes read it. The Exam schema declares neither `owner` nor
      `published`, so a stored exam can lack both; a missing `published` reads as false. */
  datatype Exam = Exam(owner: Option<string>, published: bool)

  /** A handler's outcome: a JSON body, an error status with its message, or a promise
      rejection the handler does not catch (no reply is written). */
  datatype Reply<T> = Ok(body: T) | Status(code: nat, message: string) | Unhandled

  /** `String(exam.owner)`: an absent owner prints as "undefined". */
  function OwnerText(e: Exam): string {
    e.owner.GetOr("undefined")
  }

  /** `String(exam.owner) !== String(req.user._id)` */
  predicate NotOwner(e: Exam, u: User) {
    OwnerText(e) != u.id
  }

  /** The `ensureAuthenticated` and `ensureTeacher` middleware in front of the
      create, update and delete handlers. */
  function TeacherGate(user: Option<User>): (r: Reply<User>)
    ensures r.Ok? <==> user.Some? && user.value.role == Teacher
    ensures r.Ok? ==> r.body == user.value
    ensures r == Status(401, "Unauthorized") <==> user.None?
    ensures r.Status? && r.code == 403 <==> user.Some? && user.value.role != Teacher
  {
    if user.None? then Status(401, "Unauthorized")
    else if user.value.role != Teacher then Status(403, "Forbidden: teacher only")
    else Ok(user.value)
  }

  /** The access rules of the question list, in the order the handler applies them. */
  function ListAccess(exams: map<string, Exam>, examId: string, u: User): (r: Reply<Exam>)
    ensures r.Ok? <==>
      (examId in exams
       && !(u.role == Teacher && NotOwner(exams[examId], u))
       && !(u.role == Student && !exams[examId].published))
    ensures r == Status(404, "Exam not found") <==> examId !in exams
    ensures r == Status(403, "Forbidden") <==>
      examId in exams && u.role == Teacher && NotOwner(exams[examId], u)
    ensures r == Status(403, "Exam not available") <==>
      examId in exams && u.role == Student && !exams[examId].published
    ensures !r.Unhandled?
  {
    if examId !in exams then Status(404, "Exam not found")
    else
      var e := exams[examId];
      if u.role == Teacher && NotOwner(e, u) then Status(403, "Forbidden")
      else if u.role == Student && !e.published then Status(403, "Exam not available")
      else Ok(e)
  }

  /** GET `/exam/:examId`: the exam's questions in the order the draws shuffle them. An
      unauthenticated request gets 401 before anything is read. */
  function ListQuestions(exams: map<string, Exam>, questions: seq<Question>, examId: string,
                         user: Option<User>, draws: seq<real>): (r: Reply<seq<Question>>)
    requires ValidDraws(draws) && |questions| <= |draws| + 1
    ensures r == Status(401, "Unauthorized") <==> user.None?
    ensures r.Ok? <==> user.Some? && ListAccess(exams, examId, user.value).Ok?
    ensures user.Some? && r.Status? ==>
      var a := ListAccess(exams, examId, user.value); a.Status? && r.code == a.code && r.message == a.message
    ensures r.Ok? ==> r.body == Shuffled(OfExam(questions, examId), draws)
    ensures r.Ok? ==> multiset(r.body) == multiset(OfExam(questions, examId))
    ensures !r.Unhandled?
  {
    if user.None? then Status(401, "Unauthorized")
    else
      var access := ListAccess(exams, examId, user.value);
      if !access.Ok? then Status(access.code, access.message)
      else Ok(Shuffled(OfExam(questions, examId), draws))
  }

  /** What the list route hands back is exactly the exam's questions: every returned
      question belongs to the exam, every question of the exam is returned, and none
      is repeated or lost. */
  lemma ListedAreTheExamsQuestions(exams: map<string, Exam>, questions: seq<Question>, examId: string,
                                   user: Option<User>, draws: seq<real>)
    requires ValidDraws(draws) && |questions| <= |draws| + 1
    requires ListQuestions(exams, questions, examId, user, draws).Ok?
    ensures var listed := ListQuestions(exams, questions, examId, user, draws).body;
      && |listed| == |OfExam(questions, examId)|
      && (forall q :: q in listed <==> q in questions && q.examId == examId)
  {
    var listed := ListQuestions(exams, questions, examId, user, draws).body;
    var mine := OfExam(questions, examId);
    assert multiset(listed) == multiset(mine);
    forall q
      ensures q in listed <==> q in mine
    {
      assert q in listed <==> q in multiset(listed);
      assert q in mine <==> q in multiset(mine);
    }
  }

  /** The create body's fields, as `req.body` supplies them. `timeLimit` is the result of
      `Number(timeLimit)`; `None` stands for NaN (an absent or non-numeric value). */
  datatype CreateBody = CreateBody(
    examId: Option<string>,
    text: Option<string>,
    options: Option<seq<string>>,
    correct: Option<string>,
    timeLimit: Option<real>)

  /** The object the create handler passes to `new Question(...)`. */
  datatype CreatePayload = CreatePayload(
    examId: Option<string>,
    text: Option<string>,
    options: seq<string>,
    correct: Option<string>,
    timeLimit: real)

  /** `Number(timeLimit) || 30`: zero and NaN are falsy and give 30. */
  function TimeLimitOrDefault(t: Option<real>): (r: real)
    ensures r != 0.0
    ensures r == 30.0 <==> t.None? || t.value == 0.0 || t.value == 30.0
    ensures t.Some? && t.value != 0.0 ==> r == t.value
  {
    if t.None? || t.value == 0.0 then 30.0 else t.value
  }

  function Payload(b: CreateBody): (p: CreatePayload)
    ensures p.options == b.options.GetOr([])
    ensures p.timeLimit == TimeLimitOrDefault(b.timeLimit)
    ensures p.examId == b.examId && p.text == b.text && p.correct == b.correct
  {
    CreatePayload(b.examId, b.text, b.options.GetOr([]), b.correct, TimeLimitOrDefault(b.timeLimit))
  }

  /** The schema keeps only the paths it declares: `correct` and `timeLimit` are dropped
      and `correctAnswer`, which the payload does not carry, stays undefined. */
  function ToDraft(id: string, p: CreatePayload): (d: Draft)
    ensures d.correctAnswer.None?
    ensures d.examId == p.examId && d.text == p.text && d.options == Some(p.options)
    ensures d.marks.None? && d.negativeMarks.None? && d.tier.None? && d.section.None?
  {
    Draft(id, p.examId, p.text, None, Some(p.options), None, None, None, None, None)
  }

  /** POST `/`: gate, exam lookup, owner check, then save. A failed save rejects the
      handler's promise, which nothing catches. `newId` is the id the database assigns. */
  function CreateQuestion(exams: map<string, Exam>, user: Option<User>, body: CreateBody, newId: string): (r: Reply<Question>)
    ensures TeacherGate(user).Status? ==> r == Status(TeacherGate(user).code, TeacherGate(user).message)
    ensures TeacherGate(user).Ok? ==>
      (r == Status(404, "Exam not found") <==> body.examId.None? || body.examId.value !in exams)
    ensures r == Status(403, "Forbidden") <==>
      TeacherGate(user).Ok? && body.examId.Some? && body.examId.value in exams
      && NotOwner(exams[body.examId.value], user.value)
    ensures r.Ok? ==>
      (Create(ToDraft(newId, Payload(body))).Success? && r.body == Create(ToDraft(newId, Payload(body))).value)
    ensures r.Unhandled? <==>
      TeacherGate(user).Ok? && body.examId.Some? && body.examId.value in exams
      && !NotOwner(exams[body.examId.value], user.value)
      && Create(ToDraft(newId, Payload(body))).Failure?
  {
    var gate := TeacherGate(user);
    if gate.Status? then Status(gate.code, gate.message)
    else if body.examId.None? || body.examId.value !in exams then Status(404, "Exam not found")
    else if NotOwner(exams[body.examId.value], gate.body) then Status(403, "Forbidden")
    else
      match Create(ToDraft(newId, Payload(body)))
      case Success(q) => Ok(q)
      case Failure(_) => Unhandled
  }

  /** Against the Question schema, the create route never saves: the payload it builds
      never carries the required `correctAnswer`, so every request that passes the
      guards ends in an unhandled validation failure. */
  lemma CreateNeverSaves(exams: map<string, Exam>, user: Option<User>, body: CreateBody, newId: string)
    ensures !CreateQuestion(exams, user, body, newId).Ok?
    ensures Required("correctAnswer") in ValidationErrors(ToDraft(newId, Payload(body)))
  {
    var errs := ValidationErrors(ToDraft(newId, Payload(body)));
    assert errs != [];
  }

  /** `Question.findById(id)`: the position of the first stored question with that id. */
  function FindQuestion(questions: seq<Question>, id: string): (r: Option<nat>)
    ensures r.Some? ==> r.value < |questions| && questions[r.value].id == id
    ensures r.Some? ==> forall k :: 0 <= k < r.value ==> questions[k].id != id
    ensures r.None? <==> forall k :: 0 <= k < |questions| ==> questions[k].id != id
    decreases |questions|
  {
    if questions == [] then None
    else if questions[0].id == id then Some(0)
    else
      var rest := FindQuestion(questions[1..], id);
      if rest.Some? then Some(rest.value + 1) else None
  }

  /** The guards of PUT `/:id`: question lookup, exam lookup, owner check. On success the
      body is the stored question the request body is merged into. */
  function UpdateGuard(exams: map<string, Exam>, questions: seq<Question>, user: Option<User>, id: string): (r: Reply<Question>)
    ensures TeacherGate(user).Status? ==> r == Status(TeacherGate(user).code, TeacherGate(user).message)
    ensures TeacherGate(user).Ok? ==>
      (r == Status(404, "Question not found") <==> FindQuestion(questions, id).None?)
    ensures TeacherGate(user).Ok? && FindQuestion(questions, id).Some? ==>
      var q := questions[FindQuestion(questions, id).value];
      && (r == Status(404, "Exam not found") <==> q.examId !in exams)
      && (r == Status(403, "Forbidden") <==> q.examId in exams && NotOwner(exams[q.examId], user.value))
      && (r.Ok? <==> q.examId in exams && !NotOwner(exams[q.examId], user.value))
      && (r.Ok? ==> r.body == q)
    ensures !r.Unhandled?
  {
    var gate := TeacherGate(user);
    if gate.Status? then Status(gate.code, gate.message)
    else
      var k := FindQuestion(questions, id);
      if k.None? then Status(404, "Question not found")
      else
        var q := questions[k.value];
        if q.examId !in exams then Status(404, "Exam not found")
        else if NotOwner(exams[q.examId], gate.body) then Status(403, "Forbidden")
        else Ok(q)
  }

  /** The update guard and the list route judge ownership alike: an update of a stored
      question passes exactly for a signed-in teacher whom the list route lets read that
      question's exam, and it hands back the question with the requested id. */
  lemma UpdateAllowedIffListable(exams: map<string, Exam>, questions: seq<Question>, user: Option<User>, id: string)
    ensures UpdateGuard(exams, questions, user, id).Ok? <==>
      && user.Some? && user.value.role == Teacher
      && FindQuestion(questions, id).Some?
      && ListAccess(exams, questions[FindQuestion(questions, id).value].examId, user.value).Ok?
    ensures UpdateGuard(exams, questions, user, id).Ok? ==> UpdateGuard(exams, questions, user, id).body.id == id
  {
  }

  /** DELETE `/:id`: removes the question and answers "Question deleted". The handler
      does not check that the question's exam exists; reading the owner of a missing
      exam throws, which is the `Unhandled` outcome. */
  function DeleteQuestion(exams: map<string, Exam>, questions: seq<Question>, user: Option<User>, id: string):
    (r: Reply<seq<Question>>)
    ensures TeacherGate(user).Status? ==> r == Status(TeacherGate(user).code, TeacherGate(user).message)
    ensures TeacherGate(user).Ok? ==>
      (r == Status(404, "Question not found") <==> FindQuestion(questions, id).None?)
    ensures TeacherGate(user).Ok? && FindQuestion(questions, id).Some? ==>
      var k := FindQuestion(questions, id).value;
      && (r.Unhandled? <==> questions[k].examId !in exams)
      && (r == Status(403, "Forbidden") <==>
            questions[k].examId in exams && NotOwner(exams[questions[k].examId], user.value))
      && (r.Ok? ==> r.body == questions[..k] + questions[k + 1..])
    ensures r.Ok? ==> |r.body| == |questions| - 1
  {
    var gate := TeacherGate(user);
    if gate.Status? then Status(gate.code, gate.message)
    else
      var k := FindQuestion(questions, id);
      if k.None? then Status(404, "Question not found")
      else
        var q := questions[k.value];
        if q.examId !in exams then Unhandled
        else if NotOwner(exams[q.examId], gate.body) then Status(403, "Forbidden")
        else Ok(questions[..k.value] + questions[k.value + 1..])
  }

  /** A successful delete removes exactly one stored copy of the question and keeps the
      order of everything else. */
  lemma DeleteRemovesOne(exams: map<string, Exam>, questions: seq<Question>, user: Option<User>, id: string)
    requires DeleteQuestion(exams, questions, user, id).Ok?
    ensures var k := FindQuestion(questions, id).value;
      var rest := DeleteQuestion(exams, questions, user, id).body;
      && multiset(rest) + multiset{questions[k]} == multiset(questions)
      && (forall i :: 0 <= i < k ==> rest[i] == questions[i])
      && (forall i :: k <= i < |rest| ==> rest[i] == questions[i + 1])
  {
    var k := FindQuestion(questions, id).value;
    assert questions == questions[..k] + [questions[k]] + questions[k + 1..];
  }
}
