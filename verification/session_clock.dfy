/** The two exam clocks as discrete tick functions. The student exam page counts an
    exam-wide duration down once a second and submits when it runs out; the legacy
    exam page either counts an exam-wide `totalTime` down or gives each question its
    own `timeLimit`, moving on when it expires and submitting after the last one. It
    also keeps the legacy answers (option strings by question id) and scores them. */
module SessionClock {
  import opened Wrappers

  /** The exam page's countdown: seconds left, `None` standing for NaN, and whether the
      page has submitted. */
  datatype Countdown = Countdown(timeLeft: Option<int>, submitted: bool)

  /** `setTimeLeft(e.duration * 60)`: the duration is in minutes. An exam without a
      `duration` (`None`) gives `undefined * 60`, which is NaN. */
  function StartCountdown(duration: Option<int>): (c: Countdown)
    ensures !c.submitted
    ensures c.timeLeft.None? <==> duration.None?
    ensures duration.Some? ==> c.timeLeft.value / 60 == duration.value && c.timeLeft.value % 60 == 0
  {
    if duration.None? then Countdown(None, false) else Countdown(Some(duration.value * 60), false)
  }

  /** One second of the exam page's timer: nothing runs once submitted or at zero;
      from one second or less the clock drops to 0 and the submission fires. A NaN
      clock passes the `timeLeft <= 0` guard, so the timer runs, but `prev <= 1` is
      false and NaN - 1 is NaN again: it never changes and never fires. The second
      component says whether `submitExam` was called. */
  function CountdownTick(c: Countdown): (r: (Countdown, bool))
    ensures r.0.submitted == c.submitted
    ensures r.1 <==> !c.submitted && c.timeLeft == Some(1)
    ensures c.submitted || c.timeLeft.None? || c.timeLeft.value <= 0 ==> r.0 == c
    ensures !c.submitted && c.timeLeft.Some? && c.timeLeft.value > 0 ==> r.0.timeLeft == Some(c.timeLeft.value - 1)
  {
    if c.submitted then (c, false)
    else match c.timeLeft
      case None => (c, false)
      case Some(t) =>
        if t <= 0 then (c, false)
        else if t <= 1 then (c.(timeLeft := Some(0)), true)
        else (c.(timeLeft := Some(t - 1)), false)
  }

  /** k seconds of the countdown: the final clock and how many submissions fired.
      The page's `submitted` flag is set only after the request returns, so it stays
      false while the clock runs. */
  function RunCountdown(t: Option<int>, k: nat): (r: (Option<int>, nat))
    decreases k
  {
    if k == 0 then (t, 0)
    else
      var step := CountdownTick(Countdown(t, false));
      var rest := RunCountdown(step.0.timeLeft, k - 1);
      (rest.0, rest.1 + if step.1 then 1 else 0)
  }

  /** From t seconds, k ticks leave max(t - k, 0) seconds, and the submission fires
      exactly once, on the tick that reaches zero, if and only if k >= t. */
  lemma {:induction false} CountdownFiresOnce(t: nat, k: nat)
    requires t >= 1
    ensures RunCountdown(Some(t), k).0 == Some(if k >= t then 0 else t - k)
    ensures RunCountdown(Some(t), k).1 == if k >= t then 1 else 0
    decreases k
  {
    if k > 0 {
      if t == 1 {
        StoppedStaysStopped(0, k - 1);
      } else {
        CountdownFiresOnce(t - 1, k - 1);
      }
    }
  }

  /** At zero or below the countdown neither moves nor fires. */
  lemma {:induction false} StoppedStaysStopped(t: int, k: nat)
    requires t <= 0
    ensures RunCountdown(Some(t), k) == (Some(t), 0)
    decreases k
  {
    if k > 0 {
      StoppedStaysStopped(t, k - 1);
    }
  }

  /** A NaN clock stays NaN and never fires: the page never submits on its own. */
  lemma {:induction false} NaNCountdownNeverFires(k: nat)
    ensures RunCountdown(None, k) == (None, 0)
    decreases k
  {
    if k > 0 {
      NaNCountdownNeverFires(k - 1);
    }
  }

  /** Left alone from its start, the exam page submits exactly once, after duration·60
      ticks, when the exam has a positive duration; it never submits by itself for a
      zero or negative duration or for an exam without one. */
  lemma StartedCountdownFires(duration: Option<int>, k: nat)
    ensures RunCountdown(StartCountdown(duration).timeLeft, k).1 ==
      if duration.Some? && duration.value >= 1 && k >= duration.value * 60 then 1 else 0
  {
    match duration
    case None => NaNCountdownNeverFires(k);
    case Some(d) =>
      if d >= 1 {
        CountdownFiresOnce(d * 60, k);
      } else {
        StoppedStaysStopped(d * 60, k);
      }
  }

  /** A legacy question: options are strings, the right answer is the option text. */
  datatype LegacyQuestion = LegacyQuestion(id: string, options: seq<string>, correct: string, timeLimit: int)

  /** A legacy exam; an absent `totalTime` reads as 0. */
  datatype LegacyExam = LegacyExam(id: string, totalTime: int)

  /** The legacy exam page's state. */
  datatype Session = Session(
    selected: Option<LegacyExam>,
    questions: seq<LegacyQuestion>,
    idx: nat,
    timeLeft: int,
    answers: map<string, string>,
    finished: bool,
    score: nat,
    started: bool)

  /** The index points at a question, or is 0 for an exam without questions. */
  predicate Valid(s: Session) {
    if s.questions == [] then s.idx == 0 else s.idx < |s.questions|
  }

  /** The clock runs only for a selected, started and unfinished exam. */
  predicate Active(s: Session) {
    s.selected.Some? && !s.finished && s.started
  }

  /** `selected.totalTime && selected.totalTime > 0` */
  predicate ExamWide(s: Session) {
    s.selected.Some? && s.selected.value.totalTime > 0
  }

  /** `exam.totalTime || res.data[0]?.timeLimit || 0` */
  function InitialTime(exam: LegacyExam, qs: seq<LegacyQuestion>): (t: int)
    ensures exam.totalTime != 0 ==> t == exam.totalTime
    ensures exam.totalTime == 0 && qs != [] ==> t == qs[0].timeLimit
    ensures exam.totalTime == 0 && qs == [] ==> t == 0
  {
    if exam.totalTime != 0 then exam.totalTime
    else if qs != [] && qs[0].timeLimit != 0 then qs[0].timeLimit
    else 0
  }

  /** `start(exam)` after the questions arrive: a fresh attempt. */
  function Start(exam: LegacyExam, qs: seq<LegacyQuestion>): (s: Session)
    ensures Valid(s) && Active(s)
    ensures s.answers == map[] && s.idx == 0 && s.score == 0
    ensures s.timeLeft == InitialTime(exam, qs)
  {
    Session(Some(exam), qs, 0, InitialTime(exam, qs), map[], false, 0, true)
  }

  /** Whether a legacy answer scores: truthy (non-empty) and equal to `q.correct`. */
  predicate Scores(q: LegacyQuestion, answers: map<string, string>) {
    q.id in answers && answers[q.id] != "" && answers[q.id] == q.correct
  }

  /** `submitAll`'s count of correct answers. */
  function LegacyScore(qs: seq<LegacyQuestion>, answers: map<string, string>): (n: nat)
    ensures n <= |qs|
    ensures n == |qs| <==> forall k :: 0 <= k < |qs| ==> Scores(qs[k], answers)
    ensures n == 0 <==> forall k :: 0 <= k < |qs| ==> !Scores(qs[k], answers)
    decreases |qs|
  {
    if qs == [] then 0
    else
      var rest := LegacyScore(qs[1..], answers);
      assert forall k :: 1 <= k < |qs| ==> qs[k] == qs[1..][k - 1];
      (if Scores(qs[0], answers) then 1 else 0) + rest
  }

  /** A question whose `correct` text is empty can never score. */
  lemma EmptyCorrectNeverScores(qs: seq<LegacyQuestion>, answers: map<string, string>)
    requires forall k :: 0 <= k < |qs| ==> qs[k].correct == ""
    ensures LegacyScore(qs, answers) == 0
  {
  }

  /** `submitAll`: score the answers and close the attempt. */
  function SubmitAll(s: Session): (r: Session)
    ensures r.finished && !r.started
    ensures r.score == LegacyScore(s.questions, s.answers) && r.score <= |s.questions|
    ensures r.answers == s.answers && r.questions == s.questions && r.idx == s.idx
  {
    s.(score := LegacyScore(s.questions, s.answers), finished := true, started := false)
  }

  /** One run of the timer effect. At zero or below, an exam-wide clock submits, and a
      per-question clock moves to the next question with that question's time limit,
      or submits after the last question. Otherwise one second passes. */
  function Tick(s: Session): (r: Session)
    requires Valid(s)
    ensures Valid(r)
    ensures !Active(s) ==> r == s
    ensures r.answers == s.answers && r.questions == s.questions
    ensures Active(s) && s.timeLeft > 0 ==> r == s.(timeLeft := s.timeLeft - 1)
    ensures Active(s) && s.timeLeft <= 0 && ExamWide(s) ==> r == SubmitAll(s)
    ensures Active(s) && s.timeLeft <= 0 && !ExamWide(s) ==>
      if s.idx + 1 < |s.questions|
      then !r.finished && r.idx == s.idx + 1 && r.timeLeft == s.questions[s.idx + 1].timeLimit
      else r == SubmitAll(s)
  {
    if !Active(s) then s
    else if s.timeLeft <= 0 then
      if ExamWide(s) then SubmitAll(s)
      else if s.idx + 1 < |s.questions| then
        s.(idx := s.idx + 1, timeLeft := s.questions[s.idx + 1].timeLimit)
      else SubmitAll(s)
    else s.(timeLeft := s.timeLeft - 1)
  }

  /** `chooseAnswer(qId, opt)`: overwrite the answer for qId, nothing else. */
  function ChooseAnswer(answers: map<string, string>, qId: string, opt: string): (r: map<string, string>)
    ensures qId in r && r[qId] == opt
    ensures r.Keys == answers.Keys + {qId}
    ensures forall k :: k in answers && k != qId ==> r[k] == answers[k]
  {
    answers[qId := opt]
  }

  /** Choosing is not a toggle: choosing the same option again changes nothing, and
      of two choices for a question only the later one counts. */
  lemma ChooseOverwrites(answers: map<string, string>, qId: string, a: string, b: string)
    ensures ChooseAnswer(ChooseAnswer(answers, qId, a), qId, a) == ChooseAnswer(answers, qId, a)
    ensures ChooseAnswer(ChooseAnswer(answers, qId, a), qId, b) == ChooseAnswer(answers, qId, b)
  {
  }

  /** The Previous button, disabled on the first question. */
  function PressPrevious(s: Session): (r: Session)
    ensures Valid(s) ==> Valid(r)
    ensures r.timeLeft == s.timeLeft && r.answers == s.answers
    ensures s.idx > 0 ==> r.idx == s.idx - 1
    ensures s.idx == 0 ==> r == s
  {
    if s.idx == 0 then s else s.(idx := s.idx - 1)
  }

  /** The right-hand button: "Next Question" before the last question, "Submit Exam"
      on it. */
  function PressForward(s: Session): (r: Session)
    ensures Valid(s) ==> Valid(r)
    ensures r.answers == s.answers && r.timeLeft == s.timeLeft
    ensures s.idx + 1 < |s.questions| ==> r == s.(idx := s.idx + 1)
    ensures s.idx + 1 >= |s.questions| ==> r == SubmitAll(s)
  {
    if s.idx + 1 < |s.questions| then s.(idx := s.idx + 1) else SubmitAll(s)
  }

  /** Moving forward and back returns to the same question with the clock untouched. */
  lemma ForwardThenBack(s: Session)
    requires Valid(s) && s.idx + 1 < |s.questions|
    ensures PressPrevious(PressForward(s)) == s
  {
  }

  /** Left alone, the timer always ends the attempt: it submits exactly the answers
      chosen so far and the session finishes with their score. */
  function RunClock(s: Session): (r: Session)
    requires Valid(s)
    ensures Valid(r) && !Active(r)
    ensures r.answers == s.answers && r.questions == s.questions
    ensures Active(s) ==> r.finished && r.score == LegacyScore(s.questions, s.answers)
    decreases if Active(s) then 1 else 0, |s.questions| - s.idx, if s.timeLeft > 0 then s.timeLeft else 0
  {
    if !Active(s) then s
    else
      var t := Tick(s);
      if !Active(t) then t else RunClock(t)
  }
}
