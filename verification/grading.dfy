/** The grading engine of `submitExam`: one pass over the exam's questions in order,
    classifying each against the submitted answers and rolling the result up into
    overall totals and two keyed bucket maps (by tier and by section). */
module Grading {
  import opened Wrappers
  import opened QuestionModel

  /** The `selected` field of a submitted answer as the JSON body delivers it. Any
      value that is neither null, undefined nor a number is `NonNumeric`; it is never
      strictly equal to a numeric option index. */
  datatype Selected = Null | Undefined | Number(n: int) | NonNumeric

  datatype Answer = Answer(questionId: string, selected: Selected)

  /** `new Map(answers.map(a => [a.questionId, a.selected]))`: the answers are inserted
      in order, so a later answer for a question replaces an earlier one. */
  function AnswerMap(answers: seq<Answer>): (m: map<string, Selected>)
    ensures forall id :: id in m <==> exists i :: 0 <= i < |answers| && answers[i].questionId == id
    decreases |answers|
  {
    if answers == [] then map[]
    else
      var last := answers[|answers| - 1];
      var prefix := answers[..|answers| - 1];
      var m := AnswerMap(prefix)[last.questionId := last.selected];
      assert forall i :: 0 <= i < |prefix| ==> prefix[i] == answers[i];
      m
  }

  /** For duplicate question ids the last answer wins. */
  lemma {:induction false} AnswerMapLastWins(answers: seq<Answer>, i: nat)
    requires i < |answers|
    requires forall j :: i < j < |answers| ==> answers[j].questionId != answers[i].questionId
    ensures AnswerMap(answers)[answers[i].questionId] == answers[i].selected
    decreases |answers|
  {
    if i < |answers| - 1 {
      var prefix := answers[..|answers| - 1];
      assert prefix[i] == answers[i];
      AnswerMapLastWins(prefix, i);
    }
  }

  datatype Outcome = Correct | Wrong | Unattempted

  /** The three-way split: no selection, the correct index, anything else. */
  function Classify(sel: Selected, correctAnswer: int): Outcome {
    if sel == Null || sel == Undefined then Unattempted
    else if sel == Number(correctAnswer) then Correct
    else Wrong
  }

  /** `ansMap.has(id) ? ansMap.get(id) : null` */
  function SelectionFor(q: Question, ans: map<string, Selected>): Selected {
    if q.id in ans then ans[q.id] else Null
  }

  /** `Number(q.marks) || 0`: an absent or non-numeric value counts as 0. */
  function Marks(q: Question): real {
    q.marks.GetOr(0.0)
  }

  /** `Number(q.negativeMarks) || 0` */
  function NegativeMarks(q: Question): real {
    q.negativeMarks.GetOr(0.0)
  }

  /** `q.tier || "I"`: an absent or empty tier falls back to "I". */
  function TierKey(q: Question): string {
    if q.tier.Some? && q.tier.value != "" then q.tier.value else DefaultTier
  }

  /** `q.section || "General"` */
  function SectionKey(q: Question): string {
    if q.section.Some? && q.section.value != "" then q.section.value else DefaultSection
  }

  /** The two independent bucket keys a question is aggregated under. */
  datatype Dimension = ByTier | BySection

  function KeyOf(d: Dimension, q: Question): string {
    match d
    case ByTier => TierKey(q)
    case BySection => SectionKey(q)
  }

  function EarnedMarks(q: Question, o: Outcome): real {
    match o
    case Correct => Marks(q)
    case Wrong => -NegativeMarks(q)
    case Unattempted => 0.0
  }

  /** One aggregate: the running score, the maximum attainable marks and the
      correct/wrong/unattempted counters. The overall totals have the same shape. */
  datatype Bucket = Bucket(score: real, totalMarks: real, correct: nat, wrong: nat, unattempted: nat) {

    function Plus(other: Bucket): Bucket {
      Bucket(score + other.score, totalMarks + other.totalMarks,
             correct + other.correct, wrong + other.wrong, unattempted + other.unattempted)
    }

    /** How many questions the aggregate has seen. */
    function Count(): nat {
      correct + wrong + unattempted
    }
  }

  const Zero: Bucket := Bucket(0.0, 0.0, 0, 0, 0)

  lemma ZeroPlus(b: Bucket)
    ensures Zero.Plus(b) == b
  {
  }

  lemma PlusExchange(a: Bucket, b: Bucket, c: Bucket)
    ensures a.Plus(b.Plus(c)) == b.Plus(a.Plus(c))
    ensures a.Plus(b).Plus(c) == a.Plus(c.Plus(b))
  {
  }

  /** What one question adds to each aggregate it belongs to. */
  function Contribution(q: Question, sel: Selected): (c: Bucket)
    ensures c.Count() == 1
    ensures c.totalMarks == Marks(q)
  {
    var o := Classify(sel, q.correctAnswer);
    Bucket(EarnedMarks(q, o), Marks(q),
           if o == Correct then 1 else 0,
           if o == Wrong then 1 else 0,
           if o == Unattempted then 1 else 0)
  }

  /** One entry of `detailedResults`. */
  datatype Detail = Detail(
    questionId: string,
    question: string,
    image: Option<string>,
    options: seq<string>,
    correctAnswer: int,
    selected: Selected,
    marks: real,
    negativeMarks: real,
    tier: string,
    section: string,
    earnedMarks: real,
    isCorrect: bool)

  /** The detailed result of one question: its stored fields, with `q.image || null`
      sending an empty image as null, the selection, the numeric marks, the bucket keys
      and the outcome. */
  function DetailFor(q: Question, sel: Selected): (d: Detail)
    ensures d.questionId == q.id && d.question == q.text && d.options == q.options
    ensures d.correctAnswer == q.correctAnswer && d.selected == sel
    ensures d.image.None? <==> q.image.None? || q.image == Some("")
    ensures d.image.Some? ==> d.image == q.image
    ensures d.tier == TierKey(q) && d.section == SectionKey(q)
    ensures d.marks == Marks(q) && d.negativeMarks == NegativeMarks(q)
    ensures d.isCorrect <==> sel == Number(q.correctAnswer)
  {
    var o := Classify(sel, q.correctAnswer);
    var image := if q.image == Some("") then None else q.image;
    Detail(q.id, q.text, image, q.options, q.correctAnswer, sel, Marks(q), NegativeMarks(q),
           TierKey(q), SectionKey(q), EarnedMarks(q, o), o == Correct)
  }

  datatype Grading = Grading(
    overall: Bucket,
    tierScores: map<string, Bucket>,
    sectionScores: map<string, Bucket>,
    details: seq<Detail>)
  {
    function Buckets(d: Dimension): map<string, Bucket> {
      match d
      case ByTier => tierScores
      case BySection => sectionScores
    }
  }

  /** Create the bucket with zeros when it is missing, then add the contribution. */
  function AddTo(m: map<string, Bucket>, k: string, c: Bucket): map<string, Bucket> {
    m[k := (if k in m then m[k] else Zero).Plus(c)]
  }

  /** The loop body of `questions.map(...)`: fold one more question into the totals. */
  function Step(g: Grading, q: Question, ans: map<string, Selected>): Grading {
    var sel := SelectionFor(q, ans);
    var c := Contribution(q, sel);
    Grading(g.overall.Plus(c),
            AddTo(g.tierScores, TierKey(q), c),
            AddTo(g.sectionScores, SectionKey(q), c),
            g.details + [DetailFor(q, sel)])
  }

  /** The whole pass over the questions, in question order. There is one detail per
      question, in the same order, and the counters partition the questions. */
  function Grade(qs: seq<Question>, ans: map<string, Selected>): (g: Grading)
    ensures |g.details| == |qs|
    ensures forall i :: 0 <= i < |qs| ==> g.details[i] == DetailFor(qs[i], SelectionFor(qs[i], ans))
    ensures g.overall.correct + g.overall.wrong + g.overall.unattempted == |qs|
    decreases |qs|
  {
    if qs == [] then Grading(Zero, map[], map[], [])
    else Step(Grade(qs[..|qs| - 1], ans), qs[|qs| - 1], ans)
  }

  /** The per-question rule: +marks exactly when the selection is the correct index,
      -negativeMarks when a non-null selection differs from it, 0 when there is no
      selection (an unanswered question reads as null); `isCorrect` only in the first case. */
  lemma EarnedMarksRule(qs: seq<Question>, ans: map<string, Selected>, i: nat)
    requires i < |qs|
    ensures var d := Grade(qs, ans).details[i];
      var sel := SelectionFor(qs[i], ans);
      && (qs[i].id !in ans ==> d.selected == Null)
      && (d.isCorrect <==> sel == Number(qs[i].correctAnswer))
      && (sel == Number(qs[i].correctAnswer) ==> d.earnedMarks == Marks(qs[i]))
      && (sel != Null && sel != Undefined && sel != Number(qs[i].correctAnswer) ==> d.earnedMarks == -NegativeMarks(qs[i]))
      && (sel == Null || sel == Undefined ==> d.earnedMarks == 0.0)
  {
  }

  // ---------------------------------------------------------------------------
  // Reference definitions: the totals as plain sums over the question list.

  /** The sum of each question's contribution, from the front of the list. */
  function Tally(qs: seq<Question>, ans: map<string, Selected>): Bucket
    decreases |qs|
  {
    if qs == [] then Zero
    else Contribution(qs[0], SelectionFor(qs[0], ans)).Plus(Tally(qs[1..], ans))
  }

  /** Every question is counted exactly once in a tally. */
  lemma {:induction false} TallyCount(qs: seq<Question>, ans: map<string, Selected>)
    ensures Tally(qs, ans).Count() == |qs|
    decreases |qs|
  {
    if qs != [] {
      TallyCount(qs[1..], ans);
    }
  }

  lemma {:induction false} TallyAppend(qs: seq<Question>, q: Question, ans: map<string, Selected>)
    ensures Tally(qs + [q], ans) == Tally(qs, ans).Plus(Contribution(q, SelectionFor(q, ans)))
    decreases |qs|
  {
    if qs != [] {
      assert (qs + [q])[1..] == qs[1..] + [q];
      TallyAppend(qs[1..], q, ans);
    }
  }

  /** The running overall totals are the tally of all the questions. */
  lemma {:induction false} OverallIsTally(qs: seq<Question>, ans: map<string, Selected>)
    ensures Grade(qs, ans).overall == Tally(qs, ans)
    decreases |qs|
  {
    if qs != [] {
      var p := qs[..|qs| - 1];
      OverallIsTally(p, ans);
      TallyAppend(p, qs[|qs| - 1], ans);
      assert p + [qs[|qs| - 1]] == qs;
    }
  }

  /** Σ earnedMarks over a list of details. */
  function SumEarned(ds: seq<Detail>): real
    decreases |ds|
  {
    if ds == [] then 0.0 else SumEarned(ds[..|ds| - 1]) + ds[|ds| - 1].earnedMarks
  }

  /** `questions.reduce((s, q) => s + (Number(q.marks) || 0), 0)` */
  function SumMarks(qs: seq<Question>): real
    decreases |qs|
  {
    if qs == [] then 0.0 else SumMarks(qs[..|qs| - 1]) + Marks(qs[|qs| - 1])
  }

  /** The unrounded score is the sum of the per-question earned marks, and the overall
      maximum is the separately reduced total of the marks. */
  lemma {:induction false} ScoreIsSumOfEarned(qs: seq<Question>, ans: map<string, Selected>)
    ensures Grade(qs, ans).overall.score == SumEarned(Grade(qs, ans).details)
    ensures Grade(qs, ans).overall.totalMarks == SumMarks(qs)
    decreases |qs|
  {
    if qs != [] {
      var p := qs[..|qs| - 1];
      ScoreIsSumOfEarned(p, ans);
      var ds := Grade(qs, ans).details;
      assert ds[..|ds| - 1] == Grade(p, ans).details;
    }
  }

  // ---------------------------------------------------------------------------
  // Buckets.

  /** The questions aggregated under key k, in question order. */
  function Select(qs: seq<Question>, d: Dimension, k: string): (s: seq<Question>)
    ensures |s| <= |qs|
    ensures forall i :: 0 <= i < |s| ==> KeyOf(d, s[i]) == k
    decreases |qs|
  {
    if qs == [] then []
    else
      var rest := Select(qs[..|qs| - 1], d, k);
      if KeyOf(d, qs[|qs| - 1]) == k then rest + [qs[|qs| - 1]] else rest
  }

  /** A bucket exists exactly for the keys some question carries. */
  lemma {:induction false} BucketKeys(qs: seq<Question>, ans: map<string, Selected>, d: Dimension)
    ensures forall k :: k in Grade(qs, ans).Buckets(d) <==> exists i :: 0 <= i < |qs| && KeyOf(d, qs[i]) == k
    decreases |qs|
  {
    if qs != [] {
      var p := qs[..|qs| - 1];
      var q := qs[|qs| - 1];
      BucketKeys(p, ans, d);
      StepBucketKeys(Grade(p, ans), q, ans, d);
      forall k ensures k in Grade(qs, ans).Buckets(d) <==> exists i :: 0 <= i < |qs| && KeyOf(d, qs[i]) == k {
        CarriesSnoc(qs, d, k);
      }
    }
  }

  /** Grading one more question adds its key to the bucket keys, and nothing else. */
  lemma StepBucketKeys(g: Grading, q: Question, ans: map<string, Selected>, d: Dimension)
    ensures Step(g, q, ans).Buckets(d).Keys == g.Buckets(d).Keys + {KeyOf(d, q)}
  {
  }

  /** Some question of the list carries key k. */
  predicate Carries(qs: seq<Question>, d: Dimension, k: string) {
    exists i :: 0 <= i < |qs| && KeyOf(d, qs[i]) == k
  }

  /** A non-empty list carries key k when its front part or its last question does. */
  lemma CarriesSnoc(qs: seq<Question>, d: Dimension, k: string)
    requires qs != []
    ensures Carries(qs, d, k) <==> Carries(qs[..|qs| - 1], d, k) || KeyOf(d, qs[|qs| - 1]) == k
  {
    var p := qs[..|qs| - 1];
    if Carries(p, d, k) {
      var i :| 0 <= i < |p| && KeyOf(d, p[i]) == k;
      assert qs[i] == p[i];
    }
    if Carries(qs, d, k) {
      var i :| 0 <= i < |qs| && KeyOf(d, qs[i]) == k;
      if i < |p| {
        assert p[i] == qs[i];
      }
    }
  }

  /** Each bucket is the tally of the questions carrying its key: its score, its
      maximum marks and its correct/wrong/unattempted counters are those of that
      sub-list alone. */
  lemma {:induction false} BucketsAreTallies(qs: seq<Question>, ans: map<string, Selected>, d: Dimension)
    ensures forall k :: k in Grade(qs, ans).Buckets(d) ==> Grade(qs, ans).Buckets(d)[k] == Tally(Select(qs, d, k), ans)
    decreases |qs|
  {
    if qs != [] {
      var p := qs[..|qs| - 1];
      var q := qs[|qs| - 1];
      BucketsAreTallies(p, ans, d);
      var c := Contribution(q, SelectionFor(q, ans));
      var m := Grade(p, ans).Buckets(d);
      var m' := Grade(qs, ans).Buckets(d);
      assert m' == AddTo(m, KeyOf(d, q), c);
      forall k | k in m'
        ensures m'[k] == Tally(Select(qs, d, k), ans)
      {
        if k == KeyOf(d, q) {
          assert Select(qs, d, k) == Select(p, d, k) + [q];
          TallyAppend(Select(p, d, k), q, ans);
          if k !in m {
            NoBucketNoSelection(p, ans, d, k);
          }
        } else {
          assert Select(qs, d, k) == Select(p, d, k);
          assert m'[k] == m[k];
        }
      }
    }
  }

  /** A key without a bucket selects no question. */
  lemma NoBucketNoSelection(qs: seq<Question>, ans: map<string, Selected>, d: Dimension, k: string)
    requires k !in Grade(qs, ans).Buckets(d)
    ensures Select(qs, d, k) == []
  {
    BucketKeys(qs, ans, d);
    if Select(qs, d, k) != [] {
      SelectedFrom(qs, d, k, 0);
    }
  }

  /** Every element of a selection comes from the list. */
  lemma {:induction false} SelectedFrom(qs: seq<Question>, d: Dimension, k: string, j: nat)
    requires j < |Select(qs, d, k)|
    ensures exists i :: 0 <= i < |qs| && qs[i] == Select(qs, d, k)[j] && KeyOf(d, qs[i]) == k
    decreases |qs|
  {
    var p := qs[..|qs| - 1];
    var rest := Select(p, d, k);
    if j < |rest| {
      SelectedFrom(p, d, k, j);
      var i :| 0 <= i < |p| && p[i] == rest[j] && KeyOf(d, p[i]) == k;
      assert qs[i] == p[i];
    } else {
      assert qs[|qs| - 1] == Select(qs, d, k)[j];
    }
  }

  /** Within every bucket the counters partition the questions carrying its key. */
  lemma BucketCountsPartition(qs: seq<Question>, ans: map<string, Selected>, d: Dimension, k: string)
    requires k in Grade(qs, ans).Buckets(d)
    ensures Grade(qs, ans).Buckets(d)[k].Count() == |Select(qs, d, k)|
  {
    BucketsAreTallies(qs, ans, d);
    TallyCount(Select(qs, d, k), ans);
    assert Grade(qs, ans).Buckets(d)[k] == Tally(Select(qs, d, k), ans);
  }

  /** The component-wise sum of all the buckets of a map. */
  ghost function SumBuckets(m: map<string, Bucket>): Bucket
    decreases |m|
  {
    if |m| == 0 then Zero
    else
      var k :| k in m;
      assert (m - {k}).Keys == m.Keys - {k};
      m[k].Plus(SumBuckets(m - {k}))
  }

  lemma {:induction false} SumBucketsRemove(m: map<string, Bucket>, k: string)
    requires k in m
    ensures SumBuckets(m) == m[k].Plus(SumBuckets(m - {k}))
    decreases |m|
  {
    var j :| j in m && SumBuckets(m) == m[j].Plus(SumBuckets(m - {j}));
    if j != k {
      var mj := m - {j};
      var mk := m - {k};
      assert mj.Keys == m.Keys - {j};
      assert mk.Keys == m.Keys - {k};
      assert k in mj && mj[k] == m[k];
      assert j in mk && mk[j] == m[j];
      SumBucketsRemove(mj, k);
      SumBucketsRemove(mk, j);
      assert mj - {k} == mk - {j};
      var rest := SumBuckets(mj - {k});
      PlusExchange(m[j], m[k], rest);
    }
  }

  lemma SumBucketsAddTo(m: map<string, Bucket>, k: string, c: Bucket)
    ensures SumBuckets(AddTo(m, k, c)) == SumBuckets(m).Plus(c)
  {
    var m' := AddTo(m, k, c);
    var old_k := if k in m then m[k] else Zero;
    assert k in m' && m'[k] == old_k.Plus(c);
    SumBucketsRemove(m', k);
    assert m' - {k} == m - {k};
    var rest := SumBuckets(m - {k});
    assert SumBuckets(m') == old_k.Plus(c).Plus(rest);
    PlusExchange(old_k, c, rest);
    if k in m {
      SumBucketsRemove(m, k);
    } else {
      assert m - {k} == m;
      ZeroPlus(rest);
    }
    PlusExchange(rest, Zero, c);
    ZeroPlus(c);
    assert old_k.Plus(rest).Plus(c) == old_k.Plus(c.Plus(rest));
  }

  /** Summing every bucket of either map gives back the overall totals: the bucket
      scores add up to the unrounded score, the bucket maxima to the total marks, and
      the bucket counters to the overall counters. */
  lemma {:induction false} BucketsSumToOverall(qs: seq<Question>, ans: map<string, Selected>, d: Dimension)
    ensures SumBuckets(Grade(qs, ans).Buckets(d)) == Grade(qs, ans).overall
    decreases |qs|
  {
    if qs == [] {
      assert |Grade(qs, ans).Buckets(d)| == 0;
    } else {
      var p := qs[..|qs| - 1];
      var q := qs[|qs| - 1];
      BucketsSumToOverall(p, ans, d);
      SumBucketsAddTo(Grade(p, ans).Buckets(d), KeyOf(d, q), Contribution(q, SelectionFor(q, ans)));
    }
  }

  // ---------------------------------------------------------------------------
  // Answers that match no question.

  /** Grading reads the answer map only at the ids of the questions. */
  lemma {:induction false} GradeReadsOnlyQuestionIds(qs: seq<Question>, a1: map<string, Selected>, a2: map<string, Selected>)
    requires forall i :: 0 <= i < |qs| ==> SelectionFor(qs[i], a1) == SelectionFor(qs[i], a2)
    ensures Grade(qs, a1) == Grade(qs, a2)
    decreases |qs|
  {
    if qs != [] {
      GradeReadsOnlyQuestionIds(qs[..|qs| - 1], a1, a2);
    }
  }

  /** Appending one answer inserts (or replaces) its entry. */
  lemma AnswerMapSnoc(s: seq<Answer>, a: Answer)
    ensures AnswerMap(s + [a]) == AnswerMap(s)[a.questionId := a.selected]
  {
    assert (s + [a])[..|s|] == s;
  }

  /** Inserting one answer whose id is not `id` anywhere in the list leaves the entry for `id` alone. */
  lemma {:induction false} AnswerMapInsertOther(front: seq<Answer>, b: Answer, back: seq<Answer>, id: string)
    requires b.questionId != id
    ensures (id in AnswerMap(front + [b] + back)) == (id in AnswerMap(front + back))
    ensures id in AnswerMap(front + back) ==> AnswerMap(front + [b] + back)[id] == AnswerMap(front + back)[id]
    decreases |back|
  {
    if back == [] {
      assert front + [b] + back == front + [b];
      assert front + back == front;
      AnswerMapSnoc(front, b);
    } else {
      var bk := back[..|back| - 1];
      var x := back[|back| - 1];
      AnswerMapInsertOther(front, b, bk, id);
      assert front + [b] + back == (front + [b] + bk) + [x];
      assert front + back == (front + bk) + [x];
      AnswerMapSnoc(front + [b] + bk, x);
      AnswerMapSnoc(front + bk, x);
    }
  }

  /** An answer whose question id matches no question changes nothing in the output,
      compared with leaving that answer out. */
  lemma UnknownAnswerIgnored(qs: seq<Question>, front: seq<Answer>, b: Answer, back: seq<Answer>)
    requires forall i :: 0 <= i < |qs| ==> qs[i].id != b.questionId
    ensures Grade(qs, AnswerMap(front + [b] + back)) == Grade(qs, AnswerMap(front + back))
  {
    forall i | 0 <= i < |qs|
      ensures SelectionFor(qs[i], AnswerMap(front + [b] + back)) == SelectionFor(qs[i], AnswerMap(front + back))
    {
      AnswerMapInsertOther(front, b, back, qs[i].id);
    }
    GradeReadsOnlyQuestionIds(qs, AnswerMap(front + [b] + back), AnswerMap(front + back));
  }

  // ---------------------------------------------------------------------------
  // Bounds.

  predicate NonNegativeMarking(qs: seq<Question>) {
    forall i :: 0 <= i < |qs| ==> Marks(qs[i]) >= 0.0 && NegativeMarks(qs[i]) >= 0.0
  }

  /** Σ negativeMarks: the most the questions can take away. */
  function SumNegativeMarks(qs: seq<Question>): real
    decreases |qs|
  {
    if qs == [] then 0.0 else SumNegativeMarks(qs[..|qs| - 1]) + NegativeMarks(qs[|qs| - 1])
  }

  /** With non-negative marks and penalties the unrounded score lies between minus the
      sum of the penalties (every question wrong) and the total marks (every question right). */
  lemma {:induction false} ScoreBounds(qs: seq<Question>, ans: map<string, Selected>)
    requires NonNegativeMarking(qs)
    ensures -SumNegativeMarks(qs) <= Grade(qs, ans).overall.score <= Grade(qs, ans).overall.totalMarks
    decreases |qs|
  {
    if qs != [] {
      ScoreBounds(qs[..|qs| - 1], ans);
    }
  }

  /** A question saved through the schema is aggregated under its own tier (or "I"),
      in one of the two enum tiers, and earns its own (or the default) marks. */
  lemma CreatedQuestionKeys(d: Draft)
    requires Create(d).Success?
    ensures TierKey(Create(d).value) == d.tier.GetOr(DefaultTier)
    ensures TierKey(Create(d).value) in TierValues
    ensures Marks(Create(d).value) == d.marks.GetOr(DefaultMarks)
    ensures NegativeMarks(Create(d).value) == d.negativeMarks.GetOr(DefaultNegativeMarks)
    ensures d.section.None? ==> SectionKey(Create(d).value) == DefaultSection
  {
  }
}
