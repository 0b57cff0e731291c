/** The student exam page's answer bookkeeping: an association list of
    (question id, selected option index or null) entries with toggle-to-deselect, the
    per-question status the tracker shows, the selection a question card keeps, the
    clamped Previous/Next movement, and the answers array the page submits. */
module AnswerLedger {
  import opened Wrappers
  import opened QuestionModel
  import opened Grading

  /** `{ questionId, selected }`; `selected` is an option index or null (`None`). */
  datatype Entry = Entry(questionId: string, selected: Option<nat>)

  type Ledger = seq<Entry>

  /** `answers.find(a => a.questionId === qid)`: the position of the first entry for qid. */
  function FirstEntry(l: Ledger, qid: string): (r: Option<nat>)
    ensures r.Some? ==> r.value < |l| && l[r.value].questionId == qid
    ensures r.Some? ==> forall k :: 0 <= k < r.value ==> l[k].questionId != qid
    ensures r.None? <==> forall k :: 0 <= k < |l| ==> l[k].questionId != qid
    decreases |l|
  {
    if l == [] then None
    else if l[0].questionId == qid then Some(0)
    else
      var rest := FirstEntry(l[1..], qid);
      if rest.Some? then Some(rest.value + 1) else None
  }

  /** `answers.find(...)?.selected ?? null`: the selection the page highlights. */
  function Displayed(l: Ledger, qid: string): (r: Option<nat>)
    ensures (forall k :: 0 <= k < |l| ==> l[k].questionId != qid) ==> r.None?
    ensures r.Some? ==> exists k :: 0 <= k < |l| && l[k].questionId == qid && l[k].selected == r
  {
    match FirstEntry(l, qid)
    case None => None
    case Some(k) => l[k].selected
  }

  /** `getQuestionStatus(qid) === "attempted"`: an entry exists and its selection is not null. */
  predicate Attempted(l: Ledger, qid: string)
    ensures Attempted(l, qid) <==> Displayed(l, qid).Some?
  {
    var k := FirstEntry(l, qid);
    k.Some? && l[k.value].selected.Some?
  }

  /** `prev.map(a => a.questionId === qid ? { ...a, selected: v } : a)` */
  function SetAll(l: Ledger, qid: string, v: Option<nat>): (r: Ledger)
    ensures |r| == |l|
    ensures forall k :: 0 <= k < |l| ==> r[k].questionId == l[k].questionId
    ensures forall k :: 0 <= k < |l| && l[k].questionId == qid ==> r[k].selected == v
    ensures forall k :: 0 <= k < |l| && l[k].questionId != qid ==> r[k] == l[k]
  {
    seq(|l|, k requires 0 <= k < |l| => if l[k].questionId == qid then l[k].(selected := v) else l[k])
  }

  /** Two ledgers with the same ids in the same places find the same first entry. */
  lemma {:induction false} FirstEntrySameIds(l1: Ledger, l2: Ledger, qid: string)
    requires |l1| == |l2|
    requires forall k :: 0 <= k < |l1| ==> l1[k].questionId == l2[k].questionId
    ensures FirstEntry(l1, qid) == FirstEntry(l2, qid)
    decreases |l1|
  {
    if l1 != [] && l1[0].questionId != qid {
      FirstEntrySameIds(l1[1..], l2[1..], qid);
    }
  }

  /** Appending an entry leaves every earlier first entry in place. */
  lemma FirstEntryAppend(l: Ledger, e: Entry, qid: string)
    ensures FirstEntry(l + [e], qid) ==
      if FirstEntry(l, qid).Some? then FirstEntry(l, qid)
      else if e.questionId == qid then Some(|l|)
      else None
  {
    var r := FirstEntry(l + [e], qid);
    if FirstEntry(l, qid).Some? {
      var k := FirstEntry(l, qid).value;
      assert (l + [e])[k] == l[k];
    } else if e.questionId == qid {
      assert (l + [e])[|l|] == e;
    }
  }

  /** `handleSelect(qid, optionIndex)`: without an entry for qid a new one is appended;
      otherwise every entry for qid is set to null when the displayed selection is
      this option and to this option when it is not. */
  function HandleSelect(l: Ledger, qid: string, opt: nat): (r: Ledger)
    ensures FirstEntry(l, qid).None? ==> r == l + [Entry(qid, Some(opt))]
    ensures FirstEntry(l, qid).Some? ==>
      && |r| == |l|
      && (forall k :: 0 <= k < |l| ==> r[k].questionId == l[k].questionId)
      && (forall k :: 0 <= k < |l| && l[k].questionId != qid ==> r[k] == l[k])
  {
    match FirstEntry(l, qid)
    case None => l + [Entry(qid, Some(opt))]
    case Some(k) =>
      if l[k].selected == Some(opt) then SetAll(l, qid, None) else SetAll(l, qid, Some(opt))
  }

  /** The toggle law: selecting the displayed option clears it, selecting anything else
      shows that option; the selection of every other question is unchanged. */
  lemma HandleSelectToggles(l: Ledger, qid: string, opt: nat)
    ensures Displayed(HandleSelect(l, qid, opt), qid) ==
      if Displayed(l, qid) == Some(opt) then None else Some(opt)
    ensures forall other :: other != qid ==>
      Displayed(HandleSelect(l, qid, opt), other) == Displayed(l, other)
  {
    var r := HandleSelect(l, qid, opt);
    if FirstEntry(l, qid).None? {
      FirstEntryAppend(l, Entry(qid, Some(opt)), qid);
      forall other | other != qid
        ensures Displayed(r, other) == Displayed(l, other)
      {
        FirstEntryAppend(l, Entry(qid, Some(opt)), other);
        if FirstEntry(l, other).Some? {
          assert r[FirstEntry(l, other).value] == l[FirstEntry(l, other).value];
        }
      }
    } else {
      FirstEntrySameIds(r, l, qid);
      forall other | other != qid
        ensures Displayed(r, other) == Displayed(l, other)
      {
        FirstEntrySameIds(r, l, other);
      }
    }
  }

  /** Pressing the same option twice from an unanswered state leaves it unanswered. */
  lemma SelectTwiceClears(l: Ledger, qid: string, opt: nat)
    requires Displayed(l, qid).None?
    ensures Displayed(HandleSelect(HandleSelect(l, qid, opt), qid, opt), qid).None?
  {
    HandleSelectToggles(l, qid, opt);
    HandleSelectToggles(HandleSelect(l, qid, opt), qid, opt);
  }

  /** At most one entry per question id. */
  predicate UniqueIds(l: Ledger) {
    forall i, j :: 0 <= i < j < |l| ==> l[i].questionId != l[j].questionId
  }

  /** `handleSelect` never creates a second entry for a question. */
  lemma HandleSelectKeepsUnique(l: Ledger, qid: string, opt: nat)
    requires UniqueIds(l)
    ensures UniqueIds(HandleSelect(l, qid, opt))
  {
    var r := HandleSelect(l, qid, opt);
    if FirstEntry(l, qid).None? {
      assert forall i :: 0 <= i < |l| ==> r[i] == l[i];
    }
  }

  /** A question is attempted exactly when a selection is displayed for it. */
  lemma AttemptedIffDisplayed(l: Ledger, qid: string)
    ensures Attempted(l, qid) <==> Displayed(l, qid).Some?
  {
  }

  /** The `answers` array posted to `/responses/submit`. */
  function ToAnswers(l: Ledger): (a: seq<Answer>)
    ensures |a| == |l|
    ensures forall k :: 0 <= k < |l| ==> a[k].questionId == l[k].questionId
  {
    seq(|l|, k requires 0 <= k < |l| =>
      Answer(l[k].questionId, if l[k].selected.None? then Null else Number(l[k].selected.value)))
  }

  /** The backend grades a question on the selection the page displayed: with one entry
      per question, the backend's selection is the displayed option (null when none),
      and the question counts as unattempted exactly when the tracker says so. */
  lemma ScoringSeesDisplayed(l: Ledger, q: Question)
    requires UniqueIds(l)
    ensures SelectionFor(q, AnswerMap(ToAnswers(l))) ==
      if Displayed(l, q.id).Some? then Number(Displayed(l, q.id).value) else Null
    ensures Classify(SelectionFor(q, AnswerMap(ToAnswers(l))), q.correctAnswer) == Unattempted
      <==> !Attempted(l, q.id)
  {
    var a := ToAnswers(l);
    match FirstEntry(l, q.id)
    case None =>
      assert q.id !in AnswerMap(a);
    case Some(k) =>
      AnswerMapLastWins(a, k);
  }

  /** The Previous button: `Math.max(i - 1, 0)`. */
  function Previous(i: int): (r: int)
    ensures r >= 0
    ensures r <= i || i < 0
    ensures i > 0 ==> r == i - 1
  {
    if i - 1 > 0 then i - 1 else 0
  }

  /** The Next button: `Math.min(i + 1, n - 1)`. */
  function Next(i: int, n: nat): (r: int)
    ensures r <= n - 1
    ensures i < n - 1 ==> r == i + 1
  {
    if i + 1 < n - 1 then i + 1 else n - 1
  }

  /** Starting from a valid position of a non-empty exam, both buttons keep the
      position valid, and Previous undoes Next away from the last question. */
  lemma NavigationInRange(i: int, n: nat)
    requires 0 <= i < n
    ensures 0 <= Previous(i) < n && 0 <= Next(i, n) < n
    ensures i < n - 1 ==> Previous(Next(i, n)) == i
    ensures 0 < i ==> Next(Previous(i), n) == i
  {
  }

  /** A question card's click: the same option clears the selection, another option
      replaces it; `onSelect` receives the new selection. */
  function HandleClick(current: Option<nat>, i: nat): (r: (Option<nat>, Option<nat>))
    ensures r.1 == r.0
    ensures r.0.None? <==> current == Some(i)
    ensures r.0.Some? ==> r.0.value == i
  {
    var newSel := if current == Some(i) then None else Some(i);
    (newSel, newSel)
  }

  /** The card and the page toggle alike: the card's new selection is what the page's
      ledger displays after the same click. */
  lemma CardAgreesWithLedger(l: Ledger, qid: string, i: nat)
    ensures HandleClick(Displayed(l, qid), i).0 == Displayed(HandleSelect(l, qid, i), qid)
  {
    HandleSelectToggles(l, qid, i);
  }
}
