/** The teacher's question editor: its option list (between two and six entries),
    the answer text, the time limit, and the checks and trimming applied when the
    form is submitted. */
module QuestionForm {
  import opened Wrappers
  import opened Text

  const MinOptions: nat := 2
  const MaxOptions: nat := 6
  const DefaultTimeLimit: real := 30.0

  /** The form state. `timeLimit` is the value `Number(...)` reads from the field;
      `None` stands for NaN. */
  datatype Form = Form(text: string, options: seq<string>, correct: string, timeLimit: Option<real>, editingId: Option<string>)

  /** The body sent to the question routes. */
  datatype Payload = Payload(examId: string, text: string, options: seq<string>, correct: string, timeLimit: Option<real>)

  /** `reset()`, which is also the initial state: four empty options, no answer,
      30 seconds, not editing. */
  function Reset(): (f: Form)
    ensures |f.options| == 4 && forall k :: 0 <= k < 4 ==> f.options[k] == ""
    ensures f.text == "" && f.correct == "" && f.timeLimit == Some(DefaultTimeLimit) && f.editingId.None?
  {
    Form("", ["", "", "", ""], "", Some(DefaultTimeLimit), None)
  }

  /** The editor never shows fewer than two or more than six options. */
  predicate OptionBounds(f: Form) {
    MinOptions <= |f.options| <= MaxOptions
  }

  /** `addOption`: one more empty option, unless there are six already. */
  function AddOption(f: Form): (r: Form)
    ensures |f.options| < MaxOptions ==> r.options == f.options + [""]
    ensures |f.options| >= MaxOptions ==> r == f
    ensures r.text == f.text && r.correct == f.correct && r.timeLimit == f.timeLimit
  {
    if |f.options| < MaxOptions then f.(options := f.options + [""]) else f
  }

  /** `options.filter((_, i) => i !== index)` */
  function Without(s: seq<string>, index: int): (r: seq<string>)
    ensures 0 <= index < |s| ==> r == s[..index] + s[index + 1..]
    ensures !(0 <= index < |s|) ==> r == s
    decreases |s|
  {
    if s == [] then []
    else
      var rest := Without(s[1..], index - 1);
      if index == 0 then rest else [s[0]] + rest
  }

  /** `removeOption(index)`: drops that option when more than two remain; when the
      dropped text was the correct answer, the answer is cleared. */
  function RemoveOption(f: Form, index: int): (r: Form)
    ensures |f.options| > MinOptions && 0 <= index < |f.options| ==>
      && r.options == f.options[..index] + f.options[index + 1..]
      && r.correct == (if f.correct == f.options[index] then "" else f.correct)
    ensures |f.options| <= MinOptions || !(0 <= index < |f.options|) ==> r.options == f.options && r.correct == f.correct
    ensures r.text == f.text && r.timeLimit == f.timeLimit
  {
    if |f.options| > MinOptions then
      var cleared := 0 <= index < |f.options| && f.correct == f.options[index];
      f.(options := Without(f.options, index), correct := if cleared then "" else f.correct)
    else f
  }

  /** `updateOption(index, value)`: only that option changes. */
  function UpdateOption(f: Form, index: nat, value: string): (r: Form)
    requires index < |f.options|
    ensures |r.options| == |f.options| && r.options[index] == value
    ensures forall k :: 0 <= k < |f.options| && k != index ==> r.options[k] == f.options[k]
    ensures r.text == f.text && r.correct == f.correct && r.timeLimit == f.timeLimit
  {
    f.(options := f.options[index := value])
  }

  /** Adding, removing and editing options keep the two-to-six bound. */
  lemma EditsKeepBounds(f: Form, index: int, i: nat, value: string)
    requires OptionBounds(f)
    ensures OptionBounds(AddOption(f))
    ensures OptionBounds(RemoveOption(f, index))
    ensures i < |f.options| ==> OptionBounds(UpdateOption(f, i, value))
  {
  }

  /** Every option has non-blank text. */
  predicate OptionsFilled(options: seq<string>) {
    forall k :: 0 <= k < |options| ==> Trim(options[k]) != ""
  }

  /** `isValid`: question text, every option and the answer are all non-blank. */
  predicate IsValid(f: Form)
    ensures IsValid(f) <==>
      && !IsBlank(f.text) && !IsBlank(f.correct)
      && forall k :: 0 <= k < |f.options| ==> !IsBlank(f.options[k])
  {
    TrimEmptyIffBlank(f.text);
    TrimEmptyIffBlank(f.correct);
    assert OptionsFilled(f.options) <==> forall k :: 0 <= k < |f.options| ==> !IsBlank(f.options[k]) by {
      forall k | 0 <= k < |f.options| {
        TrimEmptyIffBlank(f.options[k]);
      }
    }
    Trim(f.text) != "" && OptionsFilled(f.options) && Trim(f.correct) != ""
  }

  /** `options.map(opt => opt.trim())` */
  function TrimAll(options: seq<string>): (r: seq<string>)
    ensures |r| == |options|
    ensures forall k :: 0 <= k < |options| ==> r[k] == Trim(options[k])
  {
    seq(|options|, k requires 0 <= k < |options| => Trim(options[k]))
  }

  /** `submit()`: the first failed check, in the order the form makes them, or the
      trimmed payload. */
  function Submit(f: Form, examId: string): (r: Result<Payload, string>)
    ensures r.Success? <==> IsValid(f)
    ensures Trim(f.text) == "" ==> r == Failure("Please enter the question text")
    ensures Trim(f.text) != "" && !OptionsFilled(f.options) ==> r == Failure("Please fill all options")
    ensures Trim(f.text) != "" && OptionsFilled(f.options) && Trim(f.correct) == "" ==>
      r == Failure("Please specify the correct answer")
    ensures r.Success? ==>
      && r.value.examId == examId
      && r.value.text == Trim(f.text)
      && r.value.options == TrimAll(f.options)
      && r.value.correct == Trim(f.correct)
      && r.value.timeLimit == f.timeLimit
  {
    if Trim(f.text) == "" then Failure("Please enter the question text")
    else if !OptionsFilled(f.options) then Failure("Please fill all options")
    else if Trim(f.correct) == "" then Failure("Please specify the correct answer")
    else Success(Payload(examId, Trim(f.text), TrimAll(f.options), Trim(f.correct), f.timeLimit))
  }

  /** A freshly reset form cannot be submitted. */
  lemma ResetIsInvalid(examId: string)
    ensures Submit(Reset(), examId) == Failure("Please enter the question text")
  {
    TrimEmptyIffBlank("");
  }

  /** A submitted payload, loaded back into the form, submits to the same payload:
      trimming has nothing left to remove. */
  lemma PayloadResubmits(f: Form, examId: string)
    requires Submit(f, examId).Success?
    ensures var p := Submit(f, examId).value;
      Submit(Form(p.text, p.options, p.correct, p.timeLimit, f.editingId), examId) == Success(p)
  {
    var p := Submit(f, examId).value;
    TrimIdempotent(f.text);
    TrimIdempotent(f.correct);
    forall k | 0 <= k < |f.options|
      ensures Trim(p.options[k]) == p.options[k]
    {
      TrimIdempotent(f.options[k]);
    }
    assert TrimAll(p.options) == p.options;
  }
}
