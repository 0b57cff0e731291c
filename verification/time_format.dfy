/** The four `formatTime` helpers that print a number of seconds: the two clock
    faces of the exam pages (`m:ss`) and the two duration labels of the teacher pages
    (`{m}m {s}s`, or `{s}s` under a minute). */
module TimeFormat {
  import opened Wrappers
  import opened JsNumber

  /** The student exam page's clock: `${m}:${s < 10 ? "0" : ""}${s}` with
      `m = Math.floor(sec / 60)` and `s = sec % 60`. */
  function ClockText(sec: int): (r: string)
    ensures sec >= 0 ==> |r| >= 4 && r[|r| - 3] == ':' && AllDigits(r[|r| - 2..])
  {
    var m := FloorDiv(sec, 60);
    var s := Rem(sec, 60);
    var r := IntToString(m) + ":" + (if s < 10 then "0" else "") + IntToString(s);
    if sec >= 0 then
      SecondsText(s);
      assert r == IntToString(m) + ":" + SecondsPair(s);
      assert r[|r| - 2..] == SecondsPair(s);
      r
    else r
  }

  /** The two-character seconds field of the student clock for 0 <= s < 60. */
  function SecondsPair(s: nat): string {
    (if s < 10 then "0" else "") + Decimal(s)
  }

  /** The seconds field is two digits and reads back as s. */
  lemma SecondsText(s: nat)
    requires s < 60
    ensures |SecondsPair(s)| == 2 && AllDigits(SecondsPair(s))
    ensures ParseNat(SecondsPair(s)) == Some(s)
  {
    var st := SecondsPair(s);
    if s < 10 {
      assert Decimal(s) == [DigitChar(s)];
      assert st == ['0', DigitChar(s)];
      assert st[..1] == ['0'];
      assert ['0'][..0] == [];
      assert DigitValue('0') == 0;
      assert DigitValue(DigitChar(s)) == s;
      assert DigitsValue(['0']) == 0;
      assert DigitsValue(st) == DigitsValue(['0']) * 10 + DigitValue(DigitChar(s));
    } else {
      assert Decimal(s) == Decimal(s / 10) + [DigitChar(s % 10)];
      assert Decimal(s / 10) == [DigitChar(s / 10)];
      assert st == Decimal(s);
      DecimalRoundTrip(s);
    }
  }

  /** `str.padStart(2, "0")` */
  function PadStart2(s: string): (r: string)
    ensures |r| == if |s| >= 2 then |s| else 2
    ensures r[|r| - |s|..] == s
    ensures forall k :: 0 <= k < |r| - |s| ==> r[k] == '0'
  {
    if |s| >= 2 then s else seq(2 - |s|, _ => '0') + s
  }

  /** The legacy exam page's clock: `${mins}:${secs.toString().padStart(2, "0")}`. On a
      non-negative count it ends in ':' and a two-digit seconds field. */
  function PaddedClockText(sec: int): (r: string)
    ensures |r| >= 4
    ensures sec >= 0 ==> r[|r| - 3] == ':' && AllDigits(r[|r| - 2..])
  {
    var mins := IntToString(FloorDiv(sec, 60));
    var secs := PadStart2(IntToString(Rem(sec, 60)));
    assert |mins| >= 1 && |secs| >= 2;
    var r := mins + ":" + secs;
    if sec >= 0 then
      PaddedSeconds(Rem(sec, 60));
      SecondsText(Rem(sec, 60));
      assert r[|r| - 2..] == secs;
      r
    else r
  }

  /** Under a minute, `padStart(2, "0")` gives the student clock's seconds field. */
  lemma PaddedSeconds(s: nat)
    requires s < 60
    ensures PadStart2(IntToString(s)) == SecondsPair(s)
  {
    if s < 10 {
      assert IntToString(s) == [DigitChar(s)];
      assert PadStart2(IntToString(s)) == "0" + IntToString(s);
    } else {
      assert |IntToString(s)| >= 2 by {
        assert IntToString(s) == Decimal(s / 10) + [DigitChar(s % 10)];
      }
    }
  }

  /** On a non-negative count of seconds the two clock faces print the same text. */
  lemma ClockFacesAgree(sec: nat)
    ensures ClockText(sec) == PaddedClockText(sec)
  {
    PaddedSeconds(Rem(sec, 60));
  }

  /** Below zero they differ: five seconds overdue prints "-1:0-5" on one page and
      "-1:-5" on the other. */
  lemma ClockFacesDifferBelowZero()
    ensures ClockText(-5) == "-1:0-5"
    ensures PaddedClockText(-5) == "-1:-5"
  {
    assert FloorDiv(-5, 60) == -1;
    assert Rem(-5, 60) == -5;
    assert Decimal(1) == "1";
    assert Decimal(5) == "5";
  }

  /** The position of the first occurrence of c in t. */
  function IndexOf(t: string, c: char): (r: Option<nat>)
    ensures r.Some? ==> r.value < |t| && t[r.value] == c && c !in t[..r.value]
    ensures r.None? <==> c !in t
    decreases |t|
  {
    if t == [] then None
    else if t[0] == c then Some(0)
    else
      var rest := IndexOf(t[1..], c);
      assert t == [t[0]] + t[1..];
      if rest.Some? then
        assert t[..rest.value + 1] == [t[0]] + t[1..][..rest.value];
        Some(rest.value + 1)
      else None
  }

  /** Reads an `m:ss` clock face back into seconds; anything else is rejected. */
  function ParseClock(t: string): Option<nat> {
    match IndexOf(t, ':')
    case None => None
    case Some(p) =>
      var mins := ParseNat(t[..p]);
      var secs := ParseNat(t[p + 1..]);
      if mins.Some? && secs.Some? && |t| - (p + 1) == 2 && secs.value < 60
      then Some(mins.value * 60 + secs.value)
      else None
  }

  /** The clock face of a non-negative count of seconds reads back as that count. */
  lemma ClockRoundTrip(sec: nat)
    ensures ParseClock(ClockText(sec)) == Some(sec)
  {
    var m := FloorDiv(sec, 60);
    var s := Rem(sec, 60);
    FloorDivRemSplit(sec, 60);
    SecondsText(s);
    DecimalRoundTrip(m);
    var mt := Decimal(m);
    var st := SecondsPair(s);
    var t := ClockText(sec);
    assert t == mt + ":" + st;
    NoSeparator(mt, ':');
    assert t[..|mt|] == mt;
    assert IndexOf(t, ':') == Some(|mt|);
    assert t[|mt| + 1..] == st;
  }

  /** The duration label shared by the two teacher pages:
      `mins > 0 ? `${mins}m ${secs}s` : `${secs}s``. */
  function DurationText(sec: int): (r: string)
    ensures |r| >= 2 && r[|r| - 1] == 's'
    ensures sec >= 60 ==> exists p :: 0 < p < |r| - 2 && r[p] == 'm' && r[p + 1] == ' '
    ensures 0 <= sec < 60 ==> r == Decimal(sec) + "s"
  {
    var mins := FloorDiv(sec, 60);
    var secs := Rem(sec, 60);
    if mins > 0 then
      var r := IntToString(mins) + "m " + IntToString(secs) + "s";
      assert r[|IntToString(mins)|] == 'm' && r[|IntToString(mins)| + 1] == ' ';
      assert |IntToString(secs)| >= 1;
      r
    else IntToString(secs) + "s"
  }

  /** Reads a duration label back into seconds: `{m}m {s}s` with s < 60 and m > 0, or `{s}s`. */
  function ParseDuration(t: string): Option<nat> {
    if t == [] || t[|t| - 1] != 's' then None
    else
      var body := t[..|t| - 1];
      match IndexOf(body, 'm')
      case None => ParseNat(body)
      case Some(p) =>
        var mins := ParseNat(body[..p]);
        if p + 1 < |body| && body[p + 1] == ' ' && mins.Some? && mins.value > 0 then
          var secs := ParseNat(body[p + 2..]);
          if secs.Some? && secs.value < 60 then Some(mins.value * 60 + secs.value) else None
        else None
  }

  /** A digit string contains no separator. */
  lemma NoSeparator(t: string, c: char)
    requires AllDigits(t) && !IsDigit(c)
    ensures c !in t
  {
    forall k | 0 <= k < |t| ensures t[k] != c {
      assert IsDigit(t[k]);
    }
  }

  /** The duration label of a non-negative count of seconds reads back as that count. */
  lemma DurationRoundTrip(sec: nat)
    ensures ParseDuration(DurationText(sec)) == Some(sec)
  {
    FloorDivRemSplit(sec, 60);
    if FloorDiv(sec, 60) > 0 {
      MinutesRoundTrip(sec);
    } else {
      var body := Decimal(sec);
      var t := DurationText(sec);
      assert t[..|t| - 1] == body;
      NoSeparator(body, 'm');
      DecimalRoundTrip(sec);
    }
  }

  lemma MinutesRoundTrip(sec: nat)
    requires FloorDiv(sec, 60) > 0
    ensures ParseDuration(DurationText(sec)) == Some(sec)
  {
    var mins := FloorDiv(sec, 60);
    var secs := Rem(sec, 60);
    FloorDivRemSplit(sec, 60);
    var mt := Decimal(mins);
    var body := mt + "m " + Decimal(secs);
    var t := DurationText(sec);
    assert t == body + "s";
    assert t[..|t| - 1] == body;
    NoSeparator(mt, 'm');
    assert body[..|mt|] == mt;
    assert IndexOf(body, 'm') == Some(|mt|);
    assert body[..|mt|][..|mt|] == mt;
    assert body[|mt| + 2..] == Decimal(secs);
    DecimalRoundTrip(mins);
    DecimalRoundTrip(secs);
  }

  /** The exam list's label: an absent (or NaN) or zero total time reads
      "Per question". `None` is undefined, null or NaN. */
  function ExamDurationLabel(seconds: Option<int>): (r: string)
    ensures r == "Per question" <==> seconds.None? || seconds.value == 0
    ensures seconds.Some? && seconds.value != 0 ==> r == DurationText(seconds.value)
  {
    if seconds.None? || seconds.value == 0 then "Per question" else DurationText(seconds.value)
  }

  /** The question list's label, which has no special case: zero reads "0s" and an
      absent time limit prints NaN. */
  function QuestionTimeLabel(timeLimit: Option<int>): (r: string)
    ensures timeLimit.None? ==> r == "NaNs"
    ensures timeLimit.Some? ==> r == DurationText(timeLimit.value)
  {
    if timeLimit.None? then "NaNs" else DurationText(timeLimit.value)
  }

  /** The two teacher-page labels agree on every non-zero time and differ on zero. */
  lemma LabelsAgreeExceptZero(seconds: int)
    ensures seconds != 0 ==> ExamDurationLabel(Some(seconds)) == QuestionTimeLabel(Some(seconds))
    ensures ExamDurationLabel(Some(0)) == "Per question" && QuestionTimeLabel(Some(0)) == "0s"
  {
    assert Decimal(0) == "0";
  }
}
