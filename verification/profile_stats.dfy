/** The student profile's statistics over the stored responses of `/responses/my`:
    number of exams, average and highest score, and average accuracy. */
module ProfileStats {
  import opened JsNumber
  import opened ResponseController

  /** The four figures; each shown value is `toFixed(2)` of the computed one, read as a number. */
  datatype Stats = Stats(totalExams: nat, avgScore: real, highestScore: real, avgAccuracy: real)

  /** The state before any response arrives. */
  const Initial: Stats := Stats(0, 0.0, 0.0, 0.0)

  /** `res.data.reduce((sum, r) => sum + r.score, 0)` */
  function TotalScore(rs: seq<ResponseDoc>): real
    decreases |rs|
  {
    if rs == [] then 0.0 else TotalScore(rs[..|rs| - 1]) + rs[|rs| - 1].score
  }

  /** `Math.max(...res.data.map(r => r.score))`: the largest score, which is one of them. */
  function HighestScore(rs: seq<ResponseDoc>): (m: real)
    requires rs != []
    ensures forall i :: 0 <= i < |rs| ==> rs[i].score <= m
    ensures exists i :: 0 <= i < |rs| && rs[i].score == m
    decreases |rs|
  {
    var last := rs[|rs| - 1].score;
    if |rs| == 1 then last
    else
      var rest := HighestScore(rs[..|rs| - 1]);
      assert forall i :: 0 <= i < |rs| - 1 ==> rs[..|rs| - 1][i] == rs[i];
      if rest < last then last else rest
  }

  /** One response's accuracy: `attempted ? (correctCount / attempted) * 100 : 0`,
      a percentage. */
  function ResultAccuracy(r: ResponseDoc): (a: real)
    ensures 0.0 <= a <= 100.0
    ensures r.correctCount + r.wrongCount == 0 || r.correctCount == 0 ==> a == 0.0
    ensures r.correctCount + r.wrongCount > 0 && r.wrongCount == 0 ==> a == 100.0
  {
    var attempted := r.correctCount + r.wrongCount;
    if attempted == 0 then 0.0
    else
      QuotientAtMost(r.correctCount as real, attempted as real, 1.0);
      r.correctCount as real / attempted as real * 100.0
  }

  /** The sum of the per-response accuracies, at most 100 per response. */
  function TotalAccuracy(rs: seq<ResponseDoc>): (t: real)
    ensures 0.0 <= t <= 100.0 * |rs| as real
    decreases |rs|
  {
    if rs == [] then 0.0 else TotalAccuracy(rs[..|rs| - 1]) + ResultAccuracy(rs[|rs| - 1])
  }

  /** `fetchResults`: with at least one response the four figures are recomputed; with
      none the previous statistics stay. The average accuracy is the mean of the
      per-response accuracies, rounded to hundredths, and so a percentage. */
  function FetchStats(prev: Stats, rs: seq<ResponseDoc>): (s: Stats)
    ensures rs == [] ==> s == prev
    ensures rs != [] ==>
      && s.totalExams == |rs|
      && -0.005 <= s.avgScore - TotalScore(rs) / |rs| as real <= 0.005
      && -0.005 <= s.highestScore - HighestScore(rs) <= 0.005
      && (exists i :: 0 <= i < |rs| && s.highestScore == Hundredths(rs[i].score))
      && -0.005 <= s.avgAccuracy - TotalAccuracy(rs) / |rs| as real <= 0.005
      && 0.0 <= s.avgAccuracy <= 100.0
  {
    if rs == [] then prev
    else
      var n := |rs| as real;
      var avgAccuracy := TotalAccuracy(rs) / n;
      QuotientAtMost(TotalAccuracy(rs), n, 100.0);
      HundredthsWithin(avgAccuracy, 0, 10000);
      Stats(|rs|, Hundredths(TotalScore(rs) / n), Hundredths(HighestScore(rs)), Hundredths(avgAccuracy))
  }

  /** A total of scores each at most m is at most m per response. */
  lemma {:induction false} TotalAtMost(rs: seq<ResponseDoc>, m: real)
    requires forall i :: 0 <= i < |rs| ==> rs[i].score <= m
    ensures TotalScore(rs) <= |rs| as real * m
    decreases |rs|
  {
    if rs != [] {
      var p := rs[..|rs| - 1];
      assert forall i :: 0 <= i < |p| ==> p[i] == rs[i];
      TotalAtMost(p, m);
    }
  }

  /** The shown average never exceeds the shown highest score. */
  lemma AverageAtMostHighest(prev: Stats, rs: seq<ResponseDoc>)
    requires rs != []
    ensures FetchStats(prev, rs).avgScore <= FetchStats(prev, rs).highestScore
  {
    var m := HighestScore(rs);
    var n := |rs| as real;
    TotalAtMost(rs, m);
    var avg := TotalScore(rs) / n;
    QuotientAtMost(TotalScore(rs), n, m);
    HundredthsMonotone(avg, m);
  }

  /** When every stored response answered everything it attempted correctly, and each
      attempted something, the average accuracy shown is 100. */
  lemma {:induction false} PerfectAccuracy(rs: seq<ResponseDoc>)
    requires forall i :: 0 <= i < |rs| ==> rs[i].wrongCount == 0 && rs[i].correctCount > 0
    ensures TotalAccuracy(rs) == 100.0 * |rs| as real
    decreases |rs|
  {
    if rs != [] {
      var p := rs[..|rs| - 1];
      assert forall i :: 0 <= i < |p| ==> p[i] == rs[i];
      PerfectAccuracy(p);
    }
  }

  /** The shown average accuracy of perfect responses is exactly 100. */
  lemma PerfectAverage(prev: Stats, rs: seq<ResponseDoc>)
    requires rs != []
    requires forall i :: 0 <= i < |rs| ==> rs[i].wrongCount == 0 && rs[i].correctCount > 0
    ensures FetchStats(prev, rs).avgAccuracy == 100.0
  {
    PerfectAccuracy(rs);
    var n := |rs| as real;
    assert TotalAccuracy(rs) / n == 10000 as real / 100.0;
    HundredthsExact(10000);
  }
}
