/**
 * Validation metrics of src/validator.rs over (score, label) pairs: the
 * error rate, and the false and true positive counts at every distinct
 * score threshold that the curve metrics are built from.
 *
 * Scores and labels are `real`; the rounding of `f32` is not modelled.
 * The `commons` these functions use is src/commons.rs, whose `is_zero`
 * has strict bounds (src/commons/mod.rs has inclusive ones).
 */
module Validation {
  import opened Wrappers

  /** Line 19 of src/commons.rs. */
  const ALMOST_ZERO: real := 0.00000001

  /** Lines 66-68 of src/commons.rs. */
  predicate IsZero(a: real) {
    -ALMOST_ZERO < a < ALMOST_ZERO
  }

  /** Lines 71-73 of src/commons.rs: a label is positive when it is 1, up to `ALMOST_ZERO`. */
  predicate IsPositive(labelValue: real) {
    IsZero(labelValue - 1.0)
  }

  // ----- get_error_rate -----

  /** The pairs whose score does not have the label's sign. */
  function Errors(scoresLabels: seq<(real, real)>): (n: nat)
    ensures n <= |scoresLabels|
  {
    if scoresLabels == [] then 0
    else
      var last := scoresLabels[|scoresLabels| - 1];
      Errors(scoresLabels[..|scoresLabels| - 1]) + (if last.0 * last.1 <= 0.0 then 1 else 0)
  }

  /**
   * Lines 44-54: the share of errors.  With no pairs the source divides
   * zero by zero and returns NaN, which is `None` here.
   */
  function GetErrorRate(scoresLabels: seq<(real, real)>): (r: Option<real>)
    ensures r.None? <==> scoresLabels == []
    ensures r.Some? ==> 0.0 <= r.value <= 1.0
  {
    if scoresLabels == [] then None
    else
      var e := Errors(scoresLabels) as real;
      var n := |scoresLabels| as real;
      assert e <= n;
      assert (1.0 - e / n) * n == n - e;
      Some(e / n)
  }

  /** Lines 44-54: no pair wrong gives rate 0, every pair wrong gives rate 1. */
  lemma {:induction false} ErrorRateExtremes(scoresLabels: seq<(real, real)>)
    requires scoresLabels != []
    ensures (forall i :: 0 <= i < |scoresLabels| ==> scoresLabels[i].0 * scoresLabels[i].1 > 0.0) ==>
      GetErrorRate(scoresLabels) == Some(0.0)
    ensures (forall i :: 0 <= i < |scoresLabels| ==> scoresLabels[i].0 * scoresLabels[i].1 <= 0.0) ==>
      GetErrorRate(scoresLabels) == Some(1.0)
  {
    var e := Errors(scoresLabels) as real;
    var n := |scoresLabels| as real;
    assert GetErrorRate(scoresLabels) == Some(e / n);
    if forall i :: 0 <= i < |scoresLabels| ==> scoresLabels[i].0 * scoresLabels[i].1 > 0.0 {
      NoErrors(scoresLabels);
      Ratio(n);
    }
    if forall i :: 0 <= i < |scoresLabels| ==> scoresLabels[i].0 * scoresLabels[i].1 <= 0.0 {
      AllErrors(scoresLabels);
      Ratio(n);
    }
  }

  lemma Ratio(n: real)
    requires n > 0.0
    ensures 0.0 / n == 0.0 && n / n == 1.0
  {
  }

  lemma {:induction false} NoErrors(scoresLabels: seq<(real, real)>)
    requires forall i :: 0 <= i < |scoresLabels| ==> scoresLabels[i].0 * scoresLabels[i].1 > 0.0
    ensures Errors(scoresLabels) == 0
  {
    if scoresLabels != [] {
      NoErrors(scoresLabels[..|scoresLabels| - 1]);
    }
  }

  lemma {:induction false} AllErrors(scoresLabels: seq<(real, real)>)
    requires forall i :: 0 <= i < |scoresLabels| ==> scoresLabels[i].0 * scoresLabels[i].1 <= 0.0
    ensures Errors(scoresLabels) == |scoresLabels|
  {
    if scoresLabels != [] {
      AllErrors(scoresLabels[..|scoresLabels| - 1]);
    }
  }

  // ----- get_fps_tps -----

  /** The number of positive labels among the first `i` pairs. */
  function Positives(s: seq<(real, real)>, i: nat): (n: nat)
    requires i <= |s|
    ensures n <= i
  {
    if i == 0 then 0 else Positives(s, i - 1) + (if IsPositive(s[i - 1].1) then 1 else 0)
  }

  /** A longer prefix has at least as many positives and at least as many negatives. */
  lemma {:induction false} PositivesPrefix(s: seq<(real, real)>, i: nat, j: nat)
    requires i <= j <= |s|
    ensures Positives(s, i) <= Positives(s, j)
    ensures Positives(s, j) - Positives(s, i) <= j - i
    decreases j
  {
    if i < j {
      PositivesPrefix(s, i, j - 1);
    }
  }

  /**
   * The positions `j`, `1 <= j < i`, where the score differs from the one
   * before it by at least `ALMOST_ZERO`, in ascending order: where lines
   * 125-129 push a point.
   */
  function ChangePoints(s: seq<(real, real)>, i: nat): (r: seq<nat>)
    requires i <= |s|
    ensures forall a, b :: 0 <= a < b < |r| ==> r[a] < r[b]
    ensures forall k :: 0 <= k < |r| ==> 1 <= r[k] < i
  {
    if i <= 1 then []
    else ChangePoints(s, i - 1) + (if !IsZero(s[i - 1].0 - s[i - 2].0) then [i - 1] else [])
  }

  /** The prefix lengths at which a point is recorded: every change of score, and the end. */
  function Cuts(s: seq<(real, real)>): (r: seq<nat>)
    requires |s| > 0
    ensures |r| > 0 && r[|r| - 1] == |s|
    ensures forall a, b :: 0 <= a < b < |r| ==> r[a] < r[b]
    ensures forall k :: 0 <= k < |r| ==> 1 <= r[k] <= |s|
  {
    ChangePoints(s, |s|) + [|s|]
  }

  /**
   * Point `k` is taken at prefix length `cuts[k]`: the positives and the
   * pairs before it, and the score just before it.
   */
  ghost predicate PointsAt(s: seq<(real, real)>, cuts: seq<nat>, fps: seq<nat>, tps: seq<nat>, thresholds: seq<real>) {
    |fps| == |cuts| && |tps| == |cuts| && |thresholds| == |cuts| &&
    forall k :: 0 <= k < |cuts| ==>
      1 <= cuts[k] <= |s| && tps[k] == Positives(s, cuts[k]) && fps[k] + tps[k] == cuts[k] &&
      thresholds[k] == s[cuts[k] - 1].0
  }

  /** One more point, at prefix length `j`. */
  lemma PointsAtSnoc(s: seq<(real, real)>, cuts: seq<nat>, fps: seq<nat>, tps: seq<nat>, thresholds: seq<real>,
                     j: nat, fp: nat, tp: nat, last: real)
    requires PointsAt(s, cuts, fps, tps, thresholds)
    requires 1 <= j <= |s| && tp == Positives(s, j) && fp + tp == j && last == s[j - 1].0
    ensures PointsAt(s, cuts + [j], fps + [fp], tps + [tp], thresholds + [last])
  {
  }

  /** A change of score at `i` records the point before it. */
  lemma PointsAtChange(s: seq<(real, real)>, cuts: seq<nat>, fps: seq<nat>, tps: seq<nat>, thresholds: seq<real>,
                       i: nat, fp: nat, tp: nat, last: real)
    requires 1 <= i < |s| && tp == Positives(s, i) && fp + tp == i && last == s[i - 1].0
    requires cuts == ChangePoints(s, i) && PointsAt(s, cuts, fps, tps, thresholds)
    requires !IsZero(s[i].0 - last)
    ensures cuts + [i] == ChangePoints(s, i + 1)
    ensures PointsAt(s, cuts + [i], fps + [fp], tps + [tp], thresholds + [last])
  {
    PointsAtSnoc(s, cuts, fps, tps, thresholds, i, fp, tp, last);
  }

  /**
   * Lines 112-143: for the scores in order, one point per cut: the
   * negatives and positives among the pairs before the cut and the score
   * just before it.  An empty input panics at line 119.
   */
  method GetFpsTps(sortedScoresLabels: seq<(real, real)>) returns (fps: seq<nat>, tps: seq<nat>, thresholds: seq<real>)
    requires |sortedScoresLabels| > 0
    ensures PointsAt(sortedScoresLabels, Cuts(sortedScoresLabels), fps, tps, thresholds)
    ensures |fps| > 0 && |fps| == |tps| == |thresholds|
    ensures forall a, b :: 0 <= a < b < |fps| ==> fps[a] <= fps[b] && tps[a] <= tps[b] && fps[a] + tps[a] < fps[b] + tps[b]
    ensures fps[|fps| - 1] + tps[|fps| - 1] == |sortedScoresLabels| && tps[|fps| - 1] == Positives(sortedScoresLabels, |sortedScoresLabels|)
  {
    var s := sortedScoresLabels;
    var lastScore := s[0].0;
    var tp: nat := if IsPositive(s[0].1) then 1 else 0;
    var fp: nat := 1 - tp;
    fps, tps, thresholds := [], [], [];
    ghost var cuts: seq<nat> := [];
    var i := 1;
    while i < |s|
      invariant 1 <= i <= |s|
      invariant lastScore == s[i - 1].0
      invariant tp == Positives(s, i) && fp + tp == i
      invariant cuts == ChangePoints(s, i)
      invariant PointsAt(s, cuts, fps, tps, thresholds)
    {
      var score := s[i].0;
      var labelValue := s[i].1;
      if !IsZero(score - lastScore) {
        PointsAtChange(s, cuts, fps, tps, thresholds, i, fp, tp, lastScore);
        cuts := cuts + [i];
        fps := fps + [fp];
        tps := tps + [tp];
        thresholds := thresholds + [lastScore];
      }
      var c: nat := if IsPositive(labelValue) then 1 else 0;
      tp := tp + c;
      fp := fp + (1 - c);
      lastScore := score;
      i := i + 1;
    }
    PointsAtSnoc(s, cuts, fps, tps, thresholds, |s|, fp, tp, lastScore);
    cuts := cuts + [|s|];
    fps := fps + [fp];
    tps := tps + [tp];
    thresholds := thresholds + [lastScore];
    PointsLast(s, cuts, fps, tps, thresholds);
    PointsMonotone(s, fps, tps, thresholds);
  }

  /** Two points, the earlier one first: its counts are no larger and its sum is smaller. */
  lemma PointsPair(s: seq<(real, real)>, fps: seq<nat>, tps: seq<nat>, thresholds: seq<real>, a: nat, b: nat)
    requires |s| > 0 && PointsAt(s, Cuts(s), fps, tps, thresholds) && a < b < |fps|
    ensures fps[a] <= fps[b] && tps[a] <= tps[b] && fps[a] + tps[a] < fps[b] + tps[b]
  {
    var cuts := Cuts(s);
    assert tps[a] == Positives(s, cuts[a]) && fps[a] + tps[a] == cuts[a];
    assert tps[b] == Positives(s, cuts[b]) && fps[b] + tps[b] == cuts[b];
    FpsTpsMonotone(s, a, b);
  }

  /** Lines 124-137: along the points the counts never fall and their sum strictly grows. */
  lemma PointsMonotone(s: seq<(real, real)>, fps: seq<nat>, tps: seq<nat>, thresholds: seq<real>)
    requires |s| > 0 && PointsAt(s, Cuts(s), fps, tps, thresholds)
    ensures forall a, b :: 0 <= a < b < |fps| ==> fps[a] <= fps[b] && tps[a] <= tps[b] && fps[a] + tps[a] < fps[b] + tps[b]
  {
    forall a, b | 0 <= a < b < |fps|
      ensures fps[a] <= fps[b] && tps[a] <= tps[b] && fps[a] + tps[a] < fps[b] + tps[b]
    {
      PointsPair(s, fps, tps, thresholds, a, b);
    }
  }

  /**
   * Lines 135-137: the last point, taken at the end, counts every pair,
   * and its true positives are all the positives.
   */
  lemma PointsLast(s: seq<(real, real)>, cuts: seq<nat>, fps: seq<nat>, tps: seq<nat>, thresholds: seq<real>)
    requires PointsAt(s, cuts, fps, tps, thresholds) && |cuts| > 0 && cuts[|cuts| - 1] == |s|
    ensures fps[|fps| - 1] + tps[|fps| - 1] == |s| && tps[|fps| - 1] == Positives(s, |s|)
  {
    var last := |cuts| - 1;
    assert tps[last] == Positives(s, cuts[last]);
  }

  /**
   * Lines 124-137: along the cuts the positives and the negatives before
   * the cut never fall, and the cut itself strictly grows.
   */
  lemma FpsTpsMonotone(s: seq<(real, real)>, a: nat, b: nat)
    requires |s| > 0 && a < b < |Cuts(s)|
    ensures var cuts := Cuts(s);
      Positives(s, cuts[a]) <= Positives(s, cuts[b]) &&
      cuts[a] - Positives(s, cuts[a]) <= cuts[b] - Positives(s, cuts[b]) &&
      cuts[a] < cuts[b]
  {
    var cuts := Cuts(s);
    PositivesPrefix(s, cuts[a], cuts[b]);
  }

  /** Lines 125-129: with all scores equal there is a single point, at the end. */
  lemma {:induction false} EqualScoresOnePoint(s: seq<(real, real)>, i: nat)
    requires i <= |s| && forall k :: 0 <= k < |s| ==> s[k].0 == s[0].0
    ensures ChangePoints(s, i) == []
  {
    if i > 1 {
      EqualScoresOnePoint(s, i - 1);
    }
  }
}
