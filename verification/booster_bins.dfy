/**
 * The booster's variant of feature discretisation, src/booster/bins.rs:
 * thresholds sit halfway between neighbouring distinct values, and the
 * split index of a value is the number of thresholds strictly below it.
 *
 * The booster's `DistinctValues` (lines 71-84) is the same structure as
 * the common one and is taken from `CommonBins`.
 */
module BoosterBins {
  import opened CommonBins

  /** The point halfway between two values. */
  function Midpoint(a: real, b: real): (m: real)
    ensures a < b ==> a < m < b
  {
    (a + b) / 2.0
  }

  /** `t` lies halfway across gap `g`, between values `g - 1` and `g`. */
  ghost predicate MidpointAt(es: seq<Entry>, g: nat, t: real) {
    0 < g < |es| && t == Midpoint(es[g - 1].key, es[g].key)
  }

  /** `t` lies halfway between two neighbouring distinct values. */
  ghost predicate IsGapMidpoint(es: seq<Entry>, t: real) {
    exists g: nat :: MidpointAt(es, g, t)
  }

  /**
   * Lines 23-41: walk the distinct values in order; once the count since
   * the last threshold exceeds `total / size`, place a threshold halfway
   * between the previous value and the current one.
   */
  method NewBins(size: nat, distinctVals: DistinctValues) returns (b: Bins)
    requires size > 0  // line 24 divides by `size`
    requires distinctVals.Valid()
    ensures b.size == |b.vals|
    ensures StrictlyIncreasing(b.vals)
    ensures forall j :: 0 <= j < |b.vals| ==> IsGapMidpoint(distinctVals.distinct, b.vals[j])
    // at most one threshold per gap, and every threshold below the largest value
    ensures var es := distinctVals.distinct;
      |b.vals| < |es| || es == []
    ensures var es := distinctVals.distinct;
      forall j :: 0 <= j < |b.vals| ==> |es| > 1 && es[0].key < b.vals[j] < es[|es| - 1].key
    // a single bin needs no threshold, and `size` bins need fewer than `size`
    ensures size == 1 ==> b.vals == []
    ensures |b.vals| < size
    ensures b.vals == Walk(distinctVals.distinct, |distinctVals.distinct|, Quotient(distinctVals.totalVals, size)).vals
  {
    var es := distinctVals.distinct;
    var avgBinSize := Quotient(distinctVals.totalVals, size);
    var lastVal: real := 0.0;
    var counter: nat := 0;
    var vals: seq<real> := [];
    var i := 0;
    while i < |es|
      invariant i <= |es|
      invariant var w := Walk(es, i, avgBinSize); w.vals == vals && w.lastVal == lastVal && w.counter == counter
    {
      var k := es[i].key;
      if counter > avgBinSize {
        vals := vals + [(lastVal + es[i].key) / 2.0];
        counter := 0;
      }
      counter := counter + es[i].count;
      lastVal := k;
      i := i + 1;
    }
    WalkThresholds(es, avgBinSize, distinctVals.totalVals, vals);
    WalkBinCount(es, distinctVals.totalVals, size);
    b := Bins(|vals|, vals);
  }

  /** Line 24: integer division of the count of values by the number of bins. */
  function Quotient(total: nat, size: nat): (q: nat)
    requires size > 0
    ensures q * size <= total < (q + 1) * size
    ensures size == 1 ==> q == total
  {
    total / size
  }

  /**
   * The state of the loop of lines 27-40: the thresholds placed, the gap
   * each lies in (threshold `j` lies between values `gaps[j] - 1` and
   * `gaps[j]`), the last value visited and the count since the last
   * threshold.
   */
  datatype Walked = Walked(vals: seq<real>, gaps: seq<nat>, lastVal: real, counter: nat)

  /** The loop of lines 27-40 after visiting the first `i` distinct values. */
  ghost function Walk(es: seq<Entry>, i: nat, avg: nat): Walked
    requires i <= |es|
  {
    if i == 0 then Walked([], [], 0.0, 0)
    else
      var w := Walk(es, i - 1, avg);
      if w.counter > avg then Walked(w.vals + [Midpoint(w.lastVal, es[i - 1].key)], w.gaps + [i - 1], es[i - 1].key, es[i - 1].count)
      else Walked(w.vals, w.gaps, es[i - 1].key, w.counter + es[i - 1].count)
  }

  /** The thresholds of the whole walk: ordered gap midpoints inside the range of the values. */
  lemma WalkThresholds(es: seq<Entry>, avg: nat, total: nat, vals: seq<real>)
    requires KeysIncreasing(es) && CountsPositive(es) && total == SumCounts(es)
    requires vals == Walk(es, |es|, avg).vals
    ensures StrictlyIncreasing(vals)
    ensures forall j :: 0 <= j < |vals| ==> IsGapMidpoint(es, vals[j])
    ensures |vals| < |es| || es == []
    ensures forall j :: 0 <= j < |vals| ==> |es| > 1 && es[0].key < vals[j] < es[|es| - 1].key
    ensures total <= avg ==> vals == []
  {
    var w := Walk(es, |es|, avg);
    WalkShape(es, |es|, avg);
    WalkMidpoints(es, |es|, avg);
    WalkBounds(es, |es|, avg);
    WalkIncreasing(es, |es|, avg);
    WalkCounter(es, |es|, avg, total);
    forall j | 0 <= j < |w.vals|
      ensures IsGapMidpoint(es, w.vals[j])
    {
      assert MidpointAt(es, w.gaps[j], w.vals[j]);
    }
  }

  /** At most one threshold per gap visited, and the last value visited. */
  lemma {:induction false} WalkShape(es: seq<Entry>, i: nat, avg: nat)
    requires i <= |es|
    ensures var w := Walk(es, i, avg);
      (i == 0 ==> w.counter == 0) &&
      (i > 0 ==> w.lastVal == es[i - 1].key) &&
      (w.vals != [] ==> |w.vals| < i)
  {
    if i > 0 {
      WalkShape(es, i - 1, avg);
    }
  }

  /** Threshold `j` lies halfway across gap `gaps[j]`. */
  lemma {:induction false} WalkMidpoints(es: seq<Entry>, i: nat, avg: nat)
    requires i <= |es|
    ensures var w := Walk(es, i, avg);
      |w.gaps| == |w.vals| && forall j :: 0 <= j < |w.vals| ==> MidpointAt(es, w.gaps[j], w.vals[j])
  {
    if i > 0 {
      WalkMidpoints(es, i - 1, avg);
      WalkShape(es, i - 1, avg);
    }
  }

  /** Every threshold lies above the smallest value and below the last value visited. */
  lemma {:induction false} WalkBounds(es: seq<Entry>, i: nat, avg: nat)
    requires KeysIncreasing(es) && i <= |es|
    ensures var w := Walk(es, i, avg);
      forall j :: 0 <= j < |w.vals| ==> es[0].key < w.vals[j] < w.lastVal
  {
    if i > 1 {
      WalkBounds(es, i - 1, avg);
      WalkShape(es, i - 1, avg);
      KeysOrdered(es, 0, i - 2);
      assert es[i - 2].key < es[i - 1].key;
    } else if i == 1 {
      WalkShape(es, 0, avg);
    }
  }

  /** The thresholds come out in increasing order. */
  lemma {:induction false} WalkIncreasing(es: seq<Entry>, i: nat, avg: nat)
    requires KeysIncreasing(es) && i <= |es|
    ensures StrictlyIncreasing(Walk(es, i, avg).vals)
  {
    if i > 0 {
      WalkIncreasing(es, i - 1, avg);
      var w := Walk(es, i - 1, avg);
      if w.counter > avg {
        WalkShape(es, i - 1, avg);
        WalkBounds(es, i - 1, avg);
        assert es[i - 2].key < es[i - 1].key;
        AppendIncreasing(w.vals, Midpoint(w.lastVal, es[i - 1].key));
      }
    }
  }

  /**
   * The count since the last threshold never exceeds the values visited;
   * so when `avg` covers every value no threshold is placed.
   */
  lemma {:induction false} WalkCounter(es: seq<Entry>, i: nat, avg: nat, total: nat)
    requires CountsPositive(es) && total == SumCounts(es) && i <= |es|
    ensures var w := Walk(es, i, avg);
      w.counter <= PrefixCounts(es, i) <= total && (total <= avg ==> w.vals == [])
  {
    if i > 0 {
      WalkCounter(es, i - 1, avg, total);
      var w := Walk(es, i - 1, avg);
      CounterStep(es, i - 1, if w.counter > avg then 0 else w.counter);
    }
  }

  /** Every bin closed by a threshold holds more than `avg` values. */
  lemma {:induction false} WalkFill(es: seq<Entry>, i: nat, avg: nat)
    requires i <= |es|
    ensures var w := Walk(es, i, avg);
      |w.vals| * (avg + 1) + w.counter <= PrefixCounts(es, i)
  {
    if i > 0 {
      WalkFill(es, i - 1, avg);
    }
  }

  /** With `avg` the quotient of line 24, the walk places fewer than `size` thresholds. */
  lemma WalkBinCount(es: seq<Entry>, total: nat, size: nat)
    requires size > 0 && CountsPositive(es) && total == SumCounts(es)
    ensures |Walk(es, |es|, Quotient(total, size)).vals| < size
  {
    var avg := Quotient(total, size);
    var k := |Walk(es, |es|, avg).vals|;
    WalkFill(es, |es|, avg);
    WalkCounter(es, |es|, avg, total);
    FewerBins(k, avg + 1, size, total);
  }

  /** `k` bins of at least `c` each within `total < c * size` number fewer than `size`. */
  lemma FewerBins(k: nat, c: nat, size: nat, total: nat)
    requires k * c <= total < c * size
    ensures k < size
  {
  }

  lemma {:induction false} KeysOrdered(es: seq<Entry>, i: nat, j: nat)
    requires KeysIncreasing(es) && i <= j < |es|
    ensures es[i].key <= es[j].key
    decreases j - i
  {
    if i < j {
      KeysOrdered(es, i, j - 1);
    }
  }

  /** The number of thresholds strictly below `v`. */
  function CountBelow(s: seq<real>, v: real): nat {
    if s == [] then 0 else (if s[0] < v then 1 else 0) + CountBelow(s[1..], v)
  }

  /** When exactly the first `k` elements are below `v`, there are `k` of them. */
  lemma {:induction false} CountBelowSplit(s: seq<real>, v: real, k: nat)
    requires k <= |s|
    requires forall i :: 0 <= i < k ==> s[i] < v
    requires forall i :: k <= i < |s| ==> v <= s[i]
    ensures CountBelow(s, v) == k
  {
    if s != [] {
      CountBelowSplit(s[1..], v, if k == 0 then 0 else k - 1);
    }
  }

  /** A larger value has at least as many thresholds below it. */
  lemma {:induction false} CountBelowMonotone(s: seq<real>, v: real, w: real)
    requires v <= w
    ensures CountBelow(s, v) <= CountBelow(s, w)
  {
    if s != [] {
      CountBelowMonotone(s[1..], v, w);
    }
  }

  /**
   * Lines 53-68: 0 for a value at or below the first threshold, otherwise
   * the right end of the bracket `vals[r - 1] < val <= vals[r]` found by
   * binary search.
   */
  method GetSplitIndex(b: Bins, val: real) returns (r: nat)
    requires b.size <= |b.vals|
    ensures b.vals == [] || val <= b.vals[0] ==> r == 0
    ensures b.vals != [] && b.vals[0] < val && b.size > 0 ==>
      1 <= r <= b.size && b.vals[r - 1] < val && (r == b.size || val <= b.vals[r])
    ensures b.size == |b.vals| && StrictlyIncreasing(b.vals) ==> r == CountBelow(b.vals, val)
  {
    if |b.vals| <= 0 || val <= b.vals[0] {
      if b.size == |b.vals| && StrictlyIncreasing(b.vals) {
        CountBelowSplit(b.vals, val, 0);
      }
      return 0;
    }
    var left := 0;
    var right := b.size;
    while left + 1 < right
      invariant left <= right <= b.size && (b.size > 0 ==> left < right)
      invariant b.vals[left] < val
      invariant right < b.size ==> val <= b.vals[right]
    {
      var medium := (left + right) / 2;
      if val <= b.vals[medium] {
        right := medium;
      } else {
        left := medium;
      }
    }
    r := right;
    if b.size == |b.vals| && StrictlyIncreasing(b.vals) {
      CountBelowSplit(b.vals, val, r);
    }
  }

  /**
   * Line 53: on thresholds built by `NewBins`, a larger value never gets a
   * smaller split index.
   */
  lemma SplitIndexMonotone(b: Bins, v: real, w: real, r: nat, s: nat)
    requires b.size == |b.vals| && StrictlyIncreasing(b.vals) && v <= w
    requires r == CountBelow(b.vals, v) && s == CountBelow(b.vals, w)
    ensures r <= s
  {
    CountBelowMonotone(b.vals, v, w);
  }
}
