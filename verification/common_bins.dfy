/**
 * Feature discretisation of src/commons/bins.rs: the distinct values seen
 * on one feature, the thresholds (`Bins`) drawn from them, and the binary
 * search that maps a value to its bin.
 *
 * Feature values are `f32` in the source and `real` here; only their
 * order and, in the booster variant, their midpoints matter.
 */
module CommonBins {

  /** One entry of the `distinct` tree map: a value and how often it was seen. */
  datatype Entry = Entry(key: real, count: nat)

  /** Keys in strictly increasing order, as a `BTreeMap` iterates them. */
  predicate KeysIncreasing(es: seq<Entry>) {
    forall i :: 0 < i < |es| ==> es[i - 1].key < es[i].key
  }

  predicate CountsPositive(es: seq<Entry>) {
    forall i :: 0 <= i < |es| ==> es[i].count > 0
  }

  /** How often `x` was seen. */
  function CountOf(es: seq<Entry>, x: real): nat {
    if es == [] then 0
    else (if es[0].key == x then es[0].count else 0) + CountOf(es[1..], x)
  }

  function SumCounts(es: seq<Entry>): nat {
    if es == [] then 0 else SumCounts(es[..|es| - 1]) + es[|es| - 1].count
  }

  function Keys(es: seq<Entry>): (ks: set<real>)
    ensures forall i :: 0 <= i < |es| ==> es[i].key in ks
  {
    if es == [] then {} else {es[0].key} + Keys(es[1..])
  }

  /**
   * `entry(val).or_insert(0)` followed by `+= 1`: bump the count of `v`,
   * inserting it in key order when it is new.
   */
  function Bump(es: seq<Entry>, v: real): (r: seq<Entry>)
    ensures |r| > 0 && r[0].key == (if es == [] || v < es[0].key then v else es[0].key)
    ensures KeysIncreasing(es) ==> KeysIncreasing(r)
    ensures CountsPositive(es) ==> CountsPositive(r)
  {
    if es == [] then [Entry(v, 1)]
    else if v < es[0].key then [Entry(v, 1)] + es
    else if v == es[0].key then [Entry(v, es[0].count + 1)] + es[1..]
    else [es[0]] + Bump(es[1..], v)
  }

  /** Bumping `v` adds one to the count of `v` and leaves every other count. */
  lemma {:induction false} BumpCount(es: seq<Entry>, v: real, x: real)
    ensures CountOf(Bump(es, v), x) == CountOf(es, x) + (if x == v then 1 else 0)
  {
    if es == [] {
    } else if v < es[0].key {
      assert Bump(es, v)[1..] == es;
    } else if v == es[0].key {
      assert Bump(es, v)[1..] == es[1..];
    } else {
      assert Bump(es, v)[1..] == Bump(es[1..], v);
      BumpCount(es[1..], v, x);
    }
  }

  lemma {:induction false} SumCountsFront(es: seq<Entry>)
    requires es != []
    ensures SumCounts(es) == es[0].count + SumCounts(es[1..])
    decreases |es|
  {
    if |es| > 1 {
      assert es[1..][..|es[1..]| - 1] == es[..|es| - 1][1..];
      SumCountsFront(es[..|es| - 1]);
    } else {
      assert es[..|es| - 1] == [] && es[1..] == [];
    }
  }

  /** Bumping adds one to the total of the counts. */
  lemma {:induction false} BumpSum(es: seq<Entry>, v: real)
    ensures SumCounts(Bump(es, v)) == SumCounts(es) + 1
  {
    var r := Bump(es, v);
    SumCountsFront(r);
    if es == [] {
      assert r[1..] == [];
    } else if v < es[0].key {
      assert r[1..] == es;
    } else if v == es[0].key {
      assert r[1..] == es[1..];
      SumCountsFront(es);
    } else {
      assert r[1..] == Bump(es[1..], v);
      SumCountsFront(es);
      BumpSum(es[1..], v);
    }
  }

  /** The prefix sums of the counts grow along the sequence. */
  lemma {:induction false} SumCountsPrefix(es: seq<Entry>, i: nat)
    requires i <= |es|
    ensures SumCounts(es[..i]) <= SumCounts(es)
    decreases |es| - i
  {
    if i < |es| {
      SumCountsPrefix(es, i + 1);
      assert es[..i + 1][..i] == es[..i];
    } else {
      assert es[..i] == es;
    }
  }

  /** Lines 27-30 and 82-95: the values seen on one feature, with their counts. */
  class DistinctValues {
    var totalVals: nat
    var distinct: seq<Entry>

    ghost predicate Valid()
      reads this
    {
      KeysIncreasing(distinct) && CountsPositive(distinct) && totalVals == SumCounts(distinct)
    }

    /** Lines 83-88: nothing seen yet. */
    constructor ()
      ensures Valid() && totalVals == 0 && distinct == []
    {
      totalVals := 0;
      distinct := [];
    }

    /** Lines 90-94: one more value seen. */
    method Update(val: real)
      requires Valid()
      modifies this
      ensures Valid()
      ensures totalVals == old(totalVals) + 1
      ensures distinct == Bump(old(distinct), val)
    {
      BumpSum(distinct, val);
      totalVals := totalVals + 1;
      distinct := Bump(distinct, val);
    }
  }

  /** Lines 22-25: `size` thresholds in `vals`. */
  datatype Bins = Bins(size: nat, vals: seq<real>)

  predicate StrictlyIncreasing(s: seq<real>) {
    forall i, j :: 0 <= i < j < |s| ==> s[i] < s[j]
  }

  const USIZE_MAX: nat := 0xFFFF_FFFF_FFFF_FFFF

  /**
   * Line 34: `(total as f32 / size as f32).ceil() as usize`.  A zero
   * `size` divides to infinity (or NaN when `total` is also zero), which
   * the cast saturates to `usize::MAX` (or 0).
   */
  function AvgBinSize(total: nat, size: nat): (avg: nat)
    ensures size > 0 ==> avg * size >= total && (avg == 0 || (avg - 1) * size < total)
    ensures size == 0 ==> avg == if total == 0 then 0 else USIZE_MAX
  {
    if size == 0 then (if total == 0 then 0 else USIZE_MAX)
    else (total + size - 1) / size
  }

  /**
   * Lines 33-54: walk the distinct values in order, accumulating counts,
   * and keep a value as a threshold each time the count since the last
   * threshold exceeds the average bin size; the largest value closes the
   * last bin.
   */
  method NewBins(size: nat, distinctVals: DistinctValues) returns (b: Bins)
    requires distinctVals.Valid()
    ensures b.size == |b.vals|
    ensures StrictlyIncreasing(b.vals)
    ensures forall i :: 0 <= i < |b.vals| ==> b.vals[i] in Keys(distinctVals.distinct)
    ensures var es := distinctVals.distinct;
      es == [] <==> b.vals == []
    ensures var es := distinctVals.distinct;
      es != [] ==> b.vals[|b.vals| - 1] == es[|es| - 1].key
    // a single bin, or none, keeps the largest value alone
    ensures var es := distinctVals.distinct;
      (size == 1 || (size == 0 && distinctVals.totalVals <= USIZE_MAX)) && es != [] ==>
      b.vals == [es[|es| - 1].key]
    // which values are kept, and no more thresholds than bins asked for
    ensures b.vals == Thresholds(distinctVals.distinct, AvgBinSize(distinctVals.totalVals, size))
    ensures size > 0 ==> |b.vals| <= size
  {
    var es := distinctVals.distinct;
    var avgBinSize := AvgBinSize(distinctVals.totalVals, size);
    var lastVal: real := 0.0;
    var counter: nat := 0;
    var vals: seq<real> := [];
    var i := 0;
    while i < |es|
      invariant i <= |es|
      invariant var w := Kept(es, i, avgBinSize); w.vals == vals && w.lastVal == lastVal && w.counter == counter
    {
      var k := es[i].key;
      counter := counter + es[i].count;
      if counter > avgBinSize {
        vals := vals + [k];
        counter := 0;
      }
      lastVal := k;
      i := i + 1;
    }
    ghost var t := Thresholds(es, avgBinSize);
    ThresholdsSpec(es, size, distinctVals.totalVals);
    if counter > 0 {
      vals := vals + [lastVal];
    }
    assert vals == t;
    b := Bins(|vals|, vals);
  }

  /** What the thresholds of lines 38-49 are: ordered keys, closed by the largest. */
  lemma ThresholdsSpec(es: seq<Entry>, size: nat, total: nat)
    requires KeysIncreasing(es) && CountsPositive(es) && total == SumCounts(es)
    ensures var t := Thresholds(es, AvgBinSize(total, size));
      StrictlyIncreasing(t) &&
      (forall i :: 0 <= i < |t| ==> t[i] in Keys(es)) &&
      (es == [] <==> t == []) &&
      (es != [] ==> t[|t| - 1] == es[|es| - 1].key) &&
      ((size == 1 || (size == 0 && total <= USIZE_MAX)) && es != [] ==> t == [es[|es| - 1].key]) &&
      (size > 0 ==> |t| <= size)
  {
    var avg := AvgBinSize(total, size);
    var oneBin := size == 1 || (size == 0 && total <= USIZE_MAX);
    assert oneBin ==> total <= avg;
    KeptInv(es, |es|, avg, total, oneBin);
    var w := Kept(es, |es|, avg);
    KeptAll(es, w.vals, w.lastVal, w.counter, total, oneBin);
    if w.counter > 0 {
      AppendIncreasing(w.vals, w.lastVal);
    }
    if size > 0 {
      KeptBinCount(es, total, size);
    }
  }

  /** The loop's state satisfies `KeptUpTo` after every value. */
  lemma {:induction false} KeptInv(es: seq<Entry>, i: nat, avg: nat, total: nat, oneBin: bool)
    requires KeysIncreasing(es) && CountsPositive(es) && total == SumCounts(es) && i <= |es|
    requires oneBin ==> total <= avg
    ensures var w := Kept(es, i, avg); KeptUpTo(es, i, w.vals, w.lastVal, w.counter, total, oneBin)
  {
    if i > 0 {
      KeptInv(es, i - 1, avg, total, oneBin);
      var w := Kept(es, i - 1, avg);
      KeepStep(es, i - 1, w.vals, w.lastVal, w.counter, avg, total, oneBin);
    }
  }

  /**
   * The state of the loop of lines 38-46: the values kept, the last value
   * visited and the count since the last kept value.
   */
  datatype KeptState = KeptState(vals: seq<real>, lastVal: real, counter: nat)

  /** The loop of lines 38-46 after visiting the first `i` distinct values. */
  ghost function Kept(es: seq<Entry>, i: nat, avg: nat): KeptState
    requires i <= |es|
  {
    if i == 0 then KeptState([], 0.0, 0)
    else
      var w := Kept(es, i - 1, avg);
      var counter := w.counter + es[i - 1].count;
      if counter > avg then KeptState(w.vals + [es[i - 1].key], es[i - 1].key, 0)
      else KeptState(w.vals, es[i - 1].key, counter)
  }

  /** Lines 38-49: the kept values, and the last value when its bin is still open. */
  ghost function Thresholds(es: seq<Entry>, avg: nat): seq<real> {
    var w := Kept(es, |es|, avg);
    if w.counter > 0 then w.vals + [w.lastVal] else w.vals
  }

  /** Every bin closed by a kept value holds more than `avg` values. */
  lemma {:induction false} KeptFill(es: seq<Entry>, i: nat, avg: nat)
    requires i <= |es|
    ensures var w := Kept(es, i, avg);
      |w.vals| * (avg + 1) + w.counter <= PrefixCounts(es, i)
  {
    if i > 0 {
      KeptFill(es, i - 1, avg);
      var w := Kept(es, i - 1, avg);
      MulSucc(|w.vals|, avg + 1);
    }
  }

  /** With the average of line 34, at most `size` thresholds come out. */
  lemma KeptBinCount(es: seq<Entry>, total: nat, size: nat)
    requires size > 0 && CountsPositive(es) && total == SumCounts(es)
    ensures var w := Kept(es, |es|, AvgBinSize(total, size));
      |w.vals| + (if w.counter > 0 then 1 else 0) <= size
  {
    var avg := AvgBinSize(total, size);
    var w := Kept(es, |es|, avg);
    KeptFill(es, |es|, avg);
    PrefixCountsSum(es, |es|);
    assert es[..|es|] == es;
    AtMostBins(|w.vals|, w.counter, avg + 1, size, total);
  }

  lemma MulSucc(k: nat, c: nat)
    ensures (k + 1) * c == k * c + c
  {
  }

  /** `k` full bins of at least `c` and an open bin of `r` within `total <= (c - 1) * size`. */
  lemma AtMostBins(k: nat, r: nat, c: nat, size: nat, total: nat)
    requires c > 0 && size > 0 && k * c + r <= total <= (c - 1) * size
    ensures k + (if r > 0 then 1 else 0) <= size
  {
  }

  /**
   * The thresholds kept after visiting the first `i` distinct values, the
   * last of which is `lastVal`, with `counter` counted since the last one.
   */
  ghost predicate KeptUpTo(es: seq<Entry>, i: nat, vals: seq<real>, lastVal: real, counter: nat, total: nat, oneBin: bool)
    requires i <= |es|
  {
    StrictlyIncreasing(vals) &&
    (forall j :: 0 <= j < |vals| ==> vals[j] in Keys(es)) &&
    (i > 0 ==> lastVal == es[i - 1].key) &&
    (vals != [] ==> i > 0 && vals[|vals| - 1] <= lastVal) &&
    (counter > 0 ==> i > 0 && (vals == [] || vals[|vals| - 1] < lastVal)) &&
    (i > 0 && counter == 0 ==> vals != [] && vals[|vals| - 1] == lastVal) &&
    counter <= PrefixCounts(es, i) <= total &&
    (oneBin ==> vals == [])
  }

  /** Visiting the `i`-th value: count it, and keep it when the count passes `avg`. */
  lemma KeepStep(es: seq<Entry>, i: nat, vals: seq<real>, lastVal: real, counter: nat, avg: nat, total: nat, oneBin: bool)
    requires KeysIncreasing(es) && CountsPositive(es) && total == SumCounts(es) && i < |es|
    requires KeptUpTo(es, i, vals, lastVal, counter, total, oneBin) && (oneBin ==> total <= avg)
    ensures counter + es[i].count > avg ==>
      KeptUpTo(es, i + 1, vals + [es[i].key], es[i].key, 0, total, oneBin)
    ensures counter + es[i].count <= avg ==>
      KeptUpTo(es, i + 1, vals, es[i].key, counter + es[i].count, total, oneBin)
  {
    var k := es[i].key;
    assert i > 0 ==> lastVal < k;
    CounterStep(es, i, counter);
    if counter + es[i].count > avg {
      AppendIncreasing(vals, k);
    }
  }

  /** After the last value, the kept thresholds and the open bin. */
  lemma KeptAll(es: seq<Entry>, vals: seq<real>, lastVal: real, counter: nat, total: nat, oneBin: bool)
    requires KeptUpTo(es, |es|, vals, lastVal, counter, total, oneBin)
    ensures StrictlyIncreasing(vals) && forall j :: 0 <= j < |vals| ==> vals[j] in Keys(es)
    ensures es != [] ==> lastVal == es[|es| - 1].key && lastVal in Keys(es)
    ensures vals != [] ==> vals[|vals| - 1] <= lastVal
    ensures counter > 0 ==> es != [] && (vals == [] || vals[|vals| - 1] < lastVal)
    ensures es != [] && counter == 0 ==> vals != [] && vals[|vals| - 1] == lastVal
    ensures es == [] ==> vals == [] && counter == 0
    ensures oneBin ==> vals == [] && counter <= total
  {
  }

  lemma AppendIncreasing(s: seq<real>, x: real)
    requires StrictlyIncreasing(s) && (s == [] || s[|s| - 1] < x)
    ensures StrictlyIncreasing(s + [x])
  {
  }

  /** The total of the counts of the first `i` entries. */
  function PrefixCounts(es: seq<Entry>, i: nat): nat
    requires i <= |es|
  {
    if i == 0 then 0 else PrefixCounts(es, i - 1) + es[i - 1].count
  }

  lemma {:induction false} PrefixCountsSum(es: seq<Entry>, i: nat)
    requires i <= |es|
    ensures PrefixCounts(es, i) == SumCounts(es[..i])
  {
    if i > 0 {
      PrefixCountsSum(es, i - 1);
      assert es[..i][..i - 1] == es[..i - 1];
    }
  }

  /** The counter stays within the running total of the counts. */
  lemma CounterStep(es: seq<Entry>, i: nat, counter: nat)
    requires i < |es| && CountsPositive(es) && counter <= PrefixCounts(es, i)
    ensures 0 < counter + es[i].count <= PrefixCounts(es, i + 1) <= SumCounts(es)
  {
    PrefixCountsSum(es, i + 1);
    SumCountsPrefix(es, i + 1);
  }

  /** Lines 57-59: the number of thresholds. */
  function Len(b: Bins): (n: nat)
    requires b.size == |b.vals|
    ensures n == |b.vals|
  {
    b.size
  }

  /** The number of thresholds at or below `v`. */
  function CountAtMost(s: seq<real>, v: real): nat {
    if s == [] then 0 else (if s[0] <= v then 1 else 0) + CountAtMost(s[1..], v)
  }

  /** When exactly the first `k` elements are at or below `v`, there are `k` of them. */
  lemma {:induction false} CountAtMostSplit(s: seq<real>, v: real, k: nat)
    requires k <= |s|
    requires forall i :: 0 <= i < k ==> s[i] <= v
    requires forall i :: k <= i < |s| ==> v < s[i]
    ensures CountAtMost(s, v) == k
  {
    if s != [] {
      CountAtMostSplit(s[1..], v, if k == 0 then 0 else k - 1);
    }
  }

  /** A larger value has at least as many thresholds at or below it. */
  lemma {:induction false} CountAtMostMonotone(s: seq<real>, v: real, w: real)
    requires v <= w
    ensures CountAtMost(s, v) <= CountAtMost(s, w)
  {
    if s != [] {
      CountAtMostMonotone(s[1..], v, w);
    }
  }

  /**
   * Lines 67-79: binary search for the last threshold at or below `val`,
   * with 0 also standing for "below every threshold".
   */
  method GetSplitIndex(b: Bins, val: real) returns (r: nat)
    requires b.size <= |b.vals|
    ensures b.size == 0 ==> r == 0
    ensures b.size > 0 ==> r < b.size
    ensures r > 0 ==> b.vals[r] <= val
    ensures r + 1 < b.size ==> val < b.vals[r + 1]
    ensures b.size == |b.vals| && StrictlyIncreasing(b.vals) ==>
      r == if CountAtMost(b.vals, val) == 0 then 0 else CountAtMost(b.vals, val) - 1
  {
    var left := 0;
    var right := b.size;
    while left + 1 < right
      invariant left <= right <= b.size && (b.size > 0 ==> left < right)
      invariant left > 0 ==> b.vals[left] <= val
      invariant right < b.size ==> val < b.vals[right]
    {
      var medium := (left + right) / 2;
      if b.vals[medium] <= val {
        left := medium;
      } else {
        right := medium;
      }
    }
    r := left;
    if b.size == |b.vals| && StrictlyIncreasing(b.vals) && b.size > 0 {
      var k := if b.vals[0] <= val then r + 1 else 0;
      CountAtMostSplit(b.vals, val, k);
    }
  }
}
