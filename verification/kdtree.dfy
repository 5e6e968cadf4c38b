/**
 * The k-d tree of src/head/scheduler/kdtree.rs: a sample of examples is
 * split at the median of one feature, again and again, until each part
 * is small; the paths to the leaves are the grids handed to scanners.
 *
 * A node is a value here: a stem keeps its split and its two subtrees, a
 * leaf its examples (a stem's own example list is always drained).  The
 * split dimension, random in the source, is an arbitrary number modulo
 * the number of features.  Features are `real`; the `f32` rounding of the
 * median is not modelled.
 */
module KdTrees {
  import LibSvm

  type Example = LibSvm.LabeledData<real>

  /** One test of a grid: feature index, threshold, and whether the feature is at most the threshold. */
  type Condition = (nat, real, bool)
  /** Line 4. */
  type Grid = seq<Condition>

  datatype KdTree =
    | Leaf(examples: seq<Example>)
    | Stem(splitDimension: nat, splitValue: real, left: KdTree, right: KdTree)

  // ----- get_median -----

  predicate Sorted(s: seq<real>) {
    forall i, j :: 0 <= i < j < |s| ==> s[i] <= s[j]
  }

  /** `x` placed into the list `s` before the first larger element. */
  function Insert(x: real, s: seq<real>): (r: seq<real>)
    ensures |r| == |s| + 1
  {
    if s == [] || x <= s[0] then [x] + s else [s[0]] + Insert(x, s[1..])
  }

  /** Inserting adds exactly `x`. */
  lemma {:induction false} InsertMultiset(x: real, s: seq<real>)
    ensures multiset(Insert(x, s)) == multiset(s) + multiset{x}
    decreases |s|
  {
    if s != [] && x > s[0] {
      assert s == [s[0]] + s[1..];
      InsertMultiset(x, s[1..]);
    }
  }

  /** A number no larger than the rest can go in front of a sorted list. */
  lemma ConsSorted(a: real, t: seq<real>)
    requires Sorted(t) && forall k :: 0 <= k < |t| ==> a <= t[k]
    ensures Sorted([a] + t)
  {
    var r := [a] + t;
    forall i, j | 0 <= i < j < |r|
      ensures r[i] <= r[j]
    {
      assert r[j] == t[j - 1];
      if i > 0 {
        assert r[i] == t[i - 1];
      }
    }
  }

  /** A lower bound of `x` and of `s` bounds the list with `x` inserted. */
  lemma InsertBound(a: real, x: real, s: seq<real>)
    requires a <= x && forall k :: 0 <= k < |s| ==> a <= s[k]
    ensures forall k :: 0 <= k < |Insert(x, s)| ==> a <= Insert(x, s)[k]
  {
    InsertMultiset(x, s);
    var r := Insert(x, s);
    forall k | 0 <= k < |r|
      ensures a <= r[k]
    {
      assert r[k] in multiset(r);
      if r[k] != x {
        assert r[k] in multiset(s);
      }
    }
  }

  /** Inserting into a sorted list keeps it sorted and adds exactly `x`. */
  lemma {:induction false} InsertSorted(x: real, s: seq<real>)
    requires Sorted(s)
    ensures Sorted(Insert(x, s)) && multiset(Insert(x, s)) == multiset(s) + multiset{x}
    decreases |s|
  {
    InsertMultiset(x, s);
    if s == [] || x <= s[0] {
      ConsSorted(x, s);
    } else {
      var t := s[1..];
      assert s == [s[0]] + t;
      InsertSorted(x, t);
      InsertBound(s[0], x, t);
      ConsSorted(s[0], Insert(x, t));
    }
  }

  /** The list in ascending order: what the standard sort of line 100 leaves in place. */
  function SortedOf(s: seq<real>): (r: seq<real>)
    ensures |r| == |s|
  {
    if s == [] then [] else Insert(s[|s| - 1], SortedOf(s[..|s| - 1]))
  }

  /** The sorted list is sorted and holds the same numbers. */
  lemma {:induction false} SortedOfSorted(s: seq<real>)
    ensures Sorted(SortedOf(s)) && multiset(SortedOf(s)) == multiset(s)
  {
    if s != [] {
      assert s == s[..|s| - 1] + [s[|s| - 1]];
      SortedOfSorted(s[..|s| - 1]);
      InsertSorted(s[|s| - 1], SortedOf(s[..|s| - 1]));
    }
  }

  /**
   * Lines 98-106: the middle element of the sorted list when its length is
   * odd, the mean of the two middle elements when it is even.  An empty
   * list panics at `mid - 1`.
   */
  function GetMedian(numbers: seq<real>): real
    requires |numbers| > 0
  {
    var sorted := SortedOf(numbers);
    var mid := |sorted| / 2;
    if |sorted| % 2 == 0 then sorted[mid - 1] / 2.0 + sorted[mid] / 2.0 else sorted[mid]
  }

  /**
   * The median splits the sorted list in two halves: everything before the
   * middle is at most the median, everything from the middle on at least.
   */
  lemma MedianSplitsSorted(numbers: seq<real>)
    requires |numbers| > 0
    ensures var sorted := SortedOf(numbers);
      Sorted(sorted) && multiset(sorted) == multiset(numbers) &&
      (forall i :: 0 <= i < |sorted| / 2 ==> sorted[i] <= GetMedian(numbers)) &&
      (forall i :: |sorted| / 2 <= i < |sorted| ==> GetMedian(numbers) <= sorted[i])
  {
    SortedOfSorted(numbers);
    var sorted := SortedOf(numbers);
    var mid := |sorted| / 2;
    var m := GetMedian(numbers);
    if |sorted| % 2 == 0 {
      assert mid >= 1 && sorted[mid - 1] <= sorted[mid];
      assert sorted[mid - 1] <= m <= sorted[mid];
    } else {
      assert m == sorted[mid];
    }
    forall i | 0 <= i < mid
      ensures sorted[i] <= m
    {
      if |sorted| % 2 == 0 {
        assert i == mid - 1 || sorted[i] <= sorted[mid - 1];
      } else {
        assert sorted[i] <= sorted[mid];
      }
    }
    forall i | mid <= i < |sorted|
      ensures m <= sorted[i]
    {
      assert i == mid || sorted[mid] <= sorted[i];
    }
  }

  /** The median is one of the numbers or lies between two of them. */
  lemma MedianBetween(numbers: seq<real>)
    requires |numbers| > 0
    ensures exists i, j :: 0 <= i < |numbers| && 0 <= j < |numbers| && numbers[i] <= GetMedian(numbers) <= numbers[j]
  {
    var sorted := SortedOf(numbers);
    MedianSplitsSorted(numbers);
    assert sorted[0] in multiset(numbers) && sorted[|sorted| - 1] in multiset(numbers);
    var i :| 0 <= i < |numbers| && numbers[i] == sorted[0];
    var j :| 0 <= j < |numbers| && numbers[j] == sorted[|sorted| - 1];
    assert numbers[i] <= GetMedian(numbers) <= numbers[j];
  }

  // ----- create_tree -----

  /** Lines 91-93. */
  predicate BelongsInLeft(example: Example, splitDimension: nat, splitValue: real)
    requires splitDimension < |example.features|
  {
    example.features[splitDimension] <= splitValue
  }

  /** `swap_remove(0)`: the first element goes, the last takes its place. */
  function SwapRemoveFirst(s: seq<Example>): (r: seq<Example>)
    requires |s| > 0
    ensures |r| == |s| - 1 && multiset(r) + multiset{s[0]} == multiset(s)
  {
    if |s| == 1 then []
    else
      assert s == [s[0]] + s[1..|s| - 1] + [s[|s| - 1]];
      [s[|s| - 1]] + s[1..|s| - 1]
  }

  /**
   * Lines 71-80: the examples are drained from the front by `swap_remove`
   * into the left bucket when they belong there and the right one
   * otherwise.  Every example lands in exactly one bucket.
   */
  method Partition(examples: seq<Example>, splitDimension: nat, splitValue: real)
      returns (left: seq<Example>, right: seq<Example>)
    requires forall e :: e in examples ==> splitDimension < |e.features|
    ensures multiset(left) + multiset(right) == multiset(examples)
    ensures forall e :: e in left ==> splitDimension < |e.features| && BelongsInLeft(e, splitDimension, splitValue)
    ensures forall e :: e in right ==> splitDimension < |e.features| && !BelongsInLeft(e, splitDimension, splitValue)
  {
    var rest := examples;
    left, right := [], [];
    while |rest| > 0
      invariant multiset(left) + multiset(right) + multiset(rest) == multiset(examples)
      invariant forall e :: e in left ==> splitDimension < |e.features| && BelongsInLeft(e, splitDimension, splitValue)
      invariant forall e :: e in right ==> splitDimension < |e.features| && !BelongsInLeft(e, splitDimension, splitValue)
      decreases |rest|
    {
      var example := rest[0];
      assert example in multiset(rest);
      assert example in multiset(examples);
      assert example in examples;
      rest := SwapRemoveFirst(rest);
      if BelongsInLeft(example, splitDimension, splitValue) {
        left := left + [example];
      } else {
        right := right + [example];
      }
    }
  }

  /** The examples of all leaves, left to right. */
  function Examples(t: KdTree): seq<Example> {
    match t
    case Leaf(examples) => examples
    case Stem(_, _, left, right) => Examples(left) + Examples(right)
  }

  /**
   * Every stem's split dimension is a feature of its examples, and its
   * left subtree holds exactly the examples at most the split value.
   */
  ghost predicate Routed(t: KdTree) {
    match t
    case Leaf(_) => true
    case Stem(d, v, left, right) =>
      (forall e :: e in Examples(left) ==> d < |e.features| && e.features[d] <= v) &&
      (forall e :: e in Examples(right) ==> d < |e.features| && e.features[d] > v) &&
      Routed(left) && Routed(right)
  }

  /**
   * Line 61: every leaf holds at most `2 * minSize` examples, except one
   * where the fuel ran out.
   */
  ghost predicate LeavesSmall(t: KdTree, minSize: nat, fuel: nat) {
    match t
    case Leaf(examples) => |examples| <= minSize * 2 || fuel == 0
    case Stem(_, _, left, right) => fuel > 0 && LeavesSmall(left, minSize, fuel - 1) && LeavesSmall(right, minSize, fuel - 1)
  }

  /**
   * Lines 60-85: a node with at most `2 * minSize` examples stays a leaf;
   * a larger one is split at the median of an arbitrary feature and both
   * halves are split in turn.  All values may be equal, so that the left
   * half is the whole node again; `fuel` bounds the recursion.  A feature
   * index beyond an example's features panics, and `% 0` panics with no
   * features.
   */
  method CreateTree(examples: seq<Example>, numFeatures: nat, minSize: nat, fuel: nat) returns (t: KdTree)
    requires forall e :: e in examples ==> |e.features| == numFeatures
    requires numFeatures > 0 || |examples| <= minSize * 2
    ensures multiset(Examples(t)) == multiset(examples)
    ensures Routed(t) && LeavesSmall(t, minSize, fuel)
    ensures t.Leaf? <==> |examples| <= minSize * 2 || fuel == 0
    ensures t.Leaf? ==> t.examples == examples
    decreases fuel
  {
    if |examples| <= minSize * 2 || fuel == 0 {
      return Leaf(examples);
    }
    var dim, splitValue := ChooseSplit(examples, numFeatures);
    var leftExamples, rightExamples := Partition(examples, dim, splitValue);
    BagParts(leftExamples, rightExamples, examples);
    var left := CreateTree(leftExamples, numFeatures, minSize, fuel - 1);
    var right := CreateTree(rightExamples, numFeatures, minSize, fuel - 1);
    StemRouted(dim, splitValue, left, right, leftExamples, rightExamples);
    StemSmall(dim, splitValue, left, right, minSize, fuel);
    t := Stem(dim, splitValue, left, right);
  }

  /**
   * Lines 65-69: an arbitrary feature below `numFeatures`, and the median
   * of the examples' values of that feature.
   */
  method ChooseSplit(examples: seq<Example>, numFeatures: nat) returns (dim: nat, splitValue: real)
    requires |examples| > 0 && numFeatures > 0
    requires forall e :: e in examples ==> |e.features| == numFeatures
    ensures dim < numFeatures
    ensures splitValue == GetMedian(seq(|examples|, i requires 0 <= i < |examples| => examples[i].features[dim]))
  {
    var random: nat :| true;
    dim := random % numFeatures;
    var values := seq(|examples|, i requires 0 <= i < |examples| => examples[i].features[dim]);
    splitValue := GetMedian(values);
  }

  /**
   * A split of a sample of equal examples: the median is their common
   * value, so every example goes left and the left half is the whole
   * sample again.  Lines 60-85 stop only on size, so such a sample with
   * more than `2 * minSize` examples is split without end.
   */
  method EqualSampleStaysWhole(examples: seq<Example>, numFeatures: nat)
      returns (left: seq<Example>, right: seq<Example>)
    requires |examples| > 0 && numFeatures > 0 && |examples[0].features| == numFeatures
    requires forall e :: e in examples ==> e == examples[0]
    ensures multiset(left) == multiset(examples) && right == []
  {
    var dim, splitValue := ChooseSplit(examples, numFeatures);
    var values := seq(|examples|, i requires 0 <= i < |examples| => examples[i].features[dim]);
    MedianBetween(values);
    forall i | 0 <= i < |values|
      ensures values[i] == examples[0].features[dim]
    {
      assert examples[i] in examples;
    }
    left, right := Partition(examples, dim, splitValue);
  }

  lemma StemSmall(d: nat, v: real, left: KdTree, right: KdTree, minSize: nat, fuel: nat)
    requires fuel > 0 && LeavesSmall(left, minSize, fuel - 1) && LeavesSmall(right, minSize, fuel - 1)
    ensures LeavesSmall(Stem(d, v, left, right), minSize, fuel)
  {
  }

  /** What is in one of two parts of a bag is in the bag. */
  lemma BagParts(a: seq<Example>, b: seq<Example>, whole: seq<Example>)
    requires multiset(a) + multiset(b) == multiset(whole)
    ensures forall e :: e in a ==> e in whole
    ensures forall e :: e in b ==> e in whole
  {
    forall e | e in a
      ensures e in whole
    {
      assert e in multiset(a);
      assert e in multiset(whole);
    }
    forall e | e in b
      ensures e in whole
    {
      assert e in multiset(b);
      assert e in multiset(whole);
    }
  }

  /** Subtrees built from the two buckets of a partition make a routed stem. */
  lemma StemRouted(d: nat, v: real, left: KdTree, right: KdTree, leftExamples: seq<Example>, rightExamples: seq<Example>)
    requires Routed(left) && Routed(right)
    requires multiset(Examples(left)) == multiset(leftExamples)
    requires multiset(Examples(right)) == multiset(rightExamples)
    requires forall e :: e in leftExamples ==> d < |e.features| && e.features[d] <= v
    requires forall e :: e in rightExamples ==> d < |e.features| && e.features[d] > v
    ensures Routed(Stem(d, v, left, right))
    ensures multiset(Examples(Stem(d, v, left, right))) == multiset(leftExamples) + multiset(rightExamples)
  {
    forall e | e in Examples(left)
      ensures d < |e.features| && e.features[d] <= v
    {
      assert e in multiset(Examples(left));
    }
    forall e | e in Examples(right)
      ensures d < |e.features| && e.features[d] > v
    {
      assert e in multiset(Examples(right));
    }
  }

  // ----- get_leaves -----

  /** Every grid with `c` appended. */
  function Push(grids: seq<Grid>, c: Condition): (r: seq<Grid>)
    ensures |r| == |grids|
    ensures forall i :: 0 <= i < |r| ==> r[i] == grids[i] + [c]
  {
    seq(|grids|, i requires 0 <= i < |grids| => grids[i] + [c])
  }

  function LeafCount(t: KdTree): nat {
    match t
    case Leaf(_) => 1
    case Stem(_, _, left, right) => LeafCount(left) + LeafCount(right)
  }

  /**
   * Lines 41-58: one grid per leaf, left to right: a leaf is the empty
   * grid, and a stem's left grids gain `(dimension, value, true)` at the
   * end, its right grids `(dimension, value, false)`.
   */
  function LeavesOf(t: KdTree): (r: seq<Grid>)
    ensures |r| == LeafCount(t)
    ensures t.Leaf? ==> r == [[]]
    ensures t.Stem? ==>
      (forall i :: 0 <= i < LeafCount(t.left) ==> |r[i]| > 0 && r[i][|r[i]| - 1] == (t.splitDimension, t.splitValue, true)) &&
      (forall i :: LeafCount(t.left) <= i < |r| ==> |r[i]| > 0 && r[i][|r[i]| - 1] == (t.splitDimension, t.splitValue, false))
  {
    match t
    case Leaf(_) => [[]]
    case Stem(d, v, left, right) => Push(LeavesOf(left), (d, v, true)) + Push(LeavesOf(right), (d, v, false))
  }

  /** Lines 49-54: each grid extended in place by `c`. */
  method PushAll(grids: seq<Grid>, c: Condition) returns (r: seq<Grid>)
    ensures r == Push(grids, c)
  {
    r := grids;
    var i := 0;
    while i < |r|
      invariant 0 <= i <= |r| == |grids|
      invariant forall k :: 0 <= k < i ==> r[k] == grids[k] + [c]
      invariant forall k :: i <= k < |r| ==> r[k] == grids[k]
    {
      r := r[i := r[i] + [c]];
      i := i + 1;
    }
  }

  /** Lines 41-58: the grids of both subtrees, extended, left ones first. */
  method GetLeaves(t: KdTree) returns (grids: seq<Grid>)
    ensures grids == LeavesOf(t)
    decreases t
  {
    if t.Leaf? {
      return [[]];
    }
    var leftLeaf := GetLeaves(t.left);
    var rightLeaf := GetLeaves(t.right);
    leftLeaf := PushAll(leftLeaf, (t.splitDimension, t.splitValue, true));
    rightLeaf := PushAll(rightLeaf, (t.splitDimension, t.splitValue, false));
    grids := leftLeaf + rightLeaf;
  }

  /** `x` passes the test `c`: the feature exists and its comparison with the threshold is as required. */
  predicate Holds(x: seq<real>, c: Condition) {
    c.0 < |x| && (x[c.0] <= c.1) == c.2
  }

  /** Lines 132-137 of the test: `x` passes every test of the grid. */
  predicate Satisfies(x: seq<real>, g: Grid) {
    g == [] || (Satisfies(x, g[..|g| - 1]) && Holds(x, g[|g| - 1]))
  }

  /** The number of grids that `x` satisfies. */
  function MatchCount(grids: seq<Grid>, x: seq<real>): nat {
    if grids == [] then 0
    else MatchCount(grids[..|grids| - 1], x) + (if Satisfies(x, grids[|grids| - 1]) then 1 else 0)
  }

  lemma {:induction false} MatchCountAppend(a: seq<Grid>, b: seq<Grid>, x: seq<real>)
    ensures MatchCount(a + b, x) == MatchCount(a, x) + MatchCount(b, x)
    decreases |b|
  {
    if b == [] {
      assert a + b == a;
    } else {
      assert (a + b)[..|a + b| - 1] == a + b[..|b| - 1];
      MatchCountAppend(a, b[..|b| - 1], x);
    }
  }

  /** Appending a test keeps the grids that `x` satisfies when `x` passes it, and none otherwise. */
  lemma {:induction false} MatchCountPush(grids: seq<Grid>, c: Condition, x: seq<real>)
    ensures MatchCount(Push(grids, c), x) == if Holds(x, c) then MatchCount(grids, x) else 0
    decreases |grids|
  {
    if grids != [] {
      var last := grids[|grids| - 1];
      assert Push(grids, c)[..|grids| - 1] == Push(grids[..|grids| - 1], c);
      assert (last + [c])[..|last|] == last;
      MatchCountPush(grids[..|grids| - 1], c, x);
    }
  }

  /** Every split dimension is below `n`. */
  predicate DimsBelow(t: KdTree, n: nat) {
    match t
    case Leaf(_) => true
    case Stem(d, _, left, right) => d < n && DimsBelow(left, n) && DimsBelow(right, n)
  }

  /**
   * Lines 117-145, the commented test: a point with every feature the tree
   * tests satisfies exactly one of its grids.
   */
  lemma {:induction false} ExactlyOneGrid(t: KdTree, x: seq<real>)
    requires DimsBelow(t, |x|)
    ensures MatchCount(LeavesOf(t), x) == 1
  {
    match t
    case Leaf(_) =>
      var none: seq<Grid> := [];
      assert LeavesOf(t)[..0] == none;
    case Stem(d, v, left, right) =>
      ExactlyOneGrid(left, x);
      ExactlyOneGrid(right, x);
      MatchCountPush(LeavesOf(left), (d, v, true), x);
      MatchCountPush(LeavesOf(right), (d, v, false), x);
      MatchCountAppend(Push(LeavesOf(left), (d, v, true)), Push(LeavesOf(right), (d, v, false)), x);
  }

  /** The examples of each leaf, left to right, parallel to `LeavesOf`. */
  function LeafExamples(t: KdTree): (r: seq<seq<Example>>)
    ensures |r| == LeafCount(t)
  {
    match t
    case Leaf(examples) => [examples]
    case Stem(_, _, left, right) => LeafExamples(left) + LeafExamples(right)
  }

  lemma {:induction false} LeafExamplesIn(t: KdTree, i: nat, e: Example)
    requires i < LeafCount(t) && e in LeafExamples(t)[i]
    ensures e in Examples(t)
  {
    match t
    case Leaf(_) =>
    case Stem(_, _, left, right) =>
      if i < LeafCount(left) {
        LeafExamplesIn(left, i, e);
      } else {
        LeafExamplesIn(right, i - LeafCount(left), e);
      }
  }

  /** Lines 41-58 with 73-80: each example of a routed tree satisfies the grid of its own leaf. */
  lemma {:induction false} LeafExamplesSatisfyGrid(t: KdTree, i: nat, e: Example)
    requires Routed(t) && i < LeafCount(t) && e in LeafExamples(t)[i]
    ensures Satisfies(e.features, LeavesOf(t)[i])
  {
    match t
    case Leaf(_) =>
    case Stem(d, v, left, right) =>
      if i < LeafCount(left) {
        LeafExamplesSatisfyGrid(left, i, e);
        LeafExamplesIn(left, i, e);
        var g := LeavesOf(left)[i];
        assert LeavesOf(t)[i] == g + [(d, v, true)];
        assert (g + [(d, v, true)])[..|g|] == g;
      } else {
        var j := i - LeafCount(left);
        LeafExamplesSatisfyGrid(right, j, e);
        LeafExamplesIn(right, j, e);
        var g := LeavesOf(right)[j];
        assert LeavesOf(t)[i] == g + [(d, v, false)];
        assert (g + [(d, v, false)])[..|g|] == g;
      }
  }

  /**
   * Lines 23-28: a tree built from a non-empty sample, with as many
   * features as the first example has.  An empty sample panics at
   * `examples[0]`.
   */
  method NewKdTree(examples: seq<Example>, minSize: nat, fuel: nat) returns (t: KdTree)
    requires |examples| > 0
    requires forall e :: e in examples ==> |e.features| == |examples[0].features|
    requires |examples[0].features| > 0 || |examples| <= minSize * 2
    ensures multiset(Examples(t)) == multiset(examples)
    ensures Routed(t) && LeavesSmall(t, minSize, fuel)
    ensures t.Leaf? <==> |examples| <= minSize * 2 || fuel == 0
  {
    t := CreateTree(examples, |examples[0].features|, minSize, fuel);
  }
}
