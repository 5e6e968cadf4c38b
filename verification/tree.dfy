/**
 * The regression tree of src/commons/tree.rs: six parallel vectors indexed
 * by node, grown by splitting a node into two fresh children, and walked
 * from the root to a leaf to predict.
 *
 * Node indices, feature indices and depths are `u16` in the source; the
 * casts to `u16` are written out, and a `num_leaves` that would pass the
 * `u16` range (a panic in the source) is excluded by a precondition.
 * Features, thresholds and predictions are `f32` there and `real` here.
 */
module Trees {
  import opened Wrappers

  /** One past the largest `u16`. */
  const U16_LIMIT: nat := 0x1_0000

  /** Line 28 of src/commons/mod.rs: the tolerance of `is_zero`. */
  const ALMOST_ZERO: real := 0.00000001

  /** Lines 82-95 of src/commons/mod.rs: `get_sign(a) == 0`. */
  predicate IsZero(a: real) {
    -ALMOST_ZERO <= a <= ALMOST_ZERO
  }

  /** Node `i` as the six vectors hold it. */
  datatype Node = Node(left: nat, right: nat, split: Option<nat>, threshold: real, predict: real, depth: nat)

  function NodesOf(left: seq<nat>, right: seq<nat>, split: seq<Option<nat>>, threshold: seq<real>,
                   predicts: seq<real>, depth: seq<nat>): (ns: seq<Node>)
    requires |right| == |split| == |threshold| == |predicts| == |depth| == |left|
    ensures |ns| == |left|
    ensures forall i :: 0 <= i < |ns| ==>
      ns[i] == Node(left[i], right[i], split[i], threshold[i], predicts[i], depth[i])
  {
    seq(|left|, i requires 0 <= i < |left| => Node(left[i], right[i], split[i], threshold[i], predicts[i], depth[i]))
  }

  /**
   * Every split node's children come after it, so walking down always
   * ends; a node is no deeper than its index.
   */
  ghost predicate WellLinked(ns: seq<Node>) {
    |ns| >= 1 &&
    forall i :: 0 <= i < |ns| ==>
      ns[i].depth <= i &&
      (ns[i].split.Some? ==> i < ns[i].left < |ns| && i < ns[i].right < |ns|)
  }

  /** Every feature index the tree tests is a position of `x`. */
  ghost predicate FeaturesFit(ns: seq<Node>, x: seq<real>) {
    forall i :: 0 <= i < |ns| && ns[i].split.Some? ==> ns[i].split.value < |x|
  }

  /**
   * Lines 88-99 as a definition: the leaf reached from node `i`, going left
   * exactly when the split feature is at most the threshold.
   */
  ghost function LeafOf(ns: seq<Node>, x: seq<real>, i: nat): (leaf: nat)
    requires WellLinked(ns) && FeaturesFit(ns, x) && i < |ns|
    ensures i <= leaf < |ns| && ns[leaf].split.None?
    decreases |ns| - i
  {
    match ns[i].split
    case None => i
    case Some(f) =>
      if x[f] <= ns[i].threshold then LeafOf(ns, x, ns[i].left) else LeafOf(ns, x, ns[i].right)
  }

  /** The tree's prediction for `x`: the value of the leaf it reaches. */
  ghost function Predict(ns: seq<Node>, x: seq<real>): real
    requires WellLinked(ns) && FeaturesFit(ns, x)
  {
    ns[LeafOf(ns, x, 0)].predict
  }

  /**
   * Lines 72-86 as a definition: node `parent` tests feature `f` against
   * `t`, and two new leaves `n` and `n + 1` one level deeper take the
   * parent's prediction plus `lp` and `rp`.
   */
  ghost function SplitNodes(ns: seq<Node>, parent: nat, f: nat, t: real, lp: real, rp: real): (r: seq<Node>)
    requires parent < |ns|
    ensures |r| == |ns| + 2
  {
    var p := ns[parent];
    var n := |ns|;
    ns[parent := p.(left := n, right := n + 1, split := Some(f), threshold := t)] +
    [Node(0, 0, None, 0.0, p.predict + lp, p.depth + 1), Node(0, 0, None, 0.0, p.predict + rp, p.depth + 1)]
  }

  /** Splitting keeps the tree well linked. */
  lemma SplitLinked(ns: seq<Node>, parent: nat, f: nat, t: real, lp: real, rp: real)
    requires WellLinked(ns) && parent < |ns|
    ensures WellLinked(SplitNodes(ns, parent, f, t, lp, rp))
  {
    var r := SplitNodes(ns, parent, f, t, lp, rp);
    forall i | 0 <= i < |r|
      ensures r[i].depth <= i && (r[i].split.Some? ==> i < r[i].left < |r| && i < r[i].right < |r|)
    {
      if i >= |ns| {
        assert r[i].depth == ns[parent].depth + 1;
      }
    }
  }

  /** A split on a `u16` feature keeps every split feature in the `u16` range. */
  lemma SplitFeaturesBounded(s: seq<Option<nat>>, p: nat, f: nat)
    requires p < |s| && f < U16_LIMIT
    requires forall i :: 0 <= i < |s| && s[i].Some? ==> s[i].value < U16_LIMIT
    ensures var r := s[p := Some(f)] + [None] + [None];
      forall i :: 0 <= i < |r| && r[i].Some? ==> r[i].value < U16_LIMIT
  {
    var r := s[p := Some(f)] + [None] + [None];
    forall i | 0 <= i < |r| && r[i].Some? ensures r[i].value < U16_LIMIT {
      if i < |s| && i != p {
        assert r[i] == s[i];
      }
    }
  }

  /** The six vectors after a split hold the nodes `SplitNodes` describes. */
  lemma NodesOfSplit(l: seq<nat>, r: seq<nat>, s: seq<Option<nat>>, th: seq<real>, pr: seq<real>, d: seq<nat>,
                     p: nat, f: nat, t: real, lp: real, rp: real)
    requires |r| == |s| == |th| == |pr| == |d| == |l| && p < |l|
    ensures var n := |l|;
      NodesOf(l[p := n] + [0] + [0], (r + [0])[p := n + 1] + [0], s[p := Some(f)] + [None] + [None],
              th[p := t] + [0.0] + [0.0], pr + [pr[p] + lp] + [pr[p] + rp], d + [d[p] + 1] + [d[p] + 1])
      == SplitNodes(NodesOf(l, r, s, th, pr, d), p, f, t, lp, rp)
  {
    var n := |l|;
    var a := NodesOf(l[p := n] + [0] + [0], (r + [0])[p := n + 1] + [0], s[p := Some(f)] + [None] + [None],
                     th[p := t] + [0.0] + [0.0], pr + [pr[p] + lp] + [pr[p] + rp], d + [d[p] + 1] + [d[p] + 1]);
    var b := SplitNodes(NodesOf(l, r, s, th, pr, d), p, f, t, lp, rp);
    forall i | 0 <= i < |a| ensures a[i] == b[i] {
    }
  }

  /**
   * Splitting a leaf reroutes exactly the examples that reached it: they
   * now reach the left child when feature `f` is at most `t`, and the
   * right child otherwise; every other example reaches the same leaf.
   */
  lemma SplitRoutes(ns: seq<Node>, parent: nat, f: nat, t: real, lp: real, rp: real, x: seq<real>)
    requires WellLinked(ns) && FeaturesFit(ns, x) && parent < |ns| && ns[parent].split.None? && f < |x|
    ensures WellLinked(SplitNodes(ns, parent, f, t, lp, rp)) && FeaturesFit(SplitNodes(ns, parent, f, t, lp, rp), x)
    ensures LeafOf(SplitNodes(ns, parent, f, t, lp, rp), x, 0) ==
      if LeafOf(ns, x, 0) != parent then LeafOf(ns, x, 0)
      else if x[f] <= t then |ns| else |ns| + 1
  {
    SplitLinked(ns, parent, f, t, lp, rp);
    SplitRoutesFrom(ns, parent, f, t, lp, rp, x, 0);
  }

  lemma {:induction false} SplitRoutesFrom(ns: seq<Node>, parent: nat, f: nat, t: real, lp: real, rp: real,
                                           x: seq<real>, i: nat)
    requires WellLinked(ns) && FeaturesFit(ns, x) && parent < |ns| && ns[parent].split.None? && f < |x|
    requires i < |ns|
    requires WellLinked(SplitNodes(ns, parent, f, t, lp, rp))
    ensures FeaturesFit(SplitNodes(ns, parent, f, t, lp, rp), x)
    ensures LeafOf(SplitNodes(ns, parent, f, t, lp, rp), x, i) ==
      if LeafOf(ns, x, i) != parent then LeafOf(ns, x, i)
      else if x[f] <= t then |ns| else |ns| + 1
    decreases |ns| - i
  {
    var r := SplitNodes(ns, parent, f, t, lp, rp);
    assert FeaturesFit(r, x) by {
      forall j | 0 <= j < |r| && r[j].split.Some?
        ensures r[j].split.value < |x|
      {
        if j != parent {
          assert r[j] == ns[j];
        }
      }
    }
    if i == parent {
      assert r[|ns|].split.None? && r[|ns| + 1].split.None?;
    } else {
      assert r[i] == ns[i];
      match ns[i].split
      case None =>
      case Some(g) =>
        if x[g] <= ns[i].threshold {
          SplitRoutesFrom(ns, parent, f, t, lp, rp, x, ns[i].left);
        } else {
          SplitRoutesFrom(ns, parent, f, t, lp, rp, x, ns[i].right);
        }
    }
  }

  /**
   * Lines 120-136 as a definition: the same node count and links, the same
   * thresholds, and predictions that differ by at most `ALMOST_ZERO`.
   * Depths are not compared.
   */
  ghost predicate SameTree(a: seq<Node>, b: seq<Node>) {
    |a| == |b| &&
    forall i :: 0 <= i < |a| ==>
      a[i].split == b[i].split && a[i].left == b[i].left && a[i].right == b[i].right &&
      a[i].threshold == b[i].threshold && IsZero(a[i].predict - b[i].predict)
  }

  /** Tree equality is reflexive and symmetric (but, with a tolerance, not transitive). */
  lemma SameTreeReflexive(a: seq<Node>)
    ensures SameTree(a, a)
  {
  }

  lemma SameTreeSymmetric(a: seq<Node>, b: seq<Node>)
    requires SameTree(a, b)
    ensures SameTree(b, a)
  {
    forall i | 0 <= i < |b|
      ensures IsZero(b[i].predict - a[i].predict)
    {
      assert b[i].predict - a[i].predict == -(a[i].predict - b[i].predict);
    }
  }

  /** Predictions `ALMOST_ZERO` apart are equal, but `2 * ALMOST_ZERO` apart are not. */
  lemma SameTreeNotTransitive()
    ensures var a := [Node(0, 0, None, 0.0, 0.0, 0)];
      var b := [Node(0, 0, None, 0.0, ALMOST_ZERO, 0)];
      var c := [Node(0, 0, None, 0.0, 2.0 * ALMOST_ZERO, 0)];
      SameTree(a, b) && SameTree(b, c) && !SameTree(a, c)
  {
    var a := [Node(0, 0, None, 0.0, 0.0, 0)];
    var c := [Node(0, 0, None, 0.0, 2.0 * ALMOST_ZERO, 0)];
    assert a[0].predict - c[0].predict == -2.0 * ALMOST_ZERO;
    assert !IsZero(a[0].predict - c[0].predict);
  }

  /** After `s` splits of a new tree there are `1 + 2 * s` nodes. */
  lemma FullAfter(numSplits: nat, s: nat)
    requires (numSplits + 1) * 2 < U16_LIMIT
    ensures 1 + 2 * s >= ((numSplits + 1) * 2) % U16_LIMIT <==> s > numSplits
  {
  }

  class Tree {
    var maxLeaves: nat
    var numLeaves: nat
    var leftChild: seq<nat>
    var rightChild: seq<nat>
    var splitFeature: seq<Option<nat>>
    var threshold: seq<real>
    var predicts: seq<real>
    var leafDepth: seq<nat>

    /** The six vectors have one entry per node. */
    ghost predicate Aligned()
      reads this
    {
      |leftChild| == numLeaves && |rightChild| == numLeaves && |splitFeature| == numLeaves &&
      |threshold| == numLeaves && |predicts| == numLeaves && |leafDepth| == numLeaves
    }

    ghost function Nodes(): (ns: seq<Node>)
      requires Aligned()
      reads this
      ensures |ns| == numLeaves
    {
      NodesOf(leftChild, rightChild, splitFeature, threshold, predicts, leafDepth)
    }

    ghost predicate Valid()
      reads this
    {
      Aligned() && WellLinked(Nodes()) && numLeaves < U16_LIMIT && maxLeaves < U16_LIMIT &&
      forall i :: 0 <= i < numLeaves && splitFeature[i].Some? ==> splitFeature[i].value < U16_LIMIT
    }

    /** Lines 43-61: one leaf, the root, predicting 0 at depth 0. */
    constructor (numSplits: nat)
      ensures Valid() && maxLeaves == ((numSplits + 1) * 2) % U16_LIMIT
      ensures Nodes() == [Node(0, 0, None, 0.0, 0.0, 0)]
    {
      maxLeaves := ((numSplits + 1) * 2) % U16_LIMIT;
      numLeaves := 0;
      leftChild, rightChild, splitFeature := [], [], [];
      threshold, predicts, leafDepth := [], [], [];
      new;
      AddNewNode(0.0, 0);
      assert Nodes() == [Node(0, 0, None, 0.0, 0.0, 0)];
    }

    /**
     * Lines 109-117: a new leaf, last, with no children, no split, a zero
     * threshold and the given prediction and depth.
     */
    method AddNewNode(predict: real, depth: nat)
      requires Aligned() && numLeaves + 1 < U16_LIMIT
      modifies this
      ensures Aligned() && numLeaves == old(numLeaves) + 1 && maxLeaves == old(maxLeaves)
      ensures leftChild == old(leftChild) + [0] && rightChild == old(rightChild) + [0]
      ensures splitFeature == old(splitFeature) + [None] && threshold == old(threshold) + [0.0]
      ensures predicts == old(predicts) + [predict] && leafDepth == old(leafDepth) + [depth]
    {
      numLeaves := numLeaves + 1;
      leftChild := leftChild + [0];
      rightChild := rightChild + [0];
      splitFeature := splitFeature + [None];
      threshold := threshold + [0.0];
      predicts := predicts + [predict];
      leafDepth := leafDepth + [depth];
    }

    /**
     * Lines 72-86: split `parent` on feature `feature as u16` at `t`; the
     * new children are the next two nodes, and their indices are returned.
     * Indexing a missing parent panics, and so does passing the `u16`
     * range of `num_leaves`.
     */
    method Split(parent: nat, feature: nat, t: real, leftPredict: real, rightPredict: real)
      returns (left: nat, right: nat)
      requires Valid() && parent < numLeaves && numLeaves + 2 < U16_LIMIT
      modifies this
      ensures Valid() && maxLeaves == old(maxLeaves) && numLeaves == old(numLeaves) + 2
      ensures left == old(numLeaves) && right == old(numLeaves) + 1
      ensures Nodes() == SplitNodes(old(Nodes()), parent, feature % U16_LIMIT, t, leftPredict, rightPredict)
    {
      ghost var l0, r0, s0, th0, pr0, d0 := leftChild, rightChild, splitFeature, threshold, predicts, leafDepth;
      var predict := predicts[parent];
      var parentDepth := leafDepth[parent];
      splitFeature := splitFeature[parent := Some(feature % U16_LIMIT)];
      threshold := threshold[parent := t];
      leftChild := leftChild[parent := numLeaves];
      AddNewNode(predict + leftPredict, parentDepth + 1);
      rightChild := rightChild[parent := numLeaves];
      AddNewNode(predict + rightPredict, parentDepth + 1);
      left, right := leftChild[parent], rightChild[parent];
      ghost var n := |l0|;
      assert leftChild == l0[parent := n] + [0] + [0] && rightChild == (r0 + [0])[parent := n + 1] + [0];
      assert splitFeature == s0[parent := Some(feature % U16_LIMIT)] + [None] + [None];
      assert threshold == th0[parent := t] + [0.0] + [0.0];
      assert predicts == pr0 + [pr0[parent] + leftPredict] + [pr0[parent] + rightPredict];
      assert leafDepth == d0 + [d0[parent] + 1] + [d0[parent] + 1];
      NodesOfSplit(l0, r0, s0, th0, pr0, d0, parent, feature % U16_LIMIT, t, leftPredict, rightPredict);
      SplitLinked(NodesOf(l0, r0, s0, th0, pr0, d0), parent, feature % U16_LIMIT, t, leftPredict, rightPredict);
      SplitFeaturesBounded(s0, parent, feature % U16_LIMIT);
    }

    /**
     * Lines 88-99: walk from the root, left when the split feature is at
     * most the threshold, to a leaf; its index and prediction.
     */
    method GetLeafIndexPrediction(x: seq<real>) returns (node: nat, predict: real)
      requires Valid() && FeaturesFit(Nodes(), x)
      ensures node == LeafOf(Nodes(), x, 0) && splitFeature[node].None?
      ensures predict == predicts[node] && predict == Predict(Nodes(), x)
    {
      ghost var ns := Nodes();
      node := 0;
      while splitFeature[node].Some?
        invariant node < numLeaves && LeafOf(ns, x, node) == LeafOf(ns, x, 0)
        decreases numLeaves - node
      {
        assert ns[node].split == splitFeature[node];
        var f := splitFeature[node].value;
        node := if x[f] <= threshold[node] then leftChild[node] else rightChild[node];
      }
      assert ns[node].split.None?;
      predict := predicts[node];
    }

    /** Line 105-107. */
    function IsFullTree(): (full: bool)
      reads this
      ensures full <==> numLeaves >= maxLeaves
    {
      numLeaves >= maxLeaves
    }

    /** Lines 27-40: a new tree with the same vectors. */
    method Clone() returns (t: Tree)
      ensures fresh(t) && t.maxLeaves == maxLeaves && t.numLeaves == numLeaves
      ensures t.leftChild == leftChild && t.rightChild == rightChild && t.splitFeature == splitFeature
      ensures t.threshold == threshold && t.predicts == predicts && t.leafDepth == leafDepth
    {
      t := new Tree.Copy(this);
    }

    constructor Copy(other: Tree)
      ensures maxLeaves == other.maxLeaves && numLeaves == other.numLeaves
      ensures leftChild == other.leftChild && rightChild == other.rightChild && splitFeature == other.splitFeature
      ensures threshold == other.threshold && predicts == other.predicts && leafDepth == other.leafDepth
    {
      maxLeaves, numLeaves := other.maxLeaves, other.numLeaves;
      leftChild, rightChild, splitFeature := other.leftChild, other.rightChild, other.splitFeature;
      threshold, predicts, leafDepth := other.threshold, other.predicts, other.leafDepth;
    }

    /**
     * Lines 120-136: equal node counts, splits and links over the first
     * `num_leaves` nodes, then a loop over the thresholds and predictions.
     */
    method Equals(other: Tree) returns (eq: bool)
      requires Aligned() && other.Aligned()
      ensures eq <==> SameTree(Nodes(), other.Nodes())
    {
      var k := numLeaves;
      if k == other.numLeaves && splitFeature[..k] == other.splitFeature[..k] &&
         leftChild[..k] == other.leftChild[..k] && rightChild[..k] == other.rightChild[..k] {
        var i := 0;
        while i < k
          invariant 0 <= i <= k
          invariant forall j :: 0 <= j < i ==>
            threshold[j] == other.threshold[j] && IsZero(predicts[j] - other.predicts[j])
        {
          if threshold[i] != other.threshold[i] || !IsZero(predicts[i] - other.predicts[i]) {
            assert Nodes()[i].threshold == threshold[i] && other.Nodes()[i].threshold == other.threshold[i];
            return false;
          }
          i := i + 1;
        }
        assert forall j :: 0 <= j < k ==> splitFeature[..k][j] == other.splitFeature[..k][j];
        assert forall j :: 0 <= j < k ==> leftChild[..k][j] == other.leftChild[..k][j];
        assert forall j :: 0 <= j < k ==> rightChild[..k][j] == other.rightChild[..k][j];
        return true;
      }
      if k == other.numLeaves {
        if splitFeature[..k] != other.splitFeature[..k] {
          var j :| 0 <= j < k && splitFeature[j] != other.splitFeature[j];
          assert Nodes()[j].split != other.Nodes()[j].split;
        } else if leftChild[..k] != other.leftChild[..k] {
          var j :| 0 <= j < k && leftChild[j] != other.leftChild[j];
          assert Nodes()[j].left != other.Nodes()[j].left;
        } else {
          var j :| 0 <= j < k && rightChild[j] != other.rightChild[j];
          assert Nodes()[j].right != other.Nodes()[j].right;
        }
      }
      return false;
    }
  }
}
