/**
 * The boosted model of src/commons/model.rs: an append-only list of trees
 * with a `base_size` marking the trees already known to the reader.
 *
 * The parallel sum of line 26 is a sum of reals here, in list order; the
 * order of `f32` additions is not modelled.
 */
module Models {
  import opened Wrappers
  import opened Trees

  /** Every tree is valid and tests only features that `x` has. */
  ghost predicate Scorable(trees: seq<Tree>, x: seq<real>)
    reads trees
  {
    forall i :: 0 <= i < |trees| ==> trees[i].Valid() && FeaturesFit(trees[i].Nodes(), x)
  }

  /** The sum of the trees' predictions for `x`, first tree first. */
  ghost function SumPredict(trees: seq<Tree>, x: seq<real>): real
    requires Scorable(trees, x)
    reads trees
  {
    if trees == [] then 0.0
    else SumPredict(trees[..|trees| - 1], x) + Predict(trees[|trees| - 1].Nodes(), x)
  }

  /**
   * The score of a longer list is the score of a prefix plus the score of
   * the rest, so a score can be brought up to date with the new trees only.
   */
  lemma {:induction false} SumPredictSplit(ts: seq<Tree>, us: seq<Tree>, x: seq<real>)
    requires Scorable(ts, x) && Scorable(us, x)
    ensures Scorable(ts + us, x)
    ensures SumPredict(ts + us, x) == SumPredict(ts, x) + SumPredict(us, x)
    decreases |us|
  {
    assert Scorable(ts + us, x) by {
      forall i | 0 <= i < |ts + us|
        ensures (ts + us)[i].Valid() && FeaturesFit((ts + us)[i].Nodes(), x)
      {
        if i >= |ts| {
          assert (ts + us)[i] == us[i - |ts|];
        }
      }
    }
    if us != [] {
      var init := us[..|us| - 1];
      assert Scorable(init, x) by {
        forall i | 0 <= i < |init|
          ensures init[i].Valid() && FeaturesFit(init[i].Nodes(), x)
        {
          assert init[i] == us[i];
        }
      }
      SumPredictSplit(ts, init, x);
      assert (ts + us)[..|ts + us| - 1] == ts + init;
      assert (ts + us)[|ts + us| - 1] == us[|us| - 1];
      assert SumPredict(ts + us, x) == SumPredict(ts + init, x) + Predict(us[|us| - 1].Nodes(), x);
    } else {
      assert ts + us == ts;
    }
  }

  /** Each tree of `trees` in turn adds its prediction to the sum. */
  lemma SumPredictSteps(trees: seq<Tree>, x: seq<real>)
    requires Scorable(trees, x)
    ensures forall i :: 0 <= i <= |trees| ==> Scorable(trees[..i], x)
    ensures forall i :: 0 <= i < |trees| ==>
      SumPredict(trees[..i + 1], x) == SumPredict(trees[..i], x) + Predict(trees[i].Nodes(), x)
  {
    forall i | 0 <= i < |trees|
      ensures SumPredict(trees[..i + 1], x) == SumPredict(trees[..i], x) + Predict(trees[i].Nodes(), x)
    {
      assert trees[..i + 1][..i] == trees[..i];
    }
  }

  class Model {
    var models: seq<Tree>
    var baseSize: nat

    /** Lines 14-19: no trees, base size 0. */
    constructor ()
      ensures models == [] && baseSize == 0
    {
      models := [];
      baseSize := 0;
    }

    /** Lines 21-23. */
    function Size(): (n: nat)
      reads this
      ensures n == |models|
    {
      |models|
    }

    /**
     * Lines 25-31: the summed predictions of the trees from `version` on,
     * and the pair (model size, `version`).  Slicing from a `version`
     * beyond the size panics.
     */
    method GetPrediction(x: seq<real>, version: nat) returns (pred: real, sizes: (nat, nat))
      requires version <= |models| && Scorable(models[version..], x)
      ensures pred == SumPredict(models[version..], x)
      ensures sizes == (|models|, version)
    {
      var trees := models[version..];
      SumPredictSteps(trees, x);
      pred := 0.0;
      var i := 0;
      while i < |trees|
        invariant 0 <= i <= |trees|
        invariant pred == old(SumPredict(trees[..i], x))
      {
        assert old(trees[i].Valid() && FeaturesFit(trees[i].Nodes(), x));
        var _, p := trees[i].GetLeafIndexPrediction(x);
        assert p == old(Predict(trees[i].Nodes(), x));
        pred := pred + p;
        i := i + 1;
      }
      assert trees[..i] == trees;
      sizes := (Size(), version);
    }

    /** Lines 33-35: the tree goes last. */
    method Append(updateTree: Tree)
      modifies this
      ensures models == old(models) + [updateTree] && baseSize == old(baseSize)
    {
      models := models + [updateTree];
    }

    /**
     * Lines 37-43: nothing while the model has no tree past `base_size`,
     * otherwise a copy of the last tree.
     */
    method GetLastNewTree() returns (r: Option<Tree>)
      ensures r.None? <==> |models| <= baseSize
      ensures r.Some? ==> fresh(r.value) && SameVectors(r.value, models[|models| - 1])
    {
      if Size() <= baseSize {
        return None;
      }
      var t := models[|models| - 1].Clone();
      return Some(t);
    }

    /** Lines 45-47: every tree so far is now part of the base. */
    method SetBaseSize()
      modifies this
      ensures baseSize == |models| && models == old(models)
    {
      baseSize := Size();
    }
  }

  /** `a` holds the same vectors as `b`. */
  ghost predicate SameVectors(a: Tree, b: Tree)
    reads a, b
  {
    a.maxLeaves == b.maxLeaves && a.numLeaves == b.numLeaves &&
    a.leftChild == b.leftChild && a.rightChild == b.rightChild && a.splitFeature == b.splitFeature &&
    a.threshold == b.threshold && a.predicts == b.predicts && a.leafDepth == b.leafDepth
  }

  /**
   * Lines 37-47: right after `set_base_size` there is no new tree, and
   * after one more `append` the new tree is the appended one.
   */
  method BaseSizeHidesOldTrees(m: Model, t: Tree) returns (before: Option<Tree>, after: Option<Tree>)
    modifies m
    ensures before.None?
    ensures after.Some? && SameVectors(after.value, t)
  {
    m.SetBaseSize();
    before := m.GetLastNewTree();
    m.Append(t);
    after := m.GetLastNewTree();
  }
}
