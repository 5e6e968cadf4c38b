/**
 * The score buffer of src/buffer_loader/scores_in_mem.rs: the current
 * model's score of every loaded example, brought up to date one batch at
 * a time, with a version (the number of trees applied) per batch.
 *
 * Scores are `f32` in the source and `real` here; rounding is not
 * modelled.  The vectors are sequence fields that the methods reassign.
 */
module ScoresBuffer {

  function Zeros(n: nat): (z: seq<real>)
    ensures |z| == n && forall i :: 0 <= i < n ==> z[i] == 0.0
  {
    seq(n, _ => 0.0)
  }

  function Repeat(n: nat, v: nat): (z: seq<nat>)
    ensures |z| == n && forall i :: 0 <= i < n ==> z[i] == v
  {
    seq(n, _ => v)
  }

  /** `s` with `u[i]` added at `head + i` for every `i < |u|`. */
  ghost function AddAt(s: seq<real>, head: nat, u: seq<real>): (r: seq<real>)
    requires head + |u| <= |s|
    ensures |r| == |s|
  {
    seq(|s|, p requires 0 <= p < |s| => if head <= p < head + |u| then s[p] + u[p - head] else s[p])
  }

  /** Adding scores to a slice changes no entry outside it. */
  lemma AddAtOutside(s: seq<real>, head: nat, u: seq<real>, p: nat)
    requires head + |u| <= |s| && p < |s| && !(head <= p < head + |u|)
    ensures AddAt(s, head, u)[p] == s[p]
  {
  }

  /** Adding `u` and then subtracting it again gives the scores back. */
  lemma AddAtInverse(s: seq<real>, head: nat, u: seq<real>)
    requires head + |u| <= |s|
    ensures AddAt(AddAt(s, head, u), head, seq(|u|, i requires 0 <= i < |u| => -u[i])) == s
  {
    var t := AddAt(AddAt(s, head, u), head, seq(|u|, i requires 0 <= i < |u| => -u[i]));
    assert forall p :: 0 <= p < |s| ==> t[p] == s[p];
  }

  class ScoresInMem {
    const size: nat
    const batchSize: nat
    const numBatch: nat
    var baseNode: nat
    var scoresVersion: seq<nat>
    var baseScores: seq<real>
    var scores: seq<real>
    var relativeScores: seq<real>
    var currLoc: nat
    var currBatchSize: nat
    var scoresSynced: bool

    ghost predicate Valid()
      reads this
    {
      batchSize > 0 && numBatch == (size + batchSize - 1) / batchSize &&
      |scoresVersion| == numBatch && |scores| == |baseScores|
    }

    /** Lines 25-44: every score and version 0, nothing synced.  Line 26 divides by `batchSize`. */
    constructor (size: nat, batchSize: nat)
      requires batchSize > 0
      ensures Valid() && this.size == size && this.batchSize == batchSize
      ensures baseNode == 0 && scoresVersion == Repeat(numBatch, 0)
      ensures baseScores == Zeros(size) && scores == Zeros(size) && relativeScores == Zeros(size)
      ensures currLoc == 0 && currBatchSize == batchSize && !scoresSynced
    {
      this.size := size;
      this.batchSize := batchSize;
      var numBatch := (size + batchSize - 1) / batchSize;
      this.numBatch := numBatch;
      baseNode := 0;
      scoresVersion := Repeat(numBatch, 0);
      baseScores := Zeros(size);
      scores := Zeros(size);
      relativeScores := Zeros(size);
      currLoc := 0;
      currBatchSize := batchSize;
      scoresSynced := false;
    }

    /**
     * Lines 46-52: start every batch at version `baseNode` with scores
     * `baseScores`, and no score relative to them.
     */
    method SetBaseScores(baseNode: nat, baseScores: seq<real>)
      requires Valid()
      modifies this
      ensures Valid()
      ensures this.baseNode == baseNode && scoresVersion == Repeat(numBatch, baseNode)
      ensures this.baseScores == baseScores && scores == baseScores && relativeScores == Zeros(size)
      ensures currLoc == old(currLoc) && currBatchSize == old(currBatchSize) && scoresSynced == old(scoresSynced)
    {
      this.baseNode := baseNode;
      scoresVersion := Repeat(numBatch, baseNode);
      this.baseScores := baseScores;
      scores := baseScores;
      relativeScores := Zeros(size);
    }

    /** Lines 54-57: only once the current batch is synced. */
    function GetRelativeScores(): (r: seq<real>)
      requires scoresSynced
      reads this
      ensures r == relativeScores
    {
      relativeScores
    }

    /** Lines 59-64: the scores of the current batch, once it is synced. */
    function GetAbsoluteScores(): (r: seq<real>)
      requires scoresSynced && currLoc * batchSize + currBatchSize <= |scores|
      reads this
      ensures |r| == currBatchSize
      ensures forall i :: 0 <= i < |r| ==> r[i] == scores[currLoc * batchSize + i]
    {
      scores[currLoc * batchSize..currLoc * batchSize + currBatchSize]
    }

    /** Lines 66-69: batch `currLoc` is now current and not yet synced. */
    method UnsetScoresSync(currLoc: nat)
      modifies this
      ensures !scoresSynced && this.currLoc == currLoc
      ensures scores == old(scores) && baseScores == old(baseScores) && relativeScores == old(relativeScores)
      ensures scoresVersion == old(scoresVersion) && currBatchSize == old(currBatchSize) && baseNode == old(baseNode)
    {
      scoresSynced := false;
      this.currLoc := currLoc;
    }

    /** Lines 71-73. */
    function GetScoresVersion(): (v: nat)
      requires currLoc < |scoresVersion|
      reads this
      ensures v == scoresVersion[currLoc]
    {
      scoresVersion[currLoc]
    }

    /**
     * Lines 75-97: unless already synced, add `updatedScores` to the
     * current batch's scores, recompute its scores relative to the base,
     * record `treeLen` as its version and mark it synced.  The slices
     * and the version index panic when out of range.
     */
    method UpdateScores(updatedScores: seq<real>, treeLen: nat)
      requires Valid()
      requires !scoresSynced ==>
        currLoc * batchSize + |updatedScores| <= |scores| && currLoc < |scoresVersion|
      modifies this
      ensures Valid() && scoresSynced
      ensures baseScores == old(baseScores) && baseNode == old(baseNode) && currLoc == old(currLoc)
      ensures old(scoresSynced) ==> unchanged(this)
      ensures !old(scoresSynced) ==>
        var head := old(currLoc) * batchSize;
        scores == AddAt(old(scores), head, updatedScores) &&
        |relativeScores| == |updatedScores| &&
        (forall i :: 0 <= i < |updatedScores| ==>
           relativeScores[i] == scores[head + i] - baseScores[head + i]) &&
        scoresVersion == old(scoresVersion)[currLoc := treeLen] &&
        currBatchSize == |updatedScores|
    {
      if scoresSynced {
        return;
      }
      var head := currLoc * batchSize;
      var tail := head + |updatedScores|;
      var current := scores;
      var i := 0;
      while i < |updatedScores|
        invariant 0 <= i <= |updatedScores| && |current| == |scores|
        invariant forall p :: 0 <= p < |current| ==>
          current[p] == if head <= p < head + i then scores[p] + updatedScores[p - head] else scores[p]
      {
        current := current[head + i := current[head + i] + updatedScores[i]];
        i := i + 1;
      }
      var base := baseScores;
      scores := current;
      relativeScores := seq(tail - head, k requires 0 <= k < tail - head => current[head + k] - base[head + k]);
      scoresVersion := scoresVersion[currLoc := treeLen];
      scoresSynced := true;
      currBatchSize := |updatedScores|;
    }

    /** Lines 99-102: every version and score back to 0; the base scores stay. */
    method ResetScores()
      requires Valid()
      modifies this
      ensures Valid()
      ensures scoresVersion == Repeat(numBatch, 0) && scores == Zeros(|old(scores)|)
      ensures baseScores == old(baseScores) && relativeScores == old(relativeScores)
      ensures baseNode == old(baseNode) && currLoc == old(currLoc) && scoresSynced == old(scoresSynced)
      ensures currBatchSize == old(currBatchSize)
    {
      scoresVersion := Repeat(numBatch, 0);
      scores := Zeros(|scores|);
    }
  }
}
