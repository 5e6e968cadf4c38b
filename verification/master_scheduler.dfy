/**
 * The master's scheduler of src/master/model_manager/scheduler/mod.rs:
 * grids (regions of the feature space) are handed out in order to idle
 * scanners.  `availability[g]` holds the scanner working on grid `g`, and
 * `scannerTask[s]` holds scanner `s`'s grid and the tree node made for
 * it; the two point at each other.
 *
 * Grids are of the type parameter `G`.  The node index that the model
 * returns for a new grid (`ModelWithVersion::add_grid`, not part of this
 * model) is an input; loading grids from S3 and uploading assignments
 * are left out.
 */
module MasterScheduling {
  import opened Wrappers
  import opened Packets

  /** The indices of the idle scanners, in ascending order (see `IdleScannersSpec`). */
  function IdleScanners(st: seq<Option<(nat, nat)>>): seq<nat> {
    if st == [] then []
    else IdleScanners(st[..|st| - 1]) + (if st[|st| - 1].None? then [|st| - 1] else [])
  }

  /** Lines 51-56: exactly the idle scanners, in ascending order. */
  lemma IdleScannersSpec(st: seq<Option<(nat, nat)>>)
    ensures var r := IdleScanners(st);
      Increasing(r) &&
      (forall k :: 0 <= k < |r| ==> r[k] < |st| && st[r[k]].None?) &&
      (forall s :: 0 <= s < |st| && st[s].None? ==> s in r)
  {
    IdleOrdered(st);
    IdleAreIdle(st);
    IdleComplete(st);
  }

  lemma {:induction false} IdleOrdered(st: seq<Option<(nat, nat)>>)
    ensures var r := IdleScanners(st);
      Increasing(r) && forall k :: 0 <= k < |r| ==> r[k] < |st|
  {
    if st != [] {
      IdleOrdered(st[..|st| - 1]);
    }
  }

  /** The `k`-th idle scanner is a scanner. */
  lemma IdleBounded(st: seq<Option<(nat, nat)>>, k: nat)
    requires k < |IdleScanners(st)|
    ensures IdleScanners(st)[k] < |st|
  {
    IdleOrdered(st);
  }

  lemma {:induction false} IdleAreIdle(st: seq<Option<(nat, nat)>>)
    ensures var r := IdleScanners(st);
      forall k :: 0 <= k < |r| ==> r[k] < |st| && st[r[k]].None?
  {
    if st != [] {
      var init := st[..|st| - 1];
      IdleAreIdle(init);
      IdleOrdered(init);
      assert forall s :: 0 <= s < |init| ==> init[s] == st[s];
    }
  }

  lemma {:induction false} IdleComplete(st: seq<Option<(nat, nat)>>)
    ensures forall s :: 0 <= s < |st| && st[s].None? ==> s in IdleScanners(st)
  {
    if st != [] {
      var init := st[..|st| - 1];
      IdleComplete(init);
      assert forall s :: 0 <= s < |init| ==> init[s] == st[s];
    }
  }

  /**
   * Grid and scanner name each other, and only grids before `next` have
   * been handed out.
   */
  ghost predicate Linked(st: seq<Option<(nat, nat)>>, av: seq<Option<nat>>, next: nat) {
    (forall g :: 0 <= g < |av| && av[g].Some? ==>
       g < next && av[g].value < |st| && st[av[g].value].Some? && st[av[g].value].value.0 == g) &&
    (forall s :: 0 <= s < |st| && st[s].Some? ==>
       st[s].value.0 < |av| && av[st[s].value.0] == Some(s))
  }

  /**
   * After handing out `i` grids from `next0`: the `k`-th idle scanner has
   * grid `next0 + k` and node `nodeIds[k]`, and nothing else changed.
   */
  ghost predicate AssignedUpTo(st0: seq<Option<(nat, nat)>>, av0: seq<Option<nat>>, next0: nat,
                               idle: seq<nat>, nodeIds: seq<nat>, i: nat,
                               st: seq<Option<(nat, nat)>>, av: seq<Option<nat>>)
    requires i <= |idle| && i <= |nodeIds|
  {
    |st| == |st0| && |av| == |av0| &&
    (forall k :: 0 <= k < i ==> idle[k] < |st| && st[idle[k]] == Some((next0 + k, nodeIds[k]))) &&
    (forall k :: 0 <= k < i ==> next0 + k < |av| && av[next0 + k] == Some(idle[k])) &&
    (forall s :: 0 <= s < |st0| && s !in idle[..i] ==> st[s] == st0[s]) &&
    (forall g :: 0 <= g < |av0| && !(next0 <= g < next0 + i) ==> av[g] == av0[g])
  }

  predicate Increasing(r: seq<nat>) {
    forall a, b :: 0 <= a < b < |r| ==> r[a] < r[b]
  }

  /** One more idle scanner takes the next grid. */
  lemma AssignStep(st0: seq<Option<(nat, nat)>>, av0: seq<Option<nat>>, next0: nat,
                   idle: seq<nat>, nodeIds: seq<nat>, i: nat, st: seq<Option<(nat, nat)>>, av: seq<Option<nat>>)
    requires Increasing(idle) && i < |idle| && |nodeIds| == |idle| && idle[i] < |st0| && next0 + i < |av0|
    requires AssignedUpTo(st0, av0, next0, idle, nodeIds, i, st, av)
    ensures var task: (nat, nat) := (next0 + i, nodeIds[i]);
      AssignedUpTo(st0, av0, next0, idle, nodeIds, i + 1, st[idle[i] := Some(task)], av[next0 + i := Some(idle[i])])
  {
    assert idle[..i + 1] == idle[..i] + [idle[i]];
  }

  /** The scanners' tasks after the first `i` idle scanners took a grid each. */
  ghost function TasksAfter(st0: seq<Option<(nat, nat)>>, next0: nat, idle: seq<nat>, nodeIds: seq<nat>, i: nat)
    : (st: seq<Option<(nat, nat)>>)
    requires i <= |idle| && i <= |nodeIds|
    ensures |st| == |st0|
  {
    if i == 0 then st0
    else
      var st := TasksAfter(st0, next0, idle, nodeIds, i - 1);
      var task: (nat, nat) := (next0 + i - 1, nodeIds[i - 1]);
      if idle[i - 1] < |st| then st[idle[i - 1] := Some(task)] else st
  }

  /** The grids' scanners after the first `i` idle scanners took a grid each. */
  ghost function GridsAfter(av0: seq<Option<nat>>, next0: nat, idle: seq<nat>, i: nat): (av: seq<Option<nat>>)
    requires i <= |idle|
    ensures |av| == |av0|
  {
    if i == 0 then av0
    else
      var av := GridsAfter(av0, next0, idle, i - 1);
      if next0 + i - 1 < |av| then av[next0 + i - 1 := Some(idle[i - 1])] else av
  }

  /** One more step of `TasksAfter` and `GridsAfter`. */
  lemma AfterStep(st0: seq<Option<(nat, nat)>>, av0: seq<Option<nat>>, next0: nat, idle: seq<nat>, nodeIds: seq<nat>,
                  i: nat, gridIndex: nat)
    requires i < |idle| && i < |nodeIds| && idle[i] < |st0| && gridIndex == next0 + i < |av0|
    ensures TasksAfter(st0, next0, idle, nodeIds, i + 1)
         == TasksAfter(st0, next0, idle, nodeIds, i)[idle[i] := Some((gridIndex, nodeIds[i]))]
    ensures GridsAfter(av0, next0, idle, i + 1) == GridsAfter(av0, next0, idle, i)[gridIndex := Some(idle[i])]
  {
  }

  /** Handing out grids one by one, as `TasksAfter` and `GridsAfter` do, gives `AssignedUpTo`. */
  lemma {:induction false} AfterSpec(st0: seq<Option<(nat, nat)>>, av0: seq<Option<nat>>, next0: nat,
                                     idle: seq<nat>, nodeIds: seq<nat>, i: nat)
    requires Increasing(idle) && (forall k :: 0 <= k < |idle| ==> idle[k] < |st0|)
    requires |nodeIds| == |idle| && next0 + |idle| <= |av0| && i <= |idle|
    ensures AssignedUpTo(st0, av0, next0, idle, nodeIds, i,
                         TasksAfter(st0, next0, idle, nodeIds, i), GridsAfter(av0, next0, idle, i))
  {
    if i > 0 {
      AfterSpec(st0, av0, next0, idle, nodeIds, i - 1);
      AssignStep(st0, av0, next0, idle, nodeIds, i - 1,
                 TasksAfter(st0, next0, idle, nodeIds, i - 1), GridsAfter(av0, next0, idle, i - 1));
    }
  }

  /** After every idle scanner took a grid, no scanner is idle. */
  lemma AssignedAllBusy(st0: seq<Option<(nat, nat)>>, av0: seq<Option<nat>>, next0: nat,
                        idle: seq<nat>, nodeIds: seq<nat>, st: seq<Option<(nat, nat)>>, av: seq<Option<nat>>)
    requires idle == IdleScanners(st0) && |nodeIds| == |idle|
    requires AssignedUpTo(st0, av0, next0, idle, nodeIds, |idle|, st, av)
    ensures forall s :: 0 <= s < |st| ==> st[s].Some?
  {
    IdleComplete(st0);
    assert idle[..|idle|] == idle;
    forall s | 0 <= s < |st|
      ensures st[s].Some?
    {
      if st0[s].None? {
        var k :| 0 <= k < |idle| && idle[k] == s;
      }
    }
  }

  /** Every grid handed out names a scanner that names it back. */
  lemma AssignedGridsLinked(st0: seq<Option<(nat, nat)>>, av0: seq<Option<nat>>, next0: nat,
                            idle: seq<nat>, nodeIds: seq<nat>, st: seq<Option<(nat, nat)>>, av: seq<Option<nat>>)
    requires Linked(st0, av0, next0) && |nodeIds| == |idle|
    requires forall k :: 0 <= k < |idle| ==> idle[k] < |st0| && st0[idle[k]].None?
    requires AssignedUpTo(st0, av0, next0, idle, nodeIds, |idle|, st, av)
    ensures forall g :: 0 <= g < |av| && av[g].Some? ==>
      g < next0 + |idle| && av[g].value < |st| && st[av[g].value].Some? && st[av[g].value].value.0 == g
  {
    assert idle[..|idle|] == idle;
    forall g | 0 <= g < |av| && av[g].Some?
      ensures g < next0 + |idle| && av[g].value < |st| && st[av[g].value].Some? && st[av[g].value].value.0 == g
    {
      if next0 <= g < next0 + |idle| {
        var k := g - next0;
        assert av[next0 + k] == Some(idle[k]);
      } else if av0[g].value in idle {
        assert false;
      }
    }
  }

  /** Every busy scanner names a grid that names it back. */
  lemma AssignedScannersLinked(st0: seq<Option<(nat, nat)>>, av0: seq<Option<nat>>, next0: nat,
                               idle: seq<nat>, nodeIds: seq<nat>, st: seq<Option<(nat, nat)>>, av: seq<Option<nat>>)
    requires Linked(st0, av0, next0) && |nodeIds| == |idle|
    requires forall g :: next0 <= g < |av0| ==> av0[g].None?
    requires AssignedUpTo(st0, av0, next0, idle, nodeIds, |idle|, st, av)
    ensures forall s :: 0 <= s < |st| && st[s].Some? ==> st[s].value.0 < |av| && av[st[s].value.0] == Some(s)
  {
    assert idle[..|idle|] == idle;
    forall s | 0 <= s < |st| && st[s].Some?
      ensures st[s].value.0 < |av| && av[st[s].value.0] == Some(s)
    {
      if s in idle {
        var k :| 0 <= k < |idle| && idle[k] == s;
      } else {
        assert st[s] == st0[s];
        assert av0[st0[s].value.0] == Some(s);
      }
    }
  }

  /** Handing a grid to every idle scanner keeps grids and scanners linked and leaves none idle. */
  lemma AssignedAll(st0: seq<Option<(nat, nat)>>, av0: seq<Option<nat>>, next0: nat,
                    idle: seq<nat>, nodeIds: seq<nat>, st: seq<Option<(nat, nat)>>, av: seq<Option<nat>>)
    requires Linked(st0, av0, next0) && idle == IdleScanners(st0) && |nodeIds| == |idle|
    requires AssignedUpTo(st0, av0, next0, idle, nodeIds, |idle|, st, av)
    ensures Linked(st, av, next0 + |idle|)
    ensures forall s :: 0 <= s < |st| ==> st[s].Some?
  {
    assert forall g :: next0 <= g < |av0| ==> av0[g].None?;
    IdleAreIdle(st0);
    AssignedAllBusy(st0, av0, next0, idle, nodeIds, st, av);
    AssignedGridsLinked(st0, av0, next0, idle, nodeIds, st, av);
    AssignedScannersLinked(st0, av0, next0, idle, nodeIds, st, av);
  }

  /** Handing the grids from `next0` on to every idle scanner, as `Assign` does. */
  lemma AssignDone(st0: seq<Option<(nat, nat)>>, av0: seq<Option<nat>>, next0: nat, nodeIds: seq<nat>)
    requires Linked(st0, av0, next0) && |nodeIds| == |IdleScanners(st0)| && next0 + |nodeIds| <= |av0|
    ensures var idle := IdleScanners(st0);
      var st, av := TasksAfter(st0, next0, idle, nodeIds, |idle|), GridsAfter(av0, next0, idle, |idle|);
      AssignedUpTo(st0, av0, next0, idle, nodeIds, |idle|, st, av) &&
      Linked(st, av, next0 + |idle|) && forall s :: 0 <= s < |st| ==> st[s].Some?
  {
    var idle := IdleScanners(st0);
    IdleOrdered(st0);
    AfterSpec(st0, av0, next0, idle, nodeIds, |idle|);
    AssignedAll(st0, av0, next0, idle, nodeIds,
                TasksAfter(st0, next0, idle, nodeIds, |idle|), GridsAfter(av0, next0, idle, |idle|));
  }

  class Scheduler<G> {
    const numMachines: nat
    var scannerTask: seq<Option<(nat, nat)>>
    var availability: seq<Option<nat>>
    var nextAvailable: nat
    var gridsVersion: nat
    var currGrids: seq<G>
    var nextGrids: Option<seq<G>>

    ghost predicate Valid()
      reads this
    {
      |scannerTask| == numMachines && |availability| == |currGrids| && nextAvailable <= |currGrids| &&
      Linked(scannerTask, availability, nextAvailable)
    }

    /**
     * Lines 33-48 without the call to `update` of line 46: every scanner
     * idle and no grid loaded.  See `NewThenUpdatePanics` for that call.
     */
    constructor (numMachines: nat)
      ensures Valid() && this.numMachines == numMachines
      ensures scannerTask == seq(numMachines, _ => None) && currGrids == [] && availability == []
      ensures nextAvailable == 0 && gridsVersion == 0 && nextGrids == None
    {
      this.numMachines := numMachines;
      scannerTask := seq(numMachines, _ => None);
      gridsVersion := 0;
      currGrids := [];
      availability := [];
      nextAvailable := 0;
      nextGrids := None;
    }

    /**
     * Lines 50-72 and 116-128: every idle scanner, lowest index first,
     * takes the next grid and the node `nodeIds[k]` made for it; the
     * number of scanners assigned.  Running out of grids panics at line 132.
     */
    method Update(nodeIds: seq<nat>) returns (numUpdates: nat)
      requires Valid() && |nodeIds| == |IdleScanners(scannerTask)|
      requires nextAvailable + |IdleScanners(scannerTask)| <= |currGrids|
      modifies this
      ensures Valid()
      ensures numUpdates == |IdleScanners(old(scannerTask))| && nextAvailable == old(nextAvailable) + numUpdates
      ensures AssignedUpTo(old(scannerTask), old(availability), old(nextAvailable),
                           IdleScanners(old(scannerTask)), nodeIds, numUpdates, scannerTask, availability)
      ensures forall s :: 0 <= s < |scannerTask| ==> scannerTask[s].Some?
      ensures currGrids == old(currGrids) && nextGrids == old(nextGrids) && gridsVersion == old(gridsVersion)
    {
      var idle := IdleScanners(scannerTask);
      numUpdates := Assign(idle, nodeIds);
    }

    /**
     * Lines 116-136: grid `next_available + k` goes to `idle[k]`, and the
     * scanner records it with its node.  The two passes of lines 117-126
     * touch different fields and are run as one loop.
     */
    method Assign(idle: seq<nat>, nodeIds: seq<nat>) returns (updateSize: nat)
      requires Valid() && idle == IdleScanners(scannerTask) && |nodeIds| == |idle|
      requires nextAvailable + |idle| <= |currGrids|
      modifies this
      ensures Valid() && updateSize == |idle| && nextAvailable == old(nextAvailable) + |idle|
      ensures AssignedUpTo(old(scannerTask), old(availability), old(nextAvailable), idle, nodeIds, |idle|,
                           scannerTask, availability)
      ensures forall s :: 0 <= s < |scannerTask| ==> scannerTask[s].Some?
      ensures currGrids == old(currGrids) && nextGrids == old(nextGrids) && gridsVersion == old(gridsVersion)
    {
      ghost var st0, av0, next0 := scannerTask, availability, nextAvailable;
      var i := 0;
      while i < |idle|
        invariant 0 <= i <= |idle| && nextAvailable == next0 + i
        invariant currGrids == old(currGrids) && nextGrids == old(nextGrids) && gridsVersion == old(gridsVersion)
        invariant scannerTask == TasksAfter(st0, next0, idle, nodeIds, i)
        invariant availability == GridsAfter(av0, next0, idle, i)
      {
        IdleBounded(st0, i);
        var scannerId := idle[i];
        var gridIndex, _ := GetNewGrid(scannerId);
        AfterStep(st0, av0, next0, idle, nodeIds, i, gridIndex);
        scannerTask := scannerTask[scannerId := Some((gridIndex, nodeIds[i]))];
        i := i + 1;
      }
      AssignDone(st0, av0, next0, nodeIds);
      updateSize := |idle|;
    }

    /**
     * Lines 130-136: the next grid goes to `scannerId`.  Indexing past the
     * last grid panics.
     */
    method GetNewGrid(scannerId: nat) returns (gridIndex: nat, grid: G)
      requires nextAvailable < |currGrids| && |availability| == |currGrids|
      modifies this
      ensures scannerTask == old(scannerTask) && currGrids == old(currGrids)
      ensures gridIndex == old(nextAvailable) && grid == currGrids[gridIndex]
      ensures availability == old(availability)[gridIndex := Some(scannerId)]
      ensures nextAvailable == old(nextAvailable) + 1
      ensures nextGrids == old(nextGrids) && gridsVersion == old(gridsVersion)
    {
      gridIndex := nextAvailable;
      grid := currGrids[gridIndex];
      availability := availability[nextAvailable := Some(scannerId)];
      nextAvailable := nextAvailable + 1;
    }

    /**
     * Lines 138-146: free grid `gridIndex` and its scanner; a free grid
     * stays as it is.  A missing grid index panics.
     */
    method ReleaseGrid(gridIndex: nat)
      requires Valid() && gridIndex < |availability|
      modifies this
      ensures Valid()
      ensures old(availability[gridIndex]).None? ==>
        availability == old(availability) && scannerTask == old(scannerTask)
      ensures old(availability[gridIndex]).Some? ==>
        availability == old(availability)[gridIndex := None] &&
        scannerTask == old(scannerTask)[old(availability[gridIndex]).value := None]
      ensures nextAvailable == old(nextAvailable) && currGrids == old(currGrids)
      ensures nextGrids == old(nextGrids) && gridsVersion == old(gridsVersion)
    {
      var machineId := availability[gridIndex];
      if machineId.None? {
        return;
      }
      availability := availability[gridIndex := None];
      scannerTask := scannerTask[machineId.value := None];
    }

    /**
     * Lines 148-162: the scanner's grid and node, if the packet is about
     * that node.  A missing scanner index panics.
     */
    function GetNodeId(p: Packet): (r: Option<(nat, nat)>)
      requires p.sourceMachineId < |scannerTask|
      reads this
      ensures r.Some? <==> scannerTask[p.sourceMachineId].Some? && scannerTask[p.sourceMachineId].value.1 == p.nodeId
      ensures r.Some? ==> r == scannerTask[p.sourceMachineId]
    {
      if scannerTask[p.sourceMachineId].None? then None
      else if scannerTask[p.sourceMachineId].value.1 != p.nodeId then None
      else scannerTask[p.sourceMachineId]
    }

    /**
     * Lines 90-100: a packet about the scanner's current node frees that
     * scanner and its grid; any other packet changes nothing.
     */
    method HandlePacket(p: Packet) returns (handled: bool)
      requires Valid() && p.sourceMachineId < |scannerTask|
      modifies this
      ensures Valid()
      ensures handled <==> old(GetNodeId(p)).Some?
      ensures handled ==>
        availability == old(availability)[old(scannerTask[p.sourceMachineId]).value.0 := None] &&
        scannerTask == old(scannerTask)[p.sourceMachineId := None]
      ensures !handled ==> availability == old(availability) && scannerTask == old(scannerTask)
      ensures nextAvailable == old(nextAvailable) && currGrids == old(currGrids)
      ensures nextGrids == old(nextGrids) && gridsVersion == old(gridsVersion)
    {
      var nodeId := GetNodeId(p);
      if nodeId.None? {
        return false;
      }
      ReleaseGrid(nodeId.value.0);
      return true;
    }

    /** Lines 74-76: `HandlePacket`. */
    method HandleAccept(p: Packet) returns (handled: bool)
      requires Valid() && p.sourceMachineId < |scannerTask|
      modifies this
      ensures Valid()
      ensures handled <==> old(GetNodeId(p)).Some?
      ensures handled ==>
        availability == old(availability)[old(scannerTask[p.sourceMachineId]).value.0 := None] &&
        scannerTask == old(scannerTask)[p.sourceMachineId := None]
      ensures !handled ==> availability == old(availability) && scannerTask == old(scannerTask)
      ensures nextAvailable == old(nextAvailable) && currGrids == old(currGrids)
      ensures nextGrids == old(nextGrids) && gridsVersion == old(gridsVersion)
    {
      handled := HandlePacket(p);
    }

    /** Lines 78-80: `HandlePacket`. */
    method HandleEmpty(p: Packet) returns (handled: bool)
      requires Valid() && p.sourceMachineId < |scannerTask|
      modifies this
      ensures Valid()
      ensures handled <==> old(GetNodeId(p)).Some?
      ensures handled ==>
        availability == old(availability)[old(scannerTask[p.sourceMachineId]).value.0 := None] &&
        scannerTask == old(scannerTask)[p.sourceMachineId := None]
      ensures !handled ==> availability == old(availability) && scannerTask == old(scannerTask)
      ensures nextAvailable == old(nextAvailable) && currGrids == old(currGrids)
      ensures nextGrids == old(nextGrids) && gridsVersion == old(gridsVersion)
    {
      handled := HandlePacket(p);
    }

    /**
     * Lines 102-113: with new grids waiting, switch to them: every grid
     * free, every scanner idle, hand-out from the start, a new version.
     * With none waiting, nothing changes.
     */
    method ResetAssign() returns (reset: bool)
      requires Valid()
      modifies this
      ensures Valid()
      ensures reset <==> old(nextGrids).Some?
      ensures reset ==>
        currGrids == old(nextGrids).value && nextGrids == None &&
        availability == seq(|currGrids|, _ => None) && scannerTask == seq(numMachines, _ => None) &&
        nextAvailable == 0 && gridsVersion == old(gridsVersion) + 1
      ensures !reset ==>
        currGrids == old(currGrids) && nextGrids == old(nextGrids) && availability == old(availability) &&
        scannerTask == old(scannerTask) && nextAvailable == old(nextAvailable) && gridsVersion == old(gridsVersion)
    {
      if nextGrids.Some? {
        currGrids := nextGrids.value;
        nextGrids := None;
        availability := seq(|currGrids|, _ => None);
        scannerTask := seq(numMachines, _ => None);
        nextAvailable := 0;
        gridsVersion := gridsVersion + 1;
        return true;
      }
      return false;
    }

    /**
     * Lines 82-88: grids freshly loaded (`newGrids`, `None` when loading
     * failed) wait as the next grids, then the assignment is reset: the
     * scheduler switches to the fresh grids, or else to grids already
     * waiting, and with neither nothing changes.
     */
    method RefreshGrid(newGrids: Option<seq<G>>)
      requires Valid()
      modifies this
      ensures Valid()
      ensures var waiting := if newGrids.Some? then newGrids else old(nextGrids);
        waiting.Some? ==>
          currGrids == waiting.value && nextGrids == None &&
          availability == seq(|currGrids|, _ => None) && scannerTask == seq(numMachines, _ => None) &&
          nextAvailable == 0 && gridsVersion == old(gridsVersion) + 1
      ensures newGrids.None? && old(nextGrids).None? ==>
        currGrids == old(currGrids) && nextGrids == None && availability == old(availability) &&
        scannerTask == old(scannerTask) && nextAvailable == old(nextAvailable) && gridsVersion == old(gridsVersion)
    {
      if newGrids.Some? {
        nextGrids := newGrids;
      }
      var _ := ResetAssign();
    }
  }

  /**
   * Line 46: `new` calls `update` before any grid is loaded, so with at
   * least one scanner the first idle scanner asks for grid 0 of an empty
   * list (line 132).
   */
  lemma NewThenUpdatePanics(numMachines: nat)
    requires numMachines >= 1
    ensures var st: seq<Option<(nat, nat)>> := seq(numMachines, _ => None);
      0 + |IdleScanners(st)| > 0
  {
    var st: seq<Option<(nat, nat)>> := seq(numMachines, _ => None);
    IdleComplete(st);
    assert st[0].None?;
    assert 0 in IdleScanners(st);
  }
}
