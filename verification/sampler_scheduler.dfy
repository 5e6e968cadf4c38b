/**
 * The sampler's scheduler of src/sampler/model_sync/scheduler.rs: which
 * scanner works on which tree node.  `nodeStatus[n]` holds the gamma at
 * which node `n` last failed and the scanner working on it;
 * `scannerTask[s]` holds the node scanner `s` works on.  The two point at
 * each other, except that several scanners may be sent to the root.
 *
 * The model statistics and the gamma values are the fields the scheduler
 * reads (their own files are not part of this model);
 * uploading the assignments and the debug log are left out.
 */
module SamplerScheduling {
  import opened Wrappers
  import opened Packets

  /** Line 13. */
  const MAX_EMPTY_TREE: nat := 10

  /** Line 10: (last failed gamma, current scanner). */
  datatype NodeStatus = NodeStatus(lastFailedGamma: real, scanner: Option<nat>)

  /** The parts of `ModelStats` the scheduler reads: per node, its number of children and its depth. */
  datatype ModelStats = ModelStats(treeSize: nat, availNewTree: nat, numChildren: seq<nat>, depth: seq<nat>,
                                   maxNumTrees: nat, maxDepth: nat)

  datatype Gamma = Gamma(gamma: real, rootGamma: real)

  function Max(a: nat, b: nat): nat { if a < b then b else a }

  function Min(a: nat, b: nat): nat { if a < b then a else b }

  /** The statistics describe at least the first `n` nodes. */
  predicate Covers(ms: ModelStats, n: nat) {
    n <= |ms.numChildren| && n <= |ms.depth|
  }

  /**
   * The links agree: a node's scanner works on that node, and a scanner's
   * node is a known node that names it back, unless it is the root.
   */
  ghost predicate Linked(ns: seq<NodeStatus>, st: seq<Option<nat>>) {
    (forall n :: 0 <= n < |ns| && ns[n].scanner.Some? ==>
       ns[n].scanner.value < |st| && st[ns[n].scanner.value] == Some(n)) &&
    (forall s :: 0 <= s < |st| && st[s].Some? ==>
       st[s].value < |ns| && (st[s].value != 0 ==> ns[st[s].value].scanner == Some(s)))
  }

  /** Lines 136-149: whether node `i` can be handed to a scanner. */
  predicate ValidAt(ns: seq<NodeStatus>, numScanners: nat, ms: ModelStats, g: Gamma, i: nat)
    requires i < |ns| && Covers(ms, |ns|)
  {
    if i == 0 then
      ns[0].scanner.None? && ms.availNewTree < Max(numScanners * 2, MAX_EMPTY_TREE) &&
      ms.numChildren[0] < ms.maxNumTrees
    else
      ns[i].scanner.None? && ms.depth[i] < ms.maxDepth && ms.numChildren[i] <= 0 &&
      ns[i].lastFailedGamma > g.gamma
  }

  /** Lines 151-160: node `i` would be valid but for its last failed gamma. */
  predicate RestrictedAt(ns: seq<NodeStatus>, ms: ModelStats, g: Gamma, i: nat)
    requires i < |ns| && Covers(ms, |ns|)
  {
    i != 0 && ns[i].scanner.None? && ms.depth[i] < ms.maxDepth && ms.numChildren[i] <= 0 &&
    ns[i].lastFailedGamma <= g.gamma
  }

  /**
   * A non-root node is never both valid and held back by gamma, and an
   * unassigned, shallow, childless one is exactly one of the two.
   */
  lemma ValidOrRestricted(ns: seq<NodeStatus>, numScanners: nat, ms: ModelStats, g: Gamma, i: nat)
    requires 0 < i < |ns| && Covers(ms, |ns|)
    ensures !(ValidAt(ns, numScanners, ms, g, i) && RestrictedAt(ns, ms, g, i))
    ensures ns[i].scanner.None? && ms.depth[i] < ms.maxDepth && ms.numChildren[i] == 0 ==>
      ValidAt(ns, numScanners, ms, g, i) || RestrictedAt(ns, ms, g, i)
  {
  }

  /** Valid nodes are unassigned. */
  lemma ValidUnassigned(ns: seq<NodeStatus>, numScanners: nat, ms: ModelStats, g: Gamma, valid: seq<nat>)
    requires Covers(ms, |ns|)
    requires forall k :: 0 <= k < |valid| ==> valid[k] < |ns| && ValidAt(ns, numScanners, ms, g, valid[k])
    ensures forall k :: 0 <= k < |valid| ==> ns[valid[k]].scanner.None?
  {
  }

  predicate Increasing(r: seq<nat>) {
    forall a, b :: 0 <= a < b < |r| ==> r[a] < r[b]
  }

  /** Lines 64-67: the valid nodes below `n`, in ascending order. */
  function ValidNodes(ns: seq<NodeStatus>, numScanners: nat, ms: ModelStats, g: Gamma, n: nat): (r: seq<nat>)
    requires n <= |ns| && Covers(ms, |ns|)
    ensures Increasing(r)
    ensures forall k :: 0 <= k < |r| ==> r[k] < n && ValidAt(ns, numScanners, ms, g, r[k])
    ensures forall i :: 0 <= i < n && ValidAt(ns, numScanners, ms, g, i) ==> i in r
  {
    if n == 0 then []
    else ValidNodes(ns, numScanners, ms, g, n - 1) + (if ValidAt(ns, numScanners, ms, g, n - 1) then [n - 1] else [])
  }

  /** Lines 68-73: the idle scanners below `n`, in ascending order. */
  function IdleScanners(st: seq<Option<nat>>, n: nat): (r: seq<nat>)
    requires n <= |st|
    ensures Increasing(r) && |r| <= n
    ensures forall k :: 0 <= k < |r| ==> r[k] < n && st[r[k]].None?
    ensures forall s :: 0 <= s < n && st[s].None? ==> s in r
  {
    if n == 0 then []
    else IdleScanners(st, n - 1) + (if st[n - 1].None? then [n - 1] else [])
  }

  /** Line 29: no scanner has a task yet. */
  function NoTasks(m: nat): (st: seq<Option<nat>>)
    ensures |st| == m && forall s :: 0 <= s < m ==> st[s].None?
  {
    seq(m, _ => None)
  }

  /** Line 28: every node free, with last failed gamma 1. */
  function FreshNodes(n: nat): (ns: seq<NodeStatus>)
    ensures |ns| == n && forall i :: 0 <= i < n ==> ns[i] == NodeStatus(1.0, None)
  {
    seq(n, _ => NodeStatus(1.0, None))
  }

  /** With no task anywhere, the idle scanners are `0, 1, ..., n - 1`. */
  lemma {:induction false} AllIdle(st: seq<Option<nat>>, n: nat)
    requires n <= |st| && forall s :: 0 <= s < n ==> st[s].None?
    ensures var idle := IdleScanners(st, n);
      |idle| == n && forall k :: 0 <= k < n ==> idle[k] == k
  {
    if n > 0 {
      AllIdle(st, n - 1);
    }
  }

  /**
   * The first pairing from the fresh state: scanner `s` takes the `s`-th
   * valid node while there are any, the other scanners stay idle, and the
   * nodes nobody took stay free.
   */
  ghost predicate FirstPairing(m: nat, n: nat, ms: ModelStats, g: Gamma, st: seq<Option<nat>>, ns: seq<NodeStatus>)
    requires Covers(ms, n)
  {
    var valid := ValidNodes(FreshNodes(n), m, ms, g, n);
    var k := Min(m, |valid|);
    |st| == m && |ns| == n &&
    (forall s :: 0 <= s < k ==> st[s] == Some(valid[s])) &&
    (forall s :: k <= s < m ==> st[s].None?) &&
    (forall j :: 0 <= j < k ==> ns[valid[j]] == NodeStatus(1.0, Some(j))) &&
    (forall i :: 0 <= i < n && i !in valid[..k] ==> ns[i] == NodeStatus(1.0, None))
  }

  /** `Paired` from the fresh state is the first pairing. */
  lemma PairedFresh(st0: seq<Option<nat>>, ns0: seq<NodeStatus>, ms: ModelStats, g: Gamma,
                    st: seq<Option<nat>>, ns: seq<NodeStatus>)
    requires st0 == NoTasks(|st0|) && ns0 == FreshNodes(|ns0|) && Covers(ms, |ns0|)
    requires var idle := IdleScanners(st0, |st0|);
      var valid := ValidNodes(ns0, |st0|, ms, g, |ns0|);
      Paired(st0, ns0, idle, valid, Min(|idle|, |valid|), st, ns)
    ensures FirstPairing(|st0|, |ns0|, ms, g, st, ns)
  {
    var idle := IdleScanners(st0, |st0|);
    var valid := ValidNodes(ns0, |st0|, ms, g, |ns0|);
    AllIdle(st0, |st0|);
    PairedIdentity(st0, ns0, idle, valid, Min(|idle|, |valid|), st, ns);
  }

  /** With the idle scanners `0, 1, ..., m - 1`, scanner `s` is the `s`-th one paired. */
  lemma PairedIdentity(st0: seq<Option<nat>>, ns0: seq<NodeStatus>, idle: seq<nat>, valid: seq<nat>, k: nat,
                       st: seq<Option<nat>>, ns: seq<NodeStatus>)
    requires |idle| == |st0| && k <= |idle| && k <= |valid|
    requires forall s :: 0 <= s < |idle| ==> idle[s] == s && st0[s].None?
    requires forall i :: 0 <= i < |ns0| ==> ns0[i] == NodeStatus(1.0, None)
    requires forall j :: 0 <= j < k ==> valid[j] < |ns0|
    requires Paired(st0, ns0, idle, valid, k, st, ns)
    ensures |st| == |st0| && |ns| == |ns0|
    ensures forall s :: 0 <= s < k ==> st[s] == Some(valid[s])
    ensures forall s :: k <= s < |st0| ==> st[s].None?
    ensures forall j :: 0 <= j < k ==> ns[valid[j]] == NodeStatus(1.0, Some(j))
    ensures forall i :: 0 <= i < |ns0| && i !in valid[..k] ==> ns[i] == NodeStatus(1.0, None)
  {
    forall s | k <= s < |st0|
      ensures st[s].None?
    {
      assert s !in idle[..k];
    }
  }

  /** Lines 90-92: the number of nodes in `1..n` held back by gamma alone. */
  function RestrictedCount(ns: seq<NodeStatus>, ms: ModelStats, g: Gamma, n: nat): (c: nat)
    requires n <= |ns| && Covers(ms, |ns|)
    ensures c > 0 <==> exists i :: 1 <= i < n && RestrictedAt(ns, ms, g, i)
  {
    if n <= 1 then 0
    else RestrictedCount(ns, ms, g, n - 1) + (if RestrictedAt(ns, ms, g, n - 1) then 1 else 0)
  }

  /** The number of scanners below `n` not already on the root. */
  function OffRoot(st: seq<Option<nat>>, n: nat): (c: nat)
    requires n <= |st|
    ensures c <= n
    ensures c == 0 <==> forall s :: 0 <= s < n ==> st[s] == Some(0)
  {
    if n == 0 then 0
    else OffRoot(st, n - 1) + (if st[n - 1] != Some(0) then 1 else 0)
  }

  /**
   * The first `m` idle scanners are paired with the first `m` valid
   * nodes, both ways, and nothing else changed.
   */
  ghost predicate Paired(st0: seq<Option<nat>>, ns0: seq<NodeStatus>, idle: seq<nat>, valid: seq<nat>, m: nat,
                         st: seq<Option<nat>>, ns: seq<NodeStatus>)
    requires m <= |idle| && m <= |valid|
    requires forall k :: 0 <= k < m ==> idle[k] < |st0| && valid[k] < |ns0|
  {
    |st| == |st0| && |ns| == |ns0| &&
    (forall k :: 0 <= k < m ==> st[idle[k]] == Some(valid[k])) &&
    (forall k :: 0 <= k < m ==> ns[valid[k]] == NodeStatus(ns0[valid[k]].lastFailedGamma, Some(idle[k]))) &&
    (forall s :: 0 <= s < |st0| && s !in idle[..m] ==> st[s] == st0[s]) &&
    (forall n :: 0 <= n < |ns0| && n !in valid[..m] ==> ns[n] == ns0[n])
  }

  /** The `i`-th idle scanner takes the `i`-th valid node. */
  lemma PairedStep(st0: seq<Option<nat>>, ns0: seq<NodeStatus>, idle: seq<nat>, valid: seq<nat>, i: nat,
                   st: seq<Option<nat>>, ns: seq<NodeStatus>)
    requires Increasing(idle) && Increasing(valid) && i < |idle| && i < |valid|
    requires forall k :: 0 <= k <= i ==> idle[k] < |st0| && valid[k] < |ns0|
    requires Paired(st0, ns0, idle, valid, i, st, ns)
    ensures Paired(st0, ns0, idle, valid, i + 1, st[idle[i] := Some(valid[i])],
                   ns[valid[i] := NodeStatus(ns[valid[i]].lastFailedGamma, Some(idle[i]))])
  {
    var s, n := idle[i], valid[i];
    assert s !in idle[..i] && n !in valid[..i];
    assert idle[..i + 1] == idle[..i] + [s] && valid[..i + 1] == valid[..i] + [n];
  }

  /** Pairing no scanner changes nothing. */
  lemma PairedNone(st0: seq<Option<nat>>, ns0: seq<NodeStatus>, idle: seq<nat>, valid: seq<nat>,
                   st: seq<Option<nat>>, ns: seq<NodeStatus>)
    requires Paired(st0, ns0, idle, valid, 0, st, ns)
    ensures st == st0 && ns == ns0
  {
    assert idle[..0] == [] && valid[..0] == [];
  }

  /** Pairing idle scanners with unassigned nodes keeps the links in agreement. */
  lemma PairedLinked(st0: seq<Option<nat>>, ns0: seq<NodeStatus>, idle: seq<nat>, valid: seq<nat>, m: nat,
                     st: seq<Option<nat>>, ns: seq<NodeStatus>)
    requires Linked(ns0, st0) && Increasing(idle) && Increasing(valid)
    requires m <= |idle| && m <= |valid|
    requires forall k :: 0 <= k < m ==> idle[k] < |st0| && st0[idle[k]].None?
    requires forall k :: 0 <= k < m ==> valid[k] < |ns0| && ns0[valid[k]].scanner.None?
    requires Paired(st0, ns0, idle, valid, m, st, ns)
    ensures Linked(ns, st)
  {
    forall n | 0 <= n < |ns| && ns[n].scanner.Some?
      ensures ns[n].scanner.value < |st| && st[ns[n].scanner.value] == Some(n)
    {
      if n in valid[..m] {
        var k :| 0 <= k < m && valid[k] == n;
      } else {
        var s := ns0[n].scanner.value;
        if s in idle[..m] {
          assert false;
        }
      }
    }
    forall s | 0 <= s < |st| && st[s].Some?
      ensures st[s].value < |ns| && (st[s].value != 0 ==> ns[st[s].value].scanner == Some(s))
    {
      if s in idle[..m] {
        var k :| 0 <= k < m && idle[k] == s;
      } else {
        var n := st0[s].value;
        if n != 0 && n in valid[..m] {
          assert false;
        }
      }
    }
  }

  /**
   * Scanners below `s` are on the root with the nodes they held released,
   * and `c` of them were not on the root before.
   */
  ghost predicate RootedUpTo(st0: seq<Option<nat>>, ns0: seq<NodeStatus>, s: nat,
                             st: seq<Option<nat>>, ns: seq<NodeStatus>, c: nat)
    requires s <= |st0|
  {
    |st| == |st0| && |ns| == |ns0| &&
    (forall j :: 0 <= j < s ==> st[j] == Some(0)) &&
    (forall j :: s <= j < |st0| ==> st[j] == st0[j]) &&
    c == OffRoot(st0, s) &&
    (forall n :: 0 <= n < |ns0| ==>
       ns[n] == if n != 0 && ns0[n].scanner.Some? && ns0[n].scanner.value < s
                then ns0[n].(scanner := None) else ns0[n])
  }

  /** An idle scanner `s` goes to the root; it held no node. */
  lemma RootStepIdle(st0: seq<Option<nat>>, ns0: seq<NodeStatus>, s: nat,
                     st: seq<Option<nat>>, ns: seq<NodeStatus>, c: nat)
    requires Linked(ns0, st0) && s < |st0| && RootedUpTo(st0, ns0, s, st, ns, c)
    requires st[s].None?
    ensures RootedUpTo(st0, ns0, s + 1, st[s := Some(0)], ns, c + 1)
  {
    RootStepKeep(st0, ns0, s, st, ns, c);
  }

  /** A scanner `s` already on the root stays there. */
  lemma RootStepStay(st0: seq<Option<nat>>, ns0: seq<NodeStatus>, s: nat,
                     st: seq<Option<nat>>, ns: seq<NodeStatus>, c: nat)
    requires Linked(ns0, st0) && s < |st0| && RootedUpTo(st0, ns0, s, st, ns, c)
    requires st[s] == Some(0)
    ensures RootedUpTo(st0, ns0, s + 1, st, ns, c)
  {
    RootStepKeep(st0, ns0, s, st, ns, c);
    assert st[s := Some(0)] == st;
  }

  /** Scanner `s` goes to the root from being idle or already there, and holds no node. */
  lemma RootStepKeep(st0: seq<Option<nat>>, ns0: seq<NodeStatus>, s: nat,
                     st: seq<Option<nat>>, ns: seq<NodeStatus>, c: nat)
    requires Linked(ns0, st0) && s < |st0| && RootedUpTo(st0, ns0, s, st, ns, c)
    requires st[s].None? || st[s] == Some(0)
    ensures RootedUpTo(st0, ns0, s + 1, st[s := Some(0)], ns, if st[s].None? then c + 1 else c)
  {
    forall n | 0 <= n < |ns0|
      ensures ns[n] == if n != 0 && ns0[n].scanner.Some? && ns0[n].scanner.value < s + 1
                       then ns0[n].(scanner := None) else ns0[n]
    {
      if n != 0 && ns0[n].scanner == Some(s) {
        assert false;
      }
    }
  }

  /** Scanner `s` leaves its non-root node, which is released, for the root. */
  lemma RootStepRelease(st0: seq<Option<nat>>, ns0: seq<NodeStatus>, s: nat,
                        st: seq<Option<nat>>, ns: seq<NodeStatus>, c: nat)
    requires Linked(ns0, st0) && s < |st0| && RootedUpTo(st0, ns0, s, st, ns, c)
    requires st[s].Some? && st[s] != Some(0)
    ensures st[s].value < |ns|
    ensures RootedUpTo(st0, ns0, s + 1, st[s := Some(0)],
                       ns[st[s].value := NodeStatus(ns[st[s].value].lastFailedGamma, None)], c + 1)
  {
    var k := st[s].value;
    assert ns0[k].scanner == Some(s);
    var ns' := ns[k := NodeStatus(ns[k].lastFailedGamma, None)];
    forall n | 0 <= n < |ns0|
      ensures ns'[n] == if n != 0 && ns0[n].scanner.Some? && ns0[n].scanner.value < s + 1
                        then ns0[n].(scanner := None) else ns0[n]
    {
      if n != k && ns0[n].scanner == Some(s) {
        assert false;
      }
    }
  }

  /** With every scanner on the root, the links agree again and every non-root node is free. */
  lemma RootedAll(st0: seq<Option<nat>>, ns0: seq<NodeStatus>, st: seq<Option<nat>>, ns: seq<NodeStatus>, c: nat)
    requires Linked(ns0, st0) && |ns0| > 0 && RootedUpTo(st0, ns0, |st0|, st, ns, c)
    ensures Linked(ns, st) && c == OffRoot(st0, |st0|)
    ensures |ns| > 0 ==> ns[0] == ns0[0]
    ensures forall n :: 0 < n < |ns| ==> ns[n] == ns0[n].(scanner := None)
  {
  }

  class Scheduler {
    var nodeStatus: seq<NodeStatus>
    var scannerTask: seq<Option<nat>>

    /** The links agree, and the tree has at least its root. */
    ghost predicate Valid()
      reads this
    {
      Linked(nodeStatus, scannerTask) && |nodeStatus| > 0
    }

    /**
     * Lines 24-39: one unassigned node per tree node known to the
     * statistics, every scanner idle, then a first `update`.
     */
    constructor (numMachines: nat, ms: ModelStats, g: Gamma)
      requires Covers(ms, ms.treeSize) && ms.treeSize > 0
      ensures Valid() && |nodeStatus| == ms.treeSize && |scannerTask| == numMachines
      // too few new trees: every scanner on the root, every node free
      ensures ms.availNewTree <= ms.treeSize ==>
        (forall s :: 0 <= s < numMachines ==> scannerTask[s] == Some(0)) &&
        (forall i :: 0 <= i < ms.treeSize ==> nodeStatus[i] == NodeStatus(1.0, None))
      // otherwise scanner `s` takes the `s`-th valid node, while there are any
      ensures ms.availNewTree > ms.treeSize ==>
        FirstPairing(numMachines, ms.treeSize, ms, g, scannerTask, nodeStatus)
    {
      nodeStatus := FreshNodes(ms.treeSize);
      scannerTask := NoTasks(numMachines);
      new;
      ghost var st0, ns0 := scannerTask, nodeStatus;
      var _, _ := Update(ms, g);
      if ms.availNewTree > ms.treeSize {
        PairedFresh(st0, ns0, ms, g, scannerTask, nodeStatus);
      }
    }

    /** Lines 136-149. */
    function IsValidNode(index: nat, ms: ModelStats, g: Gamma): (valid: bool)
      requires index < |nodeStatus| && Covers(ms, |nodeStatus|)
      reads this
      ensures valid ==> nodeStatus[index].scanner.None?
    {
      ValidAt(nodeStatus, |scannerTask|, ms, g, index)
    }

    /**
     * Lines 162-176: the node the packet's scanner works on, if the
     * packet is about that node.  A missing scanner index panics.
     */
    function GetNodeId(p: Packet): (id: Option<nat>)
      requires p.sourceMachineId < |scannerTask|
      reads this
      ensures id.Some? <==> scannerTask[p.sourceMachineId] == Some(p.nodeId)
      ensures id.Some? ==> id.value == p.nodeId
      ensures Valid() && id.Some? ==> id.value < |nodeStatus|
    {
      if scannerTask[p.sourceMachineId].None? then None
      else if scannerTask[p.sourceMachineId].value != p.nodeId then None
      else Some(scannerTask[p.sourceMachineId].value)
    }

    /**
     * Lines 41-97.  With too few new trees available, every scanner is
     * sent to the root and the nodes they leave are released; otherwise
     * idle scanners are paired with valid nodes, lowest indices first,
     * and `restricted` tells whether idle scanners found nothing only
     * because of gamma.
     */
    method Update(ms: ModelStats, g: Gamma) returns (numUpdates: nat, restricted: bool)
      requires Valid() && Covers(ms, |nodeStatus|)
      modifies this
      ensures Valid() && |nodeStatus| == |old(nodeStatus)| && |scannerTask| == |old(scannerTask)|
      ensures ms.availNewTree <= |old(nodeStatus)| ==>
        !restricted && numUpdates == OffRoot(old(scannerTask), |old(scannerTask)|) &&
        (forall s :: 0 <= s < |scannerTask| ==> scannerTask[s] == Some(0)) &&
        (|nodeStatus| > 0 ==> nodeStatus[0] == old(nodeStatus[0])) &&
        (forall n :: 0 < n < |nodeStatus| ==> nodeStatus[n] == old(nodeStatus[n]).(scanner := None))
      ensures ms.availNewTree > |old(nodeStatus)| ==>
        var idle := IdleScanners(old(scannerTask), |old(scannerTask)|);
        var valid := ValidNodes(old(nodeStatus), |old(scannerTask)|, ms, g, |old(nodeStatus)|);
        numUpdates == Min(|idle|, |valid|) &&
        Paired(old(scannerTask), old(nodeStatus), idle, valid, numUpdates, scannerTask, nodeStatus) &&
        (restricted <==> numUpdates == 0 && |idle| > 0 && RestrictedCount(old(nodeStatus), ms, g, |old(nodeStatus)|) > 0)
    {
      if ms.availNewTree <= |nodeStatus| {
        numUpdates := AssignAllToRoot();
        return numUpdates, false;
      }
      ghost var ns0 := nodeStatus;
      var idle := IdleScanners(scannerTask, |scannerTask|);
      var valid := ValidNodes(nodeStatus, |scannerTask|, ms, g, |nodeStatus|);
      numUpdates := Min(|idle|, |valid|);
      ValidUnassigned(nodeStatus, |scannerTask|, ms, g, valid);
      AssignPairs(idle, valid, numUpdates);
      if numUpdates > 0 {
        restricted := false;
      } else if |idle| > 0 {
        PairedNone(old(scannerTask), ns0, idle, valid, scannerTask, nodeStatus);
        restricted := RestrictedCount(nodeStatus, ms, g, |nodeStatus|) > 0;
        assert restricted <==> RestrictedCount(ns0, ms, g, |ns0|) > 0;
      } else {
        restricted := false;
      }
    }

    /** Lines 44-61: every scanner to the root, releasing the node it held. */
    method AssignAllToRoot() returns (numUpdates: nat)
      requires Valid()
      modifies this
      ensures Valid() && |nodeStatus| == |old(nodeStatus)| && |scannerTask| == |old(scannerTask)|
      ensures numUpdates == OffRoot(old(scannerTask), |old(scannerTask)|)
      ensures forall s :: 0 <= s < |scannerTask| ==> scannerTask[s] == Some(0)
      ensures |nodeStatus| > 0 ==> nodeStatus[0] == old(nodeStatus[0])
      ensures forall n :: 0 < n < |nodeStatus| ==> nodeStatus[n] == old(nodeStatus[n]).(scanner := None)
    {
      ghost var ns0, st0 := nodeStatus, scannerTask;
      var ns, st := nodeStatus, scannerTask;
      numUpdates := 0;
      var s := 0;
      while s < |st|
        invariant 0 <= s <= |st| == |st0|
        invariant RootedUpTo(st0, ns0, s, st, ns, numUpdates)
      {
        if st[s].None? {
          RootStepIdle(st0, ns0, s, st, ns, numUpdates);
          st := st[s := Some(0)];
          numUpdates := numUpdates + 1;
        } else if st[s] != Some(0) {
          RootStepRelease(st0, ns0, s, st, ns, numUpdates);
          var nodeId := st[s].value;
          ns := ns[nodeId := NodeStatus(ns[nodeId].lastFailedGamma, None)];
          st := st[s := Some(0)];
          numUpdates := numUpdates + 1;
        } else {
          RootStepStay(st0, ns0, s, st, ns, numUpdates);
        }
        s := s + 1;
      }
      RootedAll(st0, ns0, st, ns, numUpdates);
      nodeStatus, scannerTask := ns, st;
    }

    /** Lines 75-84: the `k`-th idle scanner takes the `k`-th valid node, for `k < m`. */
    method AssignPairs(idle: seq<nat>, valid: seq<nat>, m: nat)
      requires Valid() && Increasing(idle) && Increasing(valid) && m <= |idle| && m <= |valid|
      requires forall k :: 0 <= k < m ==> idle[k] < |scannerTask| && scannerTask[idle[k]].None?
      requires forall k :: 0 <= k < m ==> valid[k] < |nodeStatus| && nodeStatus[valid[k]].scanner.None?
      modifies this
      ensures Valid() && Paired(old(scannerTask), old(nodeStatus), idle, valid, m, scannerTask, nodeStatus)
    {
      ghost var ns0, st0 := nodeStatus, scannerTask;
      var ns, st := nodeStatus, scannerTask;
      var i := 0;
      while i < m
        invariant 0 <= i <= m
        invariant Paired(st0, ns0, idle, valid, i, st, ns)
      {
        var s, n := idle[i], valid[i];
        PairedStep(st0, ns0, idle, valid, i, st, ns);
        ns := ns[n := NodeStatus(ns[n].lastFailedGamma, Some(s))];
        st := st[s := Some(n)];
        i := i + 1;
      }
      PairedLinked(st0, ns0, idle, valid, m, st, ns);
      nodeStatus, scannerTask := ns, st;
    }

    /**
     * Lines 99-118: for the packet's own node, release it when it is no
     * longer valid and report that; a packet that is not about the
     * scanner's node changes nothing.
     */
    method HandleSuccess(p: Packet, ms: ModelStats, g: Gamma) returns (released: bool)
      requires Valid() && Covers(ms, |nodeStatus|) && p.sourceMachineId < |scannerTask|
      modifies this
      ensures Valid()
      ensures released <==> old(GetNodeId(p)).Some? && !old(IsValidNode(p.nodeId, ms, g))
      ensures released ==>
        nodeStatus == old(nodeStatus)[p.nodeId := old(nodeStatus[p.nodeId]).(scanner := None)] &&
        scannerTask == old(scannerTask)[p.sourceMachineId := None]
      ensures !released ==> nodeStatus == old(nodeStatus) && scannerTask == old(scannerTask)
      // a non-root node held by the packet's scanner is assigned, so never valid
      ensures old(GetNodeId(p)).Some? && p.nodeId != 0 ==> released
    {
      var nodeId := GetNodeId(p);
      if nodeId.None? {
        return false;
      }
      var id := nodeId.value;
      if !IsValidNode(id, ms, g) {
        Release(id, p.sourceMachineId, nodeStatus[id].lastFailedGamma);
        return true;
      }
      return false;
    }

    /**
     * Lines 120-128: for the packet's own node, release it and record the
     * packet's gamma as the node's last failed gamma.
     */
    method HandleFailure(p: Packet)
      requires Valid() && p.sourceMachineId < |scannerTask|
      modifies this
      ensures Valid()
      ensures old(GetNodeId(p)).Some? ==>
        nodeStatus == old(nodeStatus)[p.nodeId := NodeStatus(p.gamma, None)] &&
        scannerTask == old(scannerTask)[p.sourceMachineId := None]
      ensures old(GetNodeId(p)).None? ==> nodeStatus == old(nodeStatus) && scannerTask == old(scannerTask)
    {
      var nodeId := GetNodeId(p);
      if nodeId.Some? {
        Release(nodeId.value, p.sourceMachineId, p.gamma);
      }
    }

    /** Clears the link between scanner `s` and its node `n`. */
    method Release(n: nat, s: nat, lastFailedGamma: real)
      requires Valid() && s < |scannerTask| && scannerTask[s] == Some(n)
      modifies this
      ensures Valid()
      ensures nodeStatus == old(nodeStatus)[n := NodeStatus(lastFailedGamma, None)]
      ensures scannerTask == old(scannerTask)[s := None]
    {
      nodeStatus := nodeStatus[n := NodeStatus(lastFailedGamma, None)];
      scannerTask := scannerTask[s := None];
    }

    /**
     * Lines 130-134: room for every node up to the largest new index, new
     * nodes unassigned with last failed gamma 1.  The subtraction of line
     * 132 underflows when the list is already longer.
     */
    method AppendNewNodes(newNodeIndices: seq<nat>)
      requires Valid() && MaxOf(newNodeIndices) + 1 >= |nodeStatus|
      modifies this
      ensures Valid() && scannerTask == old(scannerTask)
      ensures |nodeStatus| == MaxOf(newNodeIndices) + 1
      ensures nodeStatus[..|old(nodeStatus)|] == old(nodeStatus)
      ensures forall n :: |old(nodeStatus)| <= n < |nodeStatus| ==> nodeStatus[n] == NodeStatus(1.0, None)
      ensures forall k :: 0 <= k < |newNodeIndices| ==> newNodeIndices[k] < |nodeStatus|
    {
      var numNewNodes := MaxOf(newNodeIndices) + 1 - |nodeStatus|;
      nodeStatus := nodeStatus + seq(numNewNodes, _ => NodeStatus(1.0, None));
    }
  }

  /** Line 131: the largest index, or 0 for none. */
  function MaxOf(s: seq<nat>): (m: nat)
    ensures forall k :: 0 <= k < |s| ==> s[k] <= m
    ensures (s == [] && m == 0) || m in s
  {
    if s == [] then 0 else Max(MaxOf(s[..|s| - 1]), s[|s| - 1])
  }
}
