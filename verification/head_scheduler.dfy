/**
 * The head's scheduler of src/head/scheduler/mod.rs: scanners register
 * with an address, and every idle scanner, up to a capacity, is handed a
 * node to work on.  Grids are not used yet, so every new task is node 0.
 *
 * Gamma, packet statistics and `handle_packet` (which adjusts gamma) are
 * left out; so are the debug lines.
 */
module HeadScheduling {
  import opened Wrappers
  import opened Packets

  /** The indices of the idle scanners, in ascending order. */
  function IdleScanners(tasks: seq<Option<nat>>): (r: seq<nat>)
    ensures forall a, b :: 0 <= a < b < |r| ==> r[a] < r[b]
    ensures forall k :: 0 <= k < |r| ==> r[k] < |tasks| && tasks[r[k]].None?
    ensures forall s :: 0 <= s < |tasks| && tasks[s].None? ==> s in r
  {
    if tasks == [] then []
    else IdleScanners(tasks[..|tasks| - 1]) + (if tasks[|tasks| - 1].None? then [|tasks| - 1] else [])
  }

  function Min(a: nat, b: nat): nat {
    if a <= b then a else b
  }

  /** The idle scanners that get a task: the first `capacity` of them. */
  function Chosen(tasks: seq<Option<nat>>, capacity: nat): (r: seq<nat>)
    ensures |r| <= capacity && |r| <= |IdleScanners(tasks)|
    ensures |r| == capacity || |r| == |IdleScanners(tasks)|
  {
    IdleScanners(tasks)[..Min(capacity, |IdleScanners(tasks)|)]
  }

  /** `tasks` after every scanner in `ids` has been given node 0. */
  function Assigned(tasks: seq<Option<nat>>, ids: seq<nat>): (r: seq<Option<nat>>)
    ensures |r| == |tasks|
  {
    seq(|tasks|, s requires 0 <= s < |tasks| => if s in ids then Some(0) else tasks[s])
  }

  /**
   * Lines 57-62 and 88-91: a scanner's task changes exactly when it is
   * one of the chosen idle scanners, and then it becomes node 0; busy
   * scanners keep their task.
   */
  lemma AssignChangesOnlyChosen(tasks: seq<Option<nat>>, capacity: nat, s: nat)
    requires s < |tasks|
    ensures var r := Assigned(tasks, Chosen(tasks, capacity));
      (r[s] != tasks[s] <==> s in Chosen(tasks, capacity)) &&
      (s in Chosen(tasks, capacity) ==> tasks[s].None? && r[s] == Some(0)) &&
      (tasks[s].Some? ==> r[s] == tasks[s])
  {
    var c := Chosen(tasks, capacity);
    if s in c {
      var k :| 0 <= k < |c| && c[k] == s;
      assert c[k] == IdleScanners(tasks)[k];
    }
  }

  /**
   * Lines 57-62 and 83-87: idle scanners are served lowest index first; a
   * scanner left idle has a higher index than every scanner served.
   */
  lemma AssignLowestFirst(tasks: seq<Option<nat>>, capacity: nat, s: nat, t: nat)
    requires s < t < |tasks| && tasks[s].None? && t in Chosen(tasks, capacity)
    ensures s in Chosen(tasks, capacity)
  {
    var idle := IdleScanners(tasks);
    var c := Chosen(tasks, capacity);
    var j :| 0 <= j < |c| && c[j] == t;
    var k :| 0 <= k < |idle| && idle[k] == s;
    assert idle[j] == t;
    if k >= j {
      assert false;
    }
    assert c[k] == s;
  }

  /** Lines 57-62 and 83-87: every idle scanner is served when the capacity allows it. */
  lemma AssignAllWhenRoom(tasks: seq<Option<nat>>, capacity: nat, s: nat)
    requires s < |tasks| && tasks[s].None? && |IdleScanners(tasks)| <= capacity
    ensures Assigned(tasks, Chosen(tasks, capacity))[s] == Some(0)
  {
    assert Chosen(tasks, capacity) == IdleScanners(tasks);
  }

  class Scheduler {
    var scannerAddr: seq<string>
    var scannerTask: seq<Option<nat>>

    ghost predicate Valid()
      reads this
    {
      |scannerAddr| == |scannerTask|
    }

    /** Lines 34-47: no scanner registered yet. */
    constructor ()
      ensures Valid() && scannerAddr == [] && scannerTask == []
    {
      scannerAddr := [];
      scannerTask := [];
    }

    /** Lines 49-52: a new idle scanner at the end of both lists. */
    method AddScanner(addr: string)
      requires Valid()
      modifies this
      ensures Valid()
      ensures scannerAddr == old(scannerAddr) + [addr] && scannerTask == old(scannerTask) + [None]
    {
      scannerAddr := scannerAddr + [addr];
      scannerTask := scannerTask + [None];
    }

    /** Lines 191-206: grids are not handed out yet; every scanner gets node 0. */
    method GetNewGrid(scannerId: nat, gamma: real) returns (nodeIndex: nat)
      ensures nodeIndex == 0
    {
      nodeIndex := 0;
    }

    /**
     * Lines 76-96: the first `capacity` scanners of `idle` get a new node
     * (`take` stops the lazy map, so no node is asked for beyond it); the
     * address and node of each, in order.  The three passes of the source
     * run as one loop here.  A scanner index beyond the list panics.
     */
    method Assign(idle: seq<nat>, gamma: real, capacity: nat) returns (assigns: seq<(string, nat)>)
      requires Valid() && forall k :: 0 <= k < |idle| ==> idle[k] < |scannerTask|
      modifies this
      ensures Valid() && scannerAddr == old(scannerAddr)
      ensures scannerTask == Assigned(old(scannerTask), idle[..Min(capacity, |idle|)])
      ensures |assigns| == Min(capacity, |idle|)
      ensures forall k :: 0 <= k < |assigns| ==> assigns[k] == (scannerAddr[idle[k]], 0)
    {
      var n := Min(capacity, |idle|);
      ghost var tasks0 := scannerTask;
      assigns := [];
      var i := 0;
      while i < n
        invariant 0 <= i <= n && Valid() && scannerAddr == old(scannerAddr)
        invariant scannerTask == Assigned(tasks0, idle[..i])
        invariant |assigns| == i
        invariant forall k :: 0 <= k < i ==> assigns[k] == (scannerAddr[idle[k]], 0)
      {
        var scannerId := idle[i];
        var nodeIndex := GetNewGrid(scannerId, gamma);
        assert idle[..i + 1] == idle[..i] + [scannerId];
        scannerTask := scannerTask[scannerId := Some(nodeIndex)];
        assigns := assigns + [(scannerAddr[scannerId], nodeIndex)];
        i := i + 1;
      }
    }

    /**
     * Lines 54-73: the idle scanners are collected in index order and
     * passed to `assign`; the result is the (address, node) of each
     * scanner served.
     */
    method SetAssignments(gamma: real, capacity: nat) returns (assigns: seq<(string, nat)>)
      requires Valid()
      modifies this
      ensures Valid() && scannerAddr == old(scannerAddr)
      ensures scannerTask == Assigned(old(scannerTask), Chosen(old(scannerTask), capacity))
      ensures var c := Chosen(old(scannerTask), capacity);
        |assigns| == |c| && forall k :: 0 <= k < |c| ==> assigns[k] == (scannerAddr[c[k]], 0)
    {
      var idle := IdleScanners(scannerTask);
      assigns := Assign(idle, gamma, capacity);
    }

    /**
     * Lines 126-130: an accepted packet is acknowledged and no scanner is
     * freed (the release is commented out).
     */
    method HandleAccept(packet: Packet) returns (handled: bool)
      ensures handled
    {
      handled := true;
    }

    /** Lines 132-143: an empty packet is acknowledged and no scanner is freed. */
    method HandleEmpty(packet: Packet) returns (handled: bool)
      ensures handled
    {
      handled := true;
    }
  }

  /**
   * Lines 126-143 with 54-73: a scanner stays busy after its packet is
   * handled, so the next round does not hand it a task again.
   */
  method EmptyKeepsScannerBusy(sched: Scheduler, packet: Packet, gamma: real, capacity: nat)
      returns (assigns: seq<(string, nat)>)
    requires sched.Valid() && packet.sourceMachineId < |sched.scannerTask|
    requires sched.scannerTask[packet.sourceMachineId].Some?
    modifies sched
    ensures |sched.scannerTask| == old(|sched.scannerTask|)
    ensures sched.scannerTask[packet.sourceMachineId] == old(sched.scannerTask[packet.sourceMachineId])
    ensures forall k :: 0 <= k < |assigns| ==> assigns[k].1 == 0
  {
    var _ := sched.HandleEmpty(packet);
    ghost var tasks := sched.scannerTask;
    assigns := sched.SetAssignments(gamma, capacity);
    AssignChangesOnlyChosen(tasks, capacity, packet.sourceMachineId);
  }
}
