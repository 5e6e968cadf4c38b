/**
 * The sampler's packet statistics of src/sampler/model_sync/packet_stats.rs:
 * counters of the packets received since the last reset, per kind and per
 * scanner, and a smoothed rate of accepted non-root packets that decides
 * whether trees are made too slowly or too fast.
 *
 * Counters are unbounded (the `usize` overflow is not modelled), rates are
 * `real` (the rounding of `f32` is not modelled) and the debug log is left
 * out.
 */
module PacketStatistics {
  /** Line 8. */
  const THRESHOLD: real := 0.1
  /** Line 10: the smoothing factor. */
  const ETA: real := 0.1

  datatype UpdateSpeed = Okay | TooFast | TooSlow

  /**
   * The kinds of packet counted at lines 82-112.  The enum is declared
   * outside the files of this model; its six cases are the ones matched.
   */
  datatype PacketType = AcceptRoot | AcceptNonroot | EmptyRoot | EmptyNonroot | RejectSample | RejectBaseModel

  function Sum(s: seq<nat>): nat {
    if s == [] then 0 else Sum(s[..|s| - 1]) + s[|s| - 1]
  }

  /** Adding one at a position adds one to the sum. */
  lemma {:induction false} SumBump(s: seq<nat>, i: nat)
    requires i < |s|
    ensures Sum(s[i := s[i] + 1]) == Sum(s) + 1
    decreases |s|
  {
    var t := s[i := s[i] + 1];
    assert t[..|t| - 1] == if i == |s| - 1 then s[..|s| - 1] else s[..|s| - 1][i := s[i] + 1];
    if i < |s| - 1 {
      SumBump(s[..|s| - 1], i);
    }
  }

  /** A list of zeros sums to zero. */
  lemma {:induction false} SumZeros(n: nat)
    ensures Sum(seq(n, _ => 0)) == 0
  {
    if n > 0 {
      assert seq(n, _ => 0)[..n - 1] == seq(n - 1, _ => 0);
      SumZeros(n - 1);
    }
  }

  function Max(a: nat, b: nat): nat {
    if a >= b then a else b
  }

  /** The share of accepted packets among accepted and empty ones, 0 when there were none. */
  function AcceptRate(accept: nat, empty: nat): real {
    (accept as real) / (Max(1, accept + empty) as real)
  }

  /** The accept rate is a fraction. */
  lemma AcceptRateBounds(accept: nat, empty: nat)
    ensures 0.0 <= AcceptRate(accept, empty) <= 1.0
  {
    var d := Max(1, accept + empty) as real;
    var q := (accept as real) / d;
    assert q * d == accept as real;
    if q > 1.0 {
      assert (q - 1.0) * d > 0.0;
    }
  }

  /**
   * Lines 193-208: the new smoothed rate and the condition it falls in:
   * too slow at or below `threshold`, too fast at or above
   * `1 - threshold`, okay in between.
   */
  function GetConditionUpdates(accept: nat, empty: nat, oldAvgRate: real, threshold: real): (r: (real, UpdateSpeed))
    ensures r.1 == TooSlow <==> r.0 <= threshold
    ensures r.1 == TooFast <==> threshold < r.0 && r.0 >= 1.0 - threshold
    ensures r.1 == Okay <==> threshold < r.0 < 1.0 - threshold
  {
    var newAvgRate := (1.0 - ETA) * oldAvgRate + ETA * AcceptRate(accept, empty);
    var condition :=
      if newAvgRate <= threshold then TooSlow
      else if newAvgRate >= 1.0 - threshold then TooFast
      else Okay;
    (newAvgRate, condition)
  }

  /**
   * Line 197: the new rate lies between the old average and the current
   * accept rate, so a rate in [0, 1] stays there.
   */
  lemma SmoothedRateBetween(accept: nat, empty: nat, oldAvgRate: real, threshold: real)
    ensures var rate := GetConditionUpdates(accept, empty, oldAvgRate, threshold).0;
      var current := AcceptRate(accept, empty);
      (oldAvgRate <= current ==> oldAvgRate <= rate <= current) &&
      (current <= oldAvgRate ==> current <= rate <= oldAvgRate)
  {
  }

  lemma SmoothedRateInUnit(accept: nat, empty: nat, oldAvgRate: real, threshold: real)
    requires 0.0 <= oldAvgRate <= 1.0
    ensures 0.0 <= GetConditionUpdates(accept, empty, oldAvgRate, threshold).0 <= 1.0
  {
    AcceptRateBounds(accept, empty);
    SmoothedRateBetween(accept, empty, oldAvgRate, threshold);
  }

  /** Line 197: a rate that matches the current accept rate does not move. */
  lemma SmoothedRateFixed(accept: nat, empty: nat, threshold: real)
    ensures var current := AcceptRate(accept, empty);
      GetConditionUpdates(accept, empty, current, threshold).0 == current
  {
  }

  /**
   * The counters of lines 23-33 and 41-44: packets since the last reset,
   * by kind and sub-kind, and per scanner.
   */
  datatype Counts = Counts(
    totalPackets: nat, emptyPackets: nat, acceptPackets: nat, rejectedPackets: nat,
    acceptRootPackets: nat, acceptNonrootPackets: nat, emptyRootPackets: nat, emptyNonrootPackets: nat,
    rejectedPacketsModel: nat, rejectedPacketsSample: nat,
    numPacks: seq<nat>, numRejPacks: seq<nat>, numAccNonrootPacks: seq<nat>, numEmptyPacks: seq<nat>)

  /**
   * One vector entry per scanner, and every counter is the sum of its
   * parts: each packet is accepted, empty or rejected, each of those
   * splits in two, and the per-scanner vectors add up to their totals.
   */
  ghost predicate Tallied(c: Counts, numMachines: nat) {
    |c.numPacks| == numMachines && |c.numRejPacks| == numMachines &&
    |c.numAccNonrootPacks| == numMachines && |c.numEmptyPacks| == numMachines &&
    c.totalPackets == c.acceptPackets + c.emptyPackets + c.rejectedPackets &&
    c.acceptPackets == c.acceptRootPackets + c.acceptNonrootPackets &&
    c.emptyPackets == c.emptyRootPackets + c.emptyNonrootPackets &&
    c.rejectedPackets == c.rejectedPacketsModel + c.rejectedPacketsSample &&
    Sum(c.numPacks) == c.totalPackets && Sum(c.numRejPacks) == c.rejectedPackets &&
    Sum(c.numAccNonrootPacks) == c.acceptNonrootPackets && Sum(c.numEmptyPacks) == c.emptyPackets
  }

  /** Every counter is zero, with one entry per scanner. */
  ghost predicate Zeroed(c: Counts, numMachines: nat) {
    c == Counts(0, 0, 0, 0, 0, 0, 0, 0, 0, 0,
                seq(numMachines, _ => 0), seq(numMachines, _ => 0), seq(numMachines, _ => 0), seq(numMachines, _ => 0))
  }

  /** No packets add up. */
  lemma ZeroedTallied(c: Counts, numMachines: nat)
    requires Zeroed(c, numMachines)
    ensures Tallied(c, numMachines)
  {
    SumZeros(numMachines);
  }

  function Bump(v: seq<nat>, i: nat): (r: seq<nat>)
    requires i < |v|
    ensures |r| == |v| && r[i] == v[i] + 1
    ensures forall k :: 0 <= k < |v| && k != i ==> r[k] == v[k]
  {
    v[i := v[i] + 1]
  }

  /**
   * Lines 78-113: the counts after one more packet of kind `t` from
   * scanner `m`.
   */
  function CountPacket(c: Counts, m: nat, t: PacketType): (r: Counts)
    requires m < |c.numPacks| && m < |c.numRejPacks| && m < |c.numAccNonrootPacks| && m < |c.numEmptyPacks|
  {
    var c := c.(totalPackets := c.totalPackets + 1, numPacks := Bump(c.numPacks, m));
    match t
    case AcceptRoot =>
      c.(acceptPackets := c.acceptPackets + 1, acceptRootPackets := c.acceptRootPackets + 1)
    case AcceptNonroot =>
      c.(acceptPackets := c.acceptPackets + 1, acceptNonrootPackets := c.acceptNonrootPackets + 1,
         numAccNonrootPacks := Bump(c.numAccNonrootPacks, m))
    case EmptyRoot =>
      c.(emptyPackets := c.emptyPackets + 1, emptyRootPackets := c.emptyRootPackets + 1,
         numEmptyPacks := Bump(c.numEmptyPacks, m))
    case EmptyNonroot =>
      c.(emptyPackets := c.emptyPackets + 1, emptyNonrootPackets := c.emptyNonrootPackets + 1,
         numEmptyPacks := Bump(c.numEmptyPacks, m))
    case RejectSample =>
      c.(rejectedPackets := c.rejectedPackets + 1, rejectedPacketsSample := c.rejectedPacketsSample + 1,
         numRejPacks := Bump(c.numRejPacks, m))
    case RejectBaseModel =>
      c.(rejectedPackets := c.rejectedPackets + 1, rejectedPacketsModel := c.rejectedPacketsModel + 1,
         numRejPacks := Bump(c.numRejPacks, m))
  }

  /**
   * Lines 78-113: counting a packet keeps every counter the sum of its
   * parts and the vectors one entry per scanner.
   */
  lemma CountPacketTallied(c: Counts, numMachines: nat, m: nat, t: PacketType)
    requires Tallied(c, numMachines) && m < numMachines
    ensures Tallied(CountPacket(c, m, t), numMachines)
  {
    SumBumped(c.numPacks, m);
    match t
    case AcceptRoot =>
    case AcceptNonroot => SumBumped(c.numAccNonrootPacks, m);
    case EmptyRoot => SumBumped(c.numEmptyPacks, m);
    case EmptyNonroot => SumBumped(c.numEmptyPacks, m);
    case RejectSample => SumBumped(c.numRejPacks, m);
    case RejectBaseModel => SumBumped(c.numRejPacks, m);
  }

  lemma SumBumped(v: seq<nat>, i: nat)
    requires i < |v|
    ensures Sum(Bump(v, i)) == Sum(v) + 1
  {
    SumBump(v, i);
  }

  /**
   * Lines 78-113: the total and scanner `m`'s count grow by one, and
   * exactly the kind and sub-kind of the packet grow with them.
   */
  lemma CountPacketCounts(c: Counts, m: nat, t: PacketType)
    requires m < |c.numPacks| && m < |c.numRejPacks| && m < |c.numAccNonrootPacks| && m < |c.numEmptyPacks|
    ensures var r := CountPacket(c, m, t);
      r.totalPackets == c.totalPackets + 1 && r.numPacks[m] == c.numPacks[m] + 1 &&
      (r.acceptPackets == c.acceptPackets + 1 <==> t.AcceptRoot? || t.AcceptNonroot?) &&
      (r.emptyPackets == c.emptyPackets + 1 <==> t.EmptyRoot? || t.EmptyNonroot?) &&
      (r.rejectedPackets == c.rejectedPackets + 1 <==> t.RejectSample? || t.RejectBaseModel?) &&
      (r.acceptNonrootPackets == c.acceptNonrootPackets + 1 <==> t.AcceptNonroot?) &&
      (r.emptyNonrootPackets == c.emptyNonrootPackets + 1 <==> t.EmptyNonroot?) &&
      r.acceptPackets + r.emptyPackets + r.rejectedPackets == c.acceptPackets + c.emptyPackets + c.rejectedPackets + 1
  {
  }

  class PacketStats {
    var counts: Counts
    var avgAcceptNonrootRate: real
    var threshold: real
    var lastNonrootCondition: UpdateSpeed
    var currNonrootCondition: UpdateSpeed
    const numMachines: nat

    ghost predicate Valid()
      reads this
    {
      Tallied(counts, numMachines)
    }

    /** Lines 50-76: no packet yet, an average rate of one half, both conditions okay. */
    constructor (numMachines: nat)
      ensures Valid() && Zeroed(counts, numMachines) && this.numMachines == numMachines
      ensures avgAcceptNonrootRate == 0.5 && threshold == THRESHOLD
      ensures lastNonrootCondition == Okay && currNonrootCondition == Okay
    {
      this.numMachines := numMachines;
      counts := Counts(0, 0, 0, 0, 0, 0, 0, 0, 0, 0,
                       seq(numMachines, _ => 0), seq(numMachines, _ => 0), seq(numMachines, _ => 0), seq(numMachines, _ => 0));
      avgAcceptNonrootRate := 0.5;
      threshold := THRESHOLD;
      lastNonrootCondition, currNonrootCondition := Okay, Okay;
      new;
      ZeroedTallied(counts, numMachines);
    }

    /**
     * Lines 78-113: one more packet from scanner `machineId`.  A scanner
     * index beyond the vectors panics.
     */
    method HandleNewPacket(machineId: nat, packetType: PacketType)
      requires Valid() && machineId < numMachines
      modifies this
      ensures Valid() && counts == CountPacket(old(counts), machineId, packetType)
      ensures avgAcceptNonrootRate == old(avgAcceptNonrootRate) && threshold == old(threshold)
      ensures lastNonrootCondition == old(lastNonrootCondition) && currNonrootCondition == old(currNonrootCondition)
    {
      CountPacketTallied(counts, numMachines, machineId, packetType);
      counts := CountPacket(counts, machineId, packetType);
    }

    /**
     * Lines 115-123: the current condition becomes the last one, and the
     * average rate and condition are brought up to date with the non-root
     * packets counted.
     */
    method UpdateCondition()
      modifies this
      ensures lastNonrootCondition == old(currNonrootCondition)
      ensures (avgAcceptNonrootRate, currNonrootCondition) ==
        GetConditionUpdates(old(counts.acceptNonrootPackets), old(counts.emptyNonrootPackets), old(avgAcceptNonrootRate), old(threshold))
      ensures counts == old(counts) && threshold == old(threshold)
    {
      lastNonrootCondition := currNonrootCondition;
      var rateCond := GetConditionUpdates(counts.acceptNonrootPackets, counts.emptyNonrootPackets, avgAcceptNonrootRate, threshold);
      avgAcceptNonrootRate := rateCond.0;
      currNonrootCondition := rateCond.1;
    }

    /** Lines 125-127: enough packets for at least ten, and two per scanner. */
    predicate IsTriggered()
      reads this
    {
      counts.totalPackets >= Max(10, numMachines * 2)
    }

    /** Lines 129-132: the speed is off and was off the same way last time. */
    predicate IsNonrootSameTrend()
      reads this
    {
      currNonrootCondition != Okay && currNonrootCondition == lastNonrootCondition
    }

    /** Lines 134-138: the speed is off, and was off the other way last time. */
    predicate IsNonrootOppositeTrend()
      reads this
    {
      currNonrootCondition != Okay && lastNonrootCondition != Okay &&
      currNonrootCondition != lastNonrootCondition
    }

    /**
     * Lines 140-163: every counter and per-scanner entry back to zero;
     * the average rate and the conditions are kept.
     */
    method Reset()
      requires Valid()
      modifies this
      ensures Valid() && Zeroed(counts, numMachines) && !IsTriggered()
      ensures avgAcceptNonrootRate == old(avgAcceptNonrootRate) && threshold == old(threshold)
      ensures lastNonrootCondition == old(lastNonrootCondition) && currNonrootCondition == old(currNonrootCondition)
    {
      var numPacks := ZeroAll(counts.numPacks);
      var numRejPacks := ZeroAll(counts.numRejPacks);
      var numAccNonrootPacks := ZeroAll(counts.numAccNonrootPacks);
      var numEmptyPacks := ZeroAll(counts.numEmptyPacks);
      counts := Counts(0, 0, 0, 0, 0, 0, 0, 0, 0, 0, numPacks, numRejPacks, numAccNonrootPacks, numEmptyPacks);
      ZeroedTallied(counts, numMachines);
    }
  }

  /** Lines 155-162: each entry set to zero in turn. */
  method ZeroAll(v: seq<nat>) returns (r: seq<nat>)
    ensures r == seq(|v|, _ => 0)
  {
    r := v;
    var i := 0;
    while i < |r|
      invariant 0 <= i <= |r| == |v|
      invariant forall k :: 0 <= k < i ==> r[k] == 0
    {
      r := r[i := 0];
      i := i + 1;
    }
  }

  /** Lines 129-138: the same-trend and opposite-trend tests never hold together. */
  lemma TrendsExclusive(s: PacketStats)
    ensures !(s.IsNonrootSameTrend() && s.IsNonrootOppositeTrend())
  {
  }

  /** Lines 78-81 with 125-127: a new packet never switches the trigger off. */
  method TriggerStaysOn(s: PacketStats, machineId: nat, packetType: PacketType)
    requires s.Valid() && machineId < s.numMachines && s.IsTriggered()
    modifies s
    ensures s.Valid() && s.IsTriggered()
  {
    s.HandleNewPacket(machineId, packetType);
  }

  /**
   * Lines 78-81 with 125-127: after a reset the trigger fires exactly
   * when `max(10, 2 * num_machines)` packets have come in.
   */
  method TriggerAfterEnoughPackets(s: PacketStats, machineId: nat, packetType: PacketType, count: nat)
      returns (firstTriggered: nat)
    requires s.Valid() && machineId < s.numMachines
    modifies s
    ensures s.Valid() && s.counts.totalPackets == count
    ensures firstTriggered == Max(10, s.numMachines * 2)
    ensures s.IsTriggered() <==> count >= firstTriggered
  {
    s.Reset();
    var i := 0;
    while i < count
      invariant 0 <= i <= count && s.Valid() && s.counts.totalPackets == i
    {
      s.HandleNewPacket(machineId, packetType);
      i := i + 1;
    }
    firstTriggered := Max(10, s.numMachines * 2);
  }
}
