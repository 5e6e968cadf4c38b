/**
 * The messages of src/commons/packet.rs: a `TaskPacket` tells a scanner
 * which model, gamma and node to work on; an `UpdatePacket` carries a
 * scanner's new tree back and is classified against the current model.
 *
 * A task packet's model is the type parameter `M`, compared with `==`; gamma
 * is a `real`, so the NaN of `f32` (never equal to itself) is not
 * modelled.
 */
module Packets {
  import opened Wrappers
  import opened Trees

  datatype TaskPacket<M(==)> = TaskPacket(
    packetId: nat,
    model: Option<M>,
    gamma: Option<real>,
    expandNode: Option<nat>,
    newSampleVersion: Option<nat>)

  /** Lines 33-41: id 0 and nothing set. */
  function NewTaskPacket<M(==)>(): (p: TaskPacket<M>)
    ensures p.packetId == 0
    ensures p.model.None? && p.gamma.None? && p.expandNode.None? && p.newSampleVersion.None?
  {
    TaskPacket(0, None, None, None, None)
  }

  /**
   * Lines 63-67: same model and gamma, and the same node to expand unless
   * `other` names none.  Ids and sample versions are not compared.
   */
  predicate Equals<M(==)>(self: TaskPacket<M>, other: TaskPacket<M>) {
    self.model == other.model && self.gamma == other.gamma &&
    (other.expandNode.None? || self.expandNode == other.expandNode)
  }

  /** Every packet equals itself. */
  lemma EqualsReflexive<M>(p: TaskPacket<M>)
    ensures Equals(p, p)
  {
  }

  /** `equals` is not symmetric: a packet naming a node equals its copy naming none, not the reverse. */
  lemma EqualsNotSymmetric<M>(p: TaskPacket<M>)
    ensures var q := p.(expandNode := Some(7));
      var r := p.(expandNode := None);
      Equals(q, r) && !Equals(r, q)
  {
  }

  /**
   * Lines 69-78: a copy of `self` whose unset node to expand and unset
   * sample version are taken from `other`.
   */
  function CloneWithExpand<M(==)>(self: TaskPacket<M>, other: TaskPacket<M>): (r: TaskPacket<M>)
    ensures r.packetId == self.packetId && r.model == self.model && r.gamma == self.gamma
    ensures self.expandNode.Some? ==> r.expandNode == self.expandNode
    ensures self.expandNode.None? ==> r.expandNode == other.expandNode
    ensures self.newSampleVersion.Some? ==> r.newSampleVersion == self.newSampleVersion
    ensures self.newSampleVersion.None? ==> r.newSampleVersion == other.newSampleVersion
  {
    var withNode := if self.expandNode.None? then self.(expandNode := other.expandNode) else self;
    if withNode.newSampleVersion.None? then withNode.(newSampleVersion := other.newSampleVersion) else withNode
  }

  /** Filling in from the same packet twice changes nothing the second time. */
  lemma CloneWithExpandIdempotent<M>(self: TaskPacket<M>, other: TaskPacket<M>)
    ensures CloneWithExpand(CloneWithExpand(self, other), other) == CloneWithExpand(self, other)
  {
  }

  /** The filled-in copy still equals the packet it was made from. */
  lemma CloneWithExpandEquals<M>(self: TaskPacket<M>, other: TaskPacket<M>)
    ensures Equals(CloneWithExpand(self, other), self)
  {
  }

  /**
   * The fields of a scanner's report that the schedulers read: the
   * sending scanner, the node it worked on and its gamma.  The rest of
   * this packet type is not part of this model.
   */
  datatype Packet = Packet(sourceMachineId: nat, nodeId: nat, gamma: real)

  datatype UpdatePacketType = Accept | Empty | BaseVersionMismatch | Unset

  /**
   * Lines 120-131: a packet built on another model size is a mismatch
   * before anything else; otherwise it is empty without a tree and
   * accepted with one.
   */
  function Classify(baseSize: nat, currModelSize: nat, hasTree: bool): (t: UpdatePacketType)
    ensures t == BaseVersionMismatch <==> baseSize != currModelSize
    ensures t == Empty <==> baseSize == currModelSize && !hasTree
    ensures t == Accept <==> baseSize == currModelSize && hasTree
    ensures t != Unset
  {
    if baseSize != currModelSize then BaseVersionMismatch
    else if !hasTree then Empty
    else Accept
  }

  class UpdatePacket<M(==)> {
    var packetId: nat
    var updateTree: Option<Tree>
    var baseSize: nat
    var task: TaskPacket<M>
    var sampleVersion: nat
    var ess: real
    var packetType: UpdatePacketType

    /** Lines 97-113: id 0 and not yet classified. */
    constructor (updateTree: Option<Tree>, baseSize: nat, task: TaskPacket<M>, sampleVersion: nat, ess: real)
      ensures packetId == 0 && packetType == Unset
      ensures this.updateTree == updateTree && this.baseSize == baseSize && this.task == task
      ensures this.sampleVersion == sampleVersion && this.ess == ess
    {
      packetId := 0;
      this.updateTree := updateTree;
      this.baseSize := baseSize;
      this.task := task;
      this.sampleVersion := sampleVersion;
      this.ess := ess;
      packetType := Unset;
    }

    /** Lines 119-132: only the type changes. */
    method SetPacketType(currModelSize: nat)
      modifies this
      ensures packetType == Classify(baseSize, currModelSize, updateTree.Some?)
      ensures packetId == old(packetId) && updateTree == old(updateTree) && baseSize == old(baseSize)
      ensures task == old(task) && sampleVersion == old(sampleVersion) && ess == old(ess)
    {
      packetType := Classify(baseSize, currModelSize, updateTree.Some?);
    }
  }
}
