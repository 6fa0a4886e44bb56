/** Instances and what a replica knows about them. */
module Instances {
  import opened Bytes
  import opened Ids
  import opened Instructions

  type NodeId = InstanceID

  type Status = Byte
  const PREACCEPTED: Status := 1
  const ACCEPTED: Status := 2
  const COMMITTED: Status := 3
  const EXECUTED: Status := 4

  type Ballot = x: nat | x < 0x1_0000_0000

  /** scc is the recorded strongly connected component, empty until recorded. */
  datatype Instance = Instance(
    id: InstanceID,
    leader: NodeId,
    successors: seq<NodeId>,
    command: Instruction,
    deps: seq<InstanceID>,
    status: Status,
    ballot: Ballot,
    noop: bool,
    depMatch: bool,
    readOnly: bool,
    scc: set<InstanceID>)

  type InstanceMap = map<InstanceID, Instance>

  /** What execution depends on: the known instances, the execution log, and
      the instructions the store has carried out. */
  datatype Replica = Replica(
    instances: InstanceMap,
    executed: seq<InstanceID>,
    applied: seq<Instruction>)

  predicate IsCommitted(insts: InstanceMap, id: InstanceID) {
    id in insts && insts[id].status >= COMMITTED
  }

  predicate IsExecuted(insts: InstanceMap, id: InstanceID) {
    id in insts && insts[id].status >= EXECUTED
  }

  ghost predicate StatusesValid(insts: InstanceMap) {
    forall x :: x in insts ==> insts[x].status <= EXECUTED
  }
}
