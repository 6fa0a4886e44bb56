# Kickboxer, verified

A Dafny model of the consensus core of kickboxer, a replicated key/value store
built on Egalitarian Paxos, together with its token ring, its wire format and
its read repair.

In Egalitarian Paxos every replica orders commands by the dependencies it
learned for them. A replica executes a committed instance by building a graph of
its dependencies, splitting it into strongly connected components, and running
the components in reverse topological order, each sorted by (timestamp, id). The
code prunes that graph: an instance already executed is left out unless
something connects it to the rest. The central results say that pruning does no
harm where the design promises order, and exactly where it does.

| files | contents |
|---|---|
| `Bytes`, `Options`, `Ids`, `Graphs`, `Instructions`, `Instances` | the data: bytes and words, ids and their order, dependency graphs, instances |
| `Tarjan` | `tarjanConnect`, fully correct |
| `OrderBuilding`, `Manager` | `addInstance`, `getExecutionOrder`, `executeDependencyChain`, `applyInstance`, the message handlers and leader phases, as methods on mutable state |
| `ExecutionOrder`, `Handlers` | the same steps as a relation and as functions on values, which the methods are proved against |
| `Agreement`, `Traces` | the invariant every step keeps, and what holds over whole runs |
| `TransitiveOrder`, `ReorderedPath` | order along dependency paths: where it fails, and exactly when it holds |
| `Recovery` | explicit prepare and quorums |
| `DependencyTrie`, `DependencyRuns`, `DependencyManager` | the dependency index: the tree as a value, whole runs of it, and the objects updated in place |
| `IndexedRuns` | runs of a replica with the calls they make on the index |
| `Ring`, `RingStability` | the token ring |
| `Codecs`, `WireFormat`, `Messages` | codecs, and the bytes of ids, instructions, instances and messages |
| `Connections`, `Streams`, `MessageStreams` | connections cut into packets, buffered readers on them, and the code that reads and writes field by field |
| `KVStore` | the store and its read repair |

## Reading the results

- A `Replica` is the instance map, the execution log and the list of instructions
  the store has carried out. A run is any sequence of message handlers, leader
  phases and executions, with any messages, from the empty replica
  (`Traces.IsTrace`). `Reachable(d, s)` adds the one hypothesis made: every
  commit of an instance x carries the dependencies `d[x]`. The code assumes the
  same (`src/consensus/instance.go:366-370` logs a critical error otherwise).
- `TimeOf` (the timestamp inside an id) and `InstantOf` (the instant a time
  denotes) are uninterpreted constants: the results hold for every function.
- Where an operation updates state in place it is a method, and its `ensures`
  equates the new state with a function of the old one or with a relation. The
  theorems are about those functions and relations.
- Whatever the environment decides is a parameter: whether the store fails on an
  instance, how a connection cuts its bytes into packets, which answers arrive
  before a timeout.

Six claims one might expect are false of the code. Each has a lemma that shows
the failure and one with the exact condition:

- *Order along dependency paths.* With the cycle X → Y → Z → X partly executed, a
  later run on T → P → X leaves X out and runs P before Z
  (`ReorderedPath.PathOrderFails`). For every run and every instance it executes,
  the instance comes after all that it reaches if and only if nothing cut off by
  the pruned graph is missed (`TransitiveOrder.PathOrderExactly`); a whole log is
  ordered along paths if and only if no execution has missed anything
  (`TransitiveOrder.LogInPathOrderExactly`). The condition speaks of the graph and
  the order alone, which are known before anything is executed.
- *Ballots never fall.* The increment is on a uint32 (`Handlers.TopBallotFalls`);
  over a run ballots only rise if and only if no step wraps
  (`Traces.BallotRisesIffNoWrap`).
- *Accepting a prepare is a promise.* A replica accepts a prepare for an instance
  it does not know and records nothing (`Handlers.UnknownPromiseIsBroken`); the
  promise binds if and only if the instance is known
  (`Handlers.PromiseBindsIffKnown`), and then lasts exactly as long as no step
  wraps the ballot (`Traces.PromiseIsKeptIffNoWrap`).
- *Quorums meet.* A quorum is `len(replicas)/2 + 1`, where `replicas` leaves out the
  asking node, so of two replicas each is a quorum (`Recovery.PairSplits`);
  quorums meet if and only if the group is odd (`Recovery.QuorumsMeetIffOdd`).
- *Messages survive the wire.* Lengths are cut to 32 bits (`Codecs.LongFieldIsCut`);
  a message is received if and only if all its lengths fit
  (`MessageStreams.ReceivedIffCarried`). Ids are or-ed into their receiver and are
  read back for all values if and only if it was zero
  (`Streams.ReadsBackIffZeroed`).
- *Reading a message leaves what follows.* Each read puts a buffer of its own on the
  connection and drops it, so a second message that arrives with the first is lost
  (`MessageStreams.NextMessageIsLost`). What follows a message survives however the
  stream is cut if and only if nothing follows
  (`MessageStreams.RestSurvivesIffNone`).

Two places where code and comments part, and the model follows the code: on
nested keys `ReportExecuted` and `AddDependency` descend into
`ReportAcknowledged`, so nothing below a root key is ever marked executed; and
`managerPrepareApply` restarts at pre-accept when no reply knows the instance,
even if it is accepted locally.

## Model

| member | source | states |
|---|---|---|
| Tarjan.TarjanConnect | src/consensus/algorithms.go:7-95 | for every graph, including dependencies on absent vertices: the output lists every vertex once, each entry is exactly one strongly connected component, and every edge leads to the same or an earlier entry |
| Tarjan.Connector.StrongConnect | src/consensus/algorithms.go:33-86 | terminates on the count of unvisited vertices; afterwards only vertices still being visited further up may have unvisited successors, and the vertex is emitted or linked by its lowlink to an earlier stacked one |
| Tarjan.Connector.Descend | src/consensus/algorithms.go:53-58 | a recursive visit keeps the scan of the vertex above and lowers its link to the child's |
| Tarjan.Connector.LookAt | src/consensus/algorithms.go:49-66 | one successor scanned: absent ones ignored, unvisited ones descended into, stacked ones lower the link, emitted ones do not |
| Tarjan.Connector.Enter | src/consensus/algorithms.go:34-45 | numbering and stacking a vertex keeps the invariant and starts its scan |
| Tarjan.Connector.Leave | src/consensus/algorithms.go:68-85 | a root pops exactly its component, any other vertex stays stacked with a path to an earlier one |
| Tarjan.Connector.PopComponent | src/consensus/algorithms.go:73-84 | the pop loop takes the stack down to the root, no further |
| Tarjan.PoppedIsComponent | src/consensus/algorithms.go:68-85 | what lies above a root on the stack is one whole strongly connected component |
| OrderBuilding.OrderBuilder.IsConnected | src/consensus/manager_execute.go:90-103 | true if and only if some dependency is in the graph, unexecuted or wanted by the target, or a recorded component asks for the instance |
| OrderBuilding.LeftOutMeans | src/consensus/manager_execute.go:90-103 | left out if and only if executed, not wanted by the target, with all dependencies executed and neither in the graph nor wanted, and asked for by no recorded component |
| OrderBuilding.OrderBuilder.Insert | src/consensus/manager_execute.go:104-113 | the graph, the uncommitted set and the required set grow by exactly what the instance contributes |
| OrderBuilding.OrderBuilder.AddInstance | src/consensus/manager_execute.go:69-130 | terminates on cyclic graphs; on success every dependency of every new vertex is in the graph or executed and rightly left out; on error names an unknown dependency of a vertex |
| OrderBuilding.OrderBuilder.AddDep | src/consensus/manager_execute.go:114-128 | after one dependency: it is in the graph or rightly left out, and what was settled before still is |
| OrderBuilding.OrderBuilder.AddDeps | src/consensus/manager_execute.go:114-128 | after the loop all dependencies of the vertex and of everything added since are settled |
| Managers.SortIds | src/consensus/manager_execute.go:162-163 | a permutation sorted by (timestamp, id) |
| Managers.Manager.RecordScc | src/consensus/manager_execute.go:148-175 | every member, and nothing else, gets the whole component recorded |
| Managers.Manager.SortAndRecord | src/consensus/manager_execute.go:159-176 | components are sorted one by one and recorded only when nothing is uncommitted |
| Managers.Manager.GetExecutionOrder | src/consensus/manager_execute.go:51-201 | the result flattens the sorted components of the pruned graph in reverse topological order, with exactly the uncommitted vertices; an unknown instance changes nothing |
| Managers.Manager.ApplyInstance | src/consensus/manager_execute.go:210-252 | succeeds if and only if the instance is executed already, or committed and a noop or accepted by the store; then status, log, store and dependency index move together, a noop leaving the store alone; otherwise nothing changes |
| Managers.Manager.ExecuteDependencyChain | src/consensus/manager_execute.go:264-292 | applies a prefix of the order that ends at the target, at the end or at an instance that cannot run, and says which; the store took every newly executed instance that is not a noop |
| Managers.Manager.ExecuteInstance | src/consensus/manager_execute.go:294-404 | a completed or failed attempt is one run of the relation and reports exactly the newly executed instances to the index, and the store took every one of them that is not a noop; a blocked or missing one changes nothing and names exactly the uncommitted vertices of the graph, or an unknown dependency of one |
| Managers.ReachableIsOrderable | src/consensus/manager_execute.go:90-103 | on every reachable replica, all dependencies of executed instances are known, so ordering never looks up a missing one |
| Managers.RunIsReachable | src/consensus/manager_execute.go:294-404 | a run leaves a reachable replica reachable, with no new hypothesis |
| Managers.CompletedRunExecutesTarget | src/consensus/manager_execute.go:264-292 | after a completed run the target is in the log |
| Managers.Progress | src/consensus/manager_execute.go:294-404 | on every reachable replica an attempt executes if and only if the target and all that it reaches are known and committed; it then ends with the target executed or with a failure of the store |
| Managers.HeldUpByNeed | src/consensus/manager_execute.go:69-130 | whatever blocks an attempt is reached from the target, and whatever is missing is a dependency of something reached |
| Traces.ExecutionAgreement | src/consensus/manager_execute.go:51-201 | any two reachable replicas that executed both of two instances joined by a dependency or by a cycle executed them in the same order |
| Traces.DependenciesRunFirst | src/consensus/manager_execute.go:69-130 | in every reachable log a direct dependency comes earlier, or is in the same cycle with a larger id; all that an executed instance reaches is committed |
| Traces.ComponentsAreRecorded | src/consensus/manager_execute.go:148-175 | once any member of a component of several is executed, every member, that one included, has exactly the component recorded |
| Traces.ExecutedExactlyOnce | src/consensus/manager_execute.go:210-252 | the log has no duplicates, holds exactly the executed instances, and the store carried out exactly its non-noops in order |
| Traces.CommandsOf | src/consensus/manager_execute.go:218-230 | what the store carries out for a log: one command for each further instance, none for a noop |
| Traces.ReachableIsSound | src/consensus/manager_execute.go:51-292 | every state of every run satisfies the execution invariant |
| Agreement.RunKeepsInv | src/consensus/manager_execute.go:51-292 | one run, whatever it pruned and wherever it stopped, keeps the invariant and only extends the log |
| Agreement.SubGraphComponents | src/consensus/manager_execute.go:84-130 | the components of the pruned graph are those of the full dependency graph |
| Agreement.ComponentIsAdded | src/consensus/manager_execute.go:84-130 | pruning never splits a component: with one member the graph has them all, still connected |
| Agreement.RecordKeepsInv | src/consensus/manager_execute.go:148-175 | recording the components of a run keeps the invariant |
| Agreement.RecordingIsExact | src/consensus/manager_execute.go:148-175 | recording changes nothing but components, gives each member of a component of several exactly that one, and leaves all others as they were |
| Agreement.ApplyKeepsInv | src/consensus/manager_execute.go:210-252 | applying an instance whose predecessors are done keeps the invariant |
| Agreement.NextIsReady | src/consensus/manager_execute.go:264-292 | at every point of a run the next instance of the order has its predecessors done, those left out included |
| Agreement.LogOrderIsFixed | src/consensus/manager_execute.go:51-292 | the order of two related executed instances is a function of the dependency graph alone |
| Agreement.ReplicasAgree | src/consensus/manager_execute.go:51-292 | agreement from the invariant |
| TransitiveOrder.PathOrderExactly | src/consensus/manager_execute.go:51-292 | for every run and every instance it executes: it comes after all that it reaches, larger members of its component aside, if and only if whatever the pruned graph cut off from it and left unexecuted stands before it in the order anyway |
| TransitiveOrder.LogInPathOrderExactly | src/consensus/manager_execute.go:51-292 | over every run of a replica: the whole log is ordered along paths if and only if that holds at every execution |
| TransitiveOrder.PathAgreement | src/consensus/manager_execute.go:51-292 | any two reachable replicas whose logs are ordered along paths executed two instances, one of which reaches the other, in the same order |
| TransitiveOrder.TraceHasRuns | src/consensus/manager_execute.go:294-404 | every execution of a run has a graph and an order for that condition to speak of |
| TransitiveOrder.GapIsNotMutual | src/consensus/manager_execute.go:90-130 | what is cut off from an instance is never in its component |
| TransitiveOrder.NoHazardKeepsPaths | src/consensus/manager_execute.go:90-103 | if all that may be left out has nothing unexecuted behind it, order along paths holds |
| TransitiveOrder.ChainExecutesOnlyItself | src/consensus/manager_execute.go:90-103 | a run on a chain ending in an instance that is left out executes the chain and nothing else |
| TransitiveOrder.PathOrderIffSettled | src/consensus/manager_execute.go:90-103 | the condition of PathOrderExactly, read off on a chain of two: the instance left out has nothing unexecuted behind it |
| TransitiveOrder.ChainHasRun | src/consensus/manager_execute.go:51-292 | on every such chain a run exists that completes |
| ReorderedPath.PathOrderFails | src/consensus/manager_execute.go:90-103 | a reachable replica on which a run on T can complete, and every one that does executes P without Z although P reaches Z |
| ReorderedPath.ExampleExists | src/consensus/manager_execute.go:28-42 | any five ids give such an example, whatever their timestamps |
| ReorderedPath.AfterIsReachable | src/consensus/manager_execute.go:51-292 | the state of the counterexample is reached by commits and one run |
| Ids.PrecedesIsStrictTotalOrder | src/consensus/manager_execute.go:28-42 | irreflexive, transitive and total on distinct ids |
| WireFormat.PrecedesComparesBytes | src/consensus/manager_execute.go:28-42 | comparing the words is comparing the 16 encoded bytes |
| Managers.Manager.GetOrSetInstance | src/consensus/manager.go:274-288 | a known instance is kept; a new one is admitted without component and never as executed, and added to the index if it is past pre-accept |
| Managers.Manager.PreAcceptInstance | src/consensus/manager_preaccept.go:28-54 | the pre-accept step with exactly the dependencies the index returns, refused exactly when the status is past it |
| Managers.Manager.AcceptInstance | src/consensus/manager_accept.go:34-63 | the accept step, refused exactly when the status is past it, and its acknowledgement to the index |
| Managers.Manager.CommitInstance | src/consensus/manager_commit.go:33-65 | the commit step, refused exactly when the instance is executed, and its acknowledgement to the index |
| Managers.Manager.AddMissingInstances | src/consensus/manager.go:317-349 | unknown instances are admitted in order and added to the index, known ones left alone; panics exactly on a new instance without a status, with the instances and the index calls up to there |
| Managers.Manager.HandlePreAccept | src/consensus/manager_preaccept.go:208-283 | rejects exactly a ballot not higher than a known one; the dependencies are those the index returns, and the answer holds copies of exactly the known instances the leader lacks |
| Managers.Manager.HandleAccept | src/consensus/manager_accept.go:168-199 | missing instances are added first, with their panic and what it leaves behind, then the request is rejected exactly for a ballot not higher |
| Managers.Manager.HandleCommit | src/consensus/manager_commit.go:125-154 | commits without a ballot check and acknowledges to the index |
| Managers.Manager.Report | src/consensus/manager_depedencies.go:297-344 | one call on the index, which is always what the calls so far make of it |
| Managers.Manager.HandlePrepare | src/consensus/manager_prepare.go:533-568 | promises if and only if the instance is unknown or the ballot is higher; a promise changes the ballot alone, and the answer is a copy taken after it |
| Handlers.NextIsFrame | src/consensus/instance.go:300-396 | every handler and phase: known instances stay known, status never goes back, executed ones keep dependencies and noop flag, nothing becomes executed, the recorded component stays |
| Handlers.CommitDecides | src/consensus/instance.go:359-390 | a commit, received or local, of an instance not executed leaves it committed with the dependencies and noop flag sent |
| Handlers.PreacceptEventDecides | src/consensus/instance.go:300-327 | a pre-accept that is let in, received or local, leaves the instance pre-accepted with the dependencies learned and the noop flag sent, unless it is past that |
| Handlers.AcceptEventDecides | src/consensus/instance.go:329-354 | an accept that is let in, received or local, leaves the instance accepted with the dependencies and noop flag sent, unless it is past that |
| Handlers.PreacceptDecides | src/consensus/instance.go:300-327 | every field after the pre-accept phase, and all other instances untouched |
| Handlers.AcceptDecides | src/consensus/instance.go:329-354 | every field after the accept phase, and all other instances untouched |
| Handlers.CommitInstanceDecides | src/consensus/instance.go:359-390 | every field after the commit phase, and all other instances untouched |
| Handlers.HandlePreAcceptDecides | src/consensus/manager_preaccept.go:208-283 | a ballot not higher changes nothing; otherwise the pre-accept phase, and the match flag set if and only if both sides list the same dependencies |
| Handlers.HandleAcceptDecides | src/consensus/manager_accept.go:168-199 | the missing instances first, then the accept phase unless the ballot is not higher |
| Handlers.AddMissingHas | src/consensus/manager.go:317-349 | known afterwards are those known before and those listed |
| Handlers.AddMissingIsFirst | src/consensus/manager.go:317-349 | a new instance is taken as it was first listed, at most as committed |
| Handlers.PrepareRaises | src/consensus/instance.go:208-213 | preparing raises the ballot by one and changes nothing else |
| Handlers.BallotSeenRaises | src/consensus/instance.go:215-223 | a ballot seen raises the known one to it, and changes nothing else |
| Handlers.CopyKeeps | src/consensus/instance.go:251-272 | a copy keeps everything but the read-only flag and the component |
| Handlers.CommittedStays | src/consensus/instance.go:300-396 | no message or phase undoes a commit, if repeated commits agree |
| Traces.CommitIsFinal | src/consensus/instance.go:359-390 | over every run: once committed by a message or locally, committed with the same dependencies and noop flag ever after |
| Traces.StatusNeverFalls | src/consensus/instance.go:300-390 | over every run: status never goes back, the command stays, executed instances keep dependencies and noop flag |
| Handlers.BallotFallsIffWraps | src/consensus/instance.go:208-223 | one step lowers a ballot if and only if it increments it past the largest uint32 |
| Handlers.TopBallotFalls | src/consensus/instance.go:208-213 | preparing with the top ballot leaves ballot zero |
| Traces.BallotRisesIffNoWrap | src/consensus/instance.go:208-223 | over every run: a ballot never falls if and only if no step wraps it |
| Traces.BallotNeverFalls | src/consensus/instance.go:208-223 | between any two points of a run without a wrap |
| Handlers.LowBallotChangesNothing | src/consensus/manager_accept.go:182-190 | a request with a ballot not higher leaves a known instance untouched |
| Traces.PromiseIsKept | src/consensus/manager_prepare.go:533-568 | over every run: after accepting Prepare(b) for an instance it knows, no PreAccept or Accept with ballot at most b touches the instance, up to the first step that wraps its ballot |
| Traces.PromiseIsKeptIffNoWrap | src/consensus/manager_prepare.go:533-568 | over every run: that promise holds at every point from i to j if and only if no step between them wraps the ballot |
| Handlers.BindsIffHigh | src/consensus/manager_preaccept.go:218-245 | requests with a ballot of at most b leave a known instance untouched if and only if its ballot is at least b |
| Handlers.PromiseBindsIffKnown | src/consensus/manager_prepare.go:540-563 | an accepted prepare keeps every lower pre-accept and accept request from touching the instance if and only if the replica knows it |
| Handlers.UnknownPromiseIsBroken | src/consensus/manager_prepare.go:543-544 | an empty replica accepts Prepare(b), stays empty, and then accepts a request with a lower ballot |
| Managers.Manager.MergePreAcceptAttributes | src/consensus/manager_preaccept.go:133-149 | for any responses: the union of all dependency sets, and changes reported exactly when some set differs from the leader's own |
| Managers.UnionHas | src/consensus/manager_preaccept.go:133-149 | an id is collected if and only if some response lists it |
| Managers.ListIds | src/consensus/instance.go:286-291 | a set as a list, in any order |
| Managers.CopiesOf | src/consensus/manager_preaccept.go:265-275 | copies of exactly the known ones among some ids |
| Recovery.AnalyzePrepareResponses | src/consensus/manager_prepare.go:14-49 | the first reply with the highest status among those with the highest ballot, or none |
| Recovery.AnalysisMeans | src/consensus/manager_prepare.go:14-49 | no reply has a higher ballot than the one chosen, none of the same ballot a higher status, none before it both; none is chosen only if every reply with a status is outdone by a higher ballot |
| Recovery.PickHighestStatus | src/consensus/manager_prepare.go:32-48 | the second loop of the analysis |
| Recovery.AcceptedReplySharesBallot | src/consensus/manager_prepare.go:543-563 | a reply that accepts a prepare carries the request's ballot and the replica's status |
| Recovery.UnrejectedPicksHighestStatus | src/consensus/manager_prepare.go:14-49 | with no rejection the analysis picks a status at least that of every reply |
| Recovery.AwaitQuorum | src/consensus/manager_prepare.go:138-157 | stops with exactly a quorum, the sender counted, or times out exactly when too few answers arrive |
| Recovery.QuorumsMeetIffOdd | src/consensus/manager_prepare.go:138-157 | any two quorums share a node if and only if the group size is odd |
| Recovery.PairSplits | src/consensus/manager_prepare.go:138-157 | a group of two has disjoint quorums |
| Recovery.OddQuorumsMeet | src/consensus/manager_prepare.go:138-157 | two quorums of an odd group share a node |
| Recovery.AcceptedIsNeverDiscarded | src/consensus/manager_prepare.go:233-259 | in an odd group, once a quorum has accepted an instance no later unrejected prepare turns it into a noop, whatever else each node did meanwhile |
| Managers.Summarize | src/consensus/manager_prepare.go:177-191 | highest ballot, highest status, and whether all accepted |
| Managers.HighestStatusIs | src/consensus/manager_prepare.go:177-191 | the highest status is exceeded by no reply and attained by one unless it is zero |
| Managers.LastMatching | src/consensus/manager_prepare.go:201-209 | the last reply with the given ballot and status, or none |
| Managers.CatchesUpMeans | src/consensus/manager_prepare.go:200-223 | nothing is taken over if no reply is ahead; otherwise the last of the replies that have both the highest ballot and the highest status, if there is one |
| Managers.CaughtUpIs | src/consensus/manager_prepare.go:211-223 | an accepted reply leaves the instance accepted, a committed or executed one committed, with the dependencies and noop flag of the reply |
| Managers.Manager.PrepareCheckResponses | src/consensus/manager_prepare.go:176-230 | succeeds exactly without a rejection; a rejection brings the local ballot and, from a reply that is ahead, the local state up to date |
| Managers.Manager.PrepareApply | src/consensus/manager_prepare.go:233-259 | retries exactly on a rejection; otherwise goes on from the more advanced of the local and the chosen remote instance; the noop flag ends up set if and only if it was, or the instance is at most pre-accepted and no reply with the highest ballot has a status |
| DependencyTrie.ReturnedIsExact | src/consensus/manager_depedencies.go:119-202 | the dependencies returned are exactly the ids registered at a path that is a prefix of, equal to or an extension of the instance's, writes only for a read, never the instance itself |
| DependencyTrie.PerformAt | src/consensus/manager_depedencies.go:150-289 | a call changes the sets at its own path and no others |
| DependencyTrie.SetDepsAt | src/consensus/manager_depedencies.go:150-202 | registering and pruning happen at the instance's path only |
| DependencyTrie.AcknowledgeAt | src/consensus/manager_depedencies.go:208-236 | acknowledging happens at the instance's path only |
| DependencyRuns.SafeRemoval | src/consensus/manager_depedencies.go:165-201 | over every run an id leaves reads or writes only at a single key, after it was reported executed and another instance listing it was acknowledged |
| DependencyRuns.KeptExactly | src/consensus/manager_depedencies.go:165-236 | the exact converse, over every run that registers nothing after its execution: after a pre-accept at a single key an id is among the writes, or the reads, if and only if it was registered as one and not both executed and acknowledged before |
| DependencyRuns.AlwaysExact | src/consensus/manager_depedencies.go:165-289 | over every such run each of the sets at a single key holds exactly what the calls so far put there |
| DependencyRuns.NestedKeepsAll | src/consensus/manager_depedencies.go:240-289 | below a root key an id is held if and only if it was ever pre-accepted there: nothing leaves, and nothing is added otherwise |
| DependencyRuns.AlwaysJustified | src/consensus/manager_depedencies.go:208-289 | over every run the executed and acknowledged marks stem from reports, and below a root key nothing is marked executed |
| DependencyRuns.Coverage | src/consensus/manager_depedencies.go:165-201 | at one key, in every run of writes none registered after being executed, each id ever registered is still there or reached from one that is |
| DependencyRuns.NewWriteReachesAll | src/consensus/manager_depedencies.go:165-201 | so each new write depends, directly or not, on every earlier one |
| DependencyRuns.LateRegistrationIsLost | src/consensus/manager_depedencies.go:165-201 | why the condition is needed: four calls, which a replica never makes, that register a write after its execution and lose it |
| IndexedRuns.RunIsOrderly | src/consensus/manager.go:274-349 | in every run of a replica whose messages carry no read-only flag, the calls on the index are orderly at every path: writes only, none after it was reported executed |
| IndexedRuns.RunIsInTime | src/consensus/manager.go:274-349 | in every run of a replica, whatever it is sent, nothing is registered with the index after it was reported executed, and every call names one key |
| IndexedRuns.IndexHoldsExactly | src/consensus/manager_depedencies.go:165-236 | so in every run the index holds, right after a pre-accept at a key, exactly the ids registered there and not both executed and acknowledged before |
| IndexedRuns.CallsAreTimely | src/consensus/instance.go:300-327 | no handler or phase registers an executed instance or reports one executed |
| IndexedRuns.ExecutionReports | src/consensus/manager_execute.go:231-238 | an execution makes no call but reports of instances it has executed |
| IndexedRuns.NewlyExecutedIsReported | src/consensus/manager_execute.go:230-238 | every newly executed instance is reported under its key with its dependencies |
| IndexedRuns.PhaseAcknowledges | src/consensus/manager_accept.go:48-55 | an accept or commit acknowledges exactly the dependencies sent, under the instance's key, if and only if it takes place; a pre-accept acknowledges nothing |
| IndexedRuns.NewIsRegistered | src/consensus/manager.go:274-349 | an instance that becomes known is registered under its key if and only if it does not come with an accept or commit of its own that carries a status of at most pre-accepted |
| IndexedRuns.KnownIsRegistered | src/consensus/manager.go:274-349 | over every run: whatever is known and did not arrive that way has been registered |
| IndexedRuns.NewWriteReachesEarlier | src/consensus/manager_depedencies.go:150-202 | in every such run whose pre-accepts take the dependencies the index returns, an instance that is pre-accepted depends, directly or through others, on every instance registered under its key before, the first step being a dependency it now lists unless it was registered already |
| IndexedRuns.NewWriteReachesKnown | src/consensus/manager_depedencies.go:150-202 | so an instance that is pre-accepted depends, directly or not, on every instance known under its key that did not arrive unregistered |
| IndexedRuns.PreacceptTakesReturned | src/consensus/instance.go:316-321 | after a pre-accept the instance lists exactly what the index returned |
| IndexedRuns.LearnedIsListed | src/consensus/instance.go:316-321 | every dependency learned from the index was listed by the instance at that point |
| IndexedRuns.NoReadsEver | src/consensus/manager.go:299-304 | in every run of a system of replicas whose messages stem from them, no replica holds and no message carries a read-only instance |
| DependencyManagers.Dependencies.GetLocalDeps | src/consensus/manager_depedencies.go:119-126 | the sets that interfere at this node |
| DependencyManagers.Dependencies.GetChildDeps | src/consensus/manager_depedencies.go:128-148 | the union over the whole subtree, in any iteration order |
| DependencyManagers.Dependencies.Child | src/consensus/manager_depedencies.go:64-80 | the child for a key, made when missing, disjoint from its siblings |
| DependencyManagers.Dependencies.GetAndSetDeps | src/consensus/manager_depedencies.go:150-202 | the objects updated in place hold the tree the function describes, and the result is its result |
| DependencyManagers.Dependencies.ReportAcknowledged | src/consensus/manager_depedencies.go:208-236 | the same for acknowledging |
| DependencyManagers.Dependencies.ReportExecuted | src/consensus/manager_depedencies.go:240-261 | the same for executing, nested keys descending into acknowledging |
| DependencyManagers.Dependencies.AddDependency | src/consensus/manager_depedencies.go:263-289 | the same for adding, nested keys descending into acknowledging |
| DependencyManagers.DependencyManager.Call | src/consensus/manager_depedencies.go:297-344 | any call refines the pure tree and fails exactly when it names no key |
| Rings.SortNodes | src/topology/ring.go:87-103 | the nodes in token order, each once |
| Rings.Search | src/topology/ring.go:153-157 | binary search finds the first token not below the one asked for |
| Rings.Ring.AddNode | src/topology/ring.go:107-120 | refuses a known id and changes nothing, otherwise keeps the ring sorted and the former ring as prior |
| Rings.Ring.GetNodesForToken | src/topology/ring.go:140-162 | the first nodes of the clockwise walk from the owner, on every ring, the empty one included |
| Rings.ReplicasAre | src/topology/ring.go:140-162 | replica k of a token stands k places after its owner, modulo the ring |
| Rings.WrapsAround | src/topology/ring.go:158-160 | stepping by modulus is the clockwise walk |
| RingStability.ReplicasAreDistinct | src/topology/ring.go:140-162 | min(factor, size) nodes, all distinct |
| RingStability.RingIsUnique | src/topology/ring.go:87-103 | with distinct tokens a node map has one ring |
| RingStability.OrderOfJoiningIsIrrelevant | src/topology/ring.go:107-120 | nodes joining in any order give the same ring |
| RingStability.JoinInserts | src/topology/ring.go:107-120 | a join inserts the node at its own owner position |
| RingStability.JoinedClockwise | src/topology/ring.go:140-162 | a join inserts the node into every clockwise walk at one position |
| RingStability.JoinDisturbsLittle | src/topology/ring.go:140-162 | a join adds at most the new node to a replica set and drops at most one old node |
| Codecs.StrictPrefixFails | src/serializer/serializer.go:36-65 | every strict prefix of an encoding is refused |
| Codecs.FieldIsCorrect | src/serializer/serializer.go:16-65 | length-prefixed bytes are a correct codec |
| Codecs.LongFieldIsCut | src/serializer/serializer.go:16-65 | for every length: what comes back is the text up to its length modulo two to the 32, the rest stays in the stream |
| Codecs.ListIsCorrect | src/consensus/message.go:107-138 | a count and the elements are a correct codec if the elements are |
| Codecs.NullableIsCorrect | src/consensus/message.go:349-375 | a flag and an optional value are a correct codec |
| Codecs.FlagIsCorrect | src/consensus/message.go:221-235 | flags are 0xff or 0, any byte but 0 reading as true |
| Codecs.Uint32IsCorrect | src/serializer/serializer.go:16-31 | little-endian uint32 |
| Codecs.Uint32Layout | src/serializer/serializer.go:16-31 | the four bytes, least significant first |
| Codecs.AllLayout | src/consensus/message.go:107-138 | the elements of a list are written one after the other |
| WireFormat.IdRoundTrip | src/types/b16.go:13-48 | ids come back from their 16 bytes |
| WireFormat.IdBytesRoundTrip | src/types/b16.go:13-48 | 16 bytes come back from their id |
| WireFormat.TimeFieldIsCorrect | src/serializer/serializer.go:77-98 | a time is a field of 15 bytes that begins with the version, and anything else is refused |
| WireFormat.InstructionIsCorrect | src/store/instruction.go:74-106 | instructions are a correct codec |
| WireFormat.InstructionLayout | src/store/instruction.go:74-84 | the bytes: command, key, number of arguments, arguments and time, each with its length |
| WireFormat.InstructionSize | src/store/instruction.go:61-72 | NumBytes is the encoded length |
| WireFormat.InstanceIsCorrect | src/consensus/instance.go:444-517 | instances without their component are a correct codec |
| WireFormat.InstanceLayout | src/consensus/instance.go:444-478 | the bytes: id, leader, successors, command, dependencies, status, ballot and three flags |
| WireFormat.InstanceRoundTrip | src/consensus/instance.go:444-517 | an instance comes back, without its component, if and only if all its lengths fit 32 bits |
| WireFormat.InstanceSize | src/consensus/instance.go:400-436 | NumBytesLimited is the encoded length |
| Messages.MessageIsCorrect | src/consensus/message.go:46-530 | all twelve messages, told apart by their type number, are one correct codec |
| Messages.MessageLayout | src/consensus/message.go:18-530 | the bytes of each of the twelve messages after its type number |
| Messages.MessageRoundTrip | src/consensus/message.go:46-530 | on one shared reader: a type and a body followed by anything are read back, and nothing after them is touched, if and only if all lengths fit and no component is attached |
| Messages.TruncatedMessageFails | src/message/io.go:36-48 | a message cut anywhere is refused |
| Messages.MessageSize | src/consensus/message.go:46-508 | NumBytes and four bytes of type are the encoded length |
| Streams.B16.MarshalBinary | src/types/b16.go:13-29 | the shift-and-mask loop writes both words, most significant byte first |
| Streams.B16.UnmarshalBinary | src/types/b16.go:31-48 | refuses any length but 16; otherwise the words are or-ed into the receiver |
| Streams.ReadsBackIffZeroed | src/types/b16.go:31-48 | all ids are read back if and only if the receiver is zero |
| Streams.Connection.Read | src/message/io.go:36-37 | a connection returns bytes of one packet, as many as there is room for |
| Streams.Reader.Read | src/serializer/serializer.go:40-45 | a buffered read: fills the buffer only when it is empty, from one packet, and bypasses it for large reads |
| Streams.Reader.ReadBytes | src/serializer/serializer.go:36-47 | exactly size bytes however the connection cuts them up, or an error exactly when there are too few; what is left in the buffer and on the connection is what that many reads leave |
| Streams.Reader.ReadFieldBytes | src/serializer/serializer.go:50-65 | reads what the field codec reads |
| Streams.Reader.ReadId | src/types/uuid.go:85-96 | reads what the id codec reads, through a zeroed receiver |
| Streams.Reader.ReadIds | src/consensus/message.go:480-488 | the loop reads what the list codec reads |
| Streams.Writer.WriteFieldBytes | src/serializer/serializer.go:16-31 | appends what the field codec writes |
| Streams.Writer.WriteId | src/types/uuid.go:76-83 | appends the 16 bytes of the id |
| Streams.Writer.WriteIds | src/consensus/message.go:470-478 | the loop appends what the list codec writes |
| MessageStreams.ReadInstruction | src/store/instruction.go:86-106 | field by field, the argument loop included, reads what the instruction codec reads |
| MessageStreams.ReadInstance | src/consensus/instance.go:480-517 | field by field, reads what the instance codec reads |
| MessageStreams.ReadInstances | src/consensus/message.go:521-530 | the loop reads what the list codec reads |
| MessageStreams.ReadBody | src/consensus/message.go:55-530 | each of the twelve bodies, and an error for any other type |
| MessageStreams.ReadMessage | src/message/io.go:36-48 | through a reader of its own that is dropped at the end: the decoded message or an error, and on the connection what the reads leave |
| MessageStreams.WriteInstruction | src/store/instruction.go:74-84 | appends what the instruction codec writes |
| MessageStreams.WriteInstance | src/consensus/instance.go:444-478 | appends what the instance codec writes |
| MessageStreams.WriteInstances | src/consensus/message.go:512-519 | the loop appends what the list codec writes |
| MessageStreams.WriteMessage | src/message/io.go:24-33 | appends the type and the body |
| MessageStreams.ReceivedIffCarried | src/message/io.go:24-48 | for every cut of the stream and whatever follows: the message is received if and only if all lengths fit and no component is attached |
| MessageStreams.LeftIsSuffix | src/message/io.go:36-48 | what is left on the connection is an end of what followed |
| MessageStreams.EndIsLeft | src/message/io.go:36-48 | also after an error, what is left on the connection is an end of what was there |
| MessageStreams.NextMessageIsLost | src/message/io.go:36-48 | of two messages that arrive in one packet the second is lost |
| MessageStreams.CutLoses | src/message/io.go:36-48 | for every message and whatever follows it there is a cut on which every reading loses some of it |
| MessageStreams.RestSurvivesIffNone | src/message/io.go:36-48 | what follows survives every cut if and only if nothing follows |
| Connections.CutReadsAhead | src/message/io.go:36-48 | any sequence of reads that ends one byte into a packet has taken more of it |
| KVStores.KVStore.ExecuteInstruction | src/kvstore/store.go:69-95 | invalid instructions change nothing; the others have exactly the effect of the value-level step, with the result returned |
| KVStores.KVStore.Set | src/kvstore/cmd_set.go:23-31 | last write wins: an older set is ignored |
| KVStores.KVStore.Del | src/kvstore/cmd_del.go:25-34 | a tombstone replaces whatever is there, nothing happens to a missing key; the answer says which, with the time that was there or the zero time |
| KVStores.GetHighValue | src/kvstore/values.go:62-72 | the first value with the latest time: none is later and those before it are earlier; no value exactly when no time is after zero |
| KVStores.Reconcile | src/kvstore/store.go:107-128 | the value chosen and each replica's instructions; a panic exactly when there are several values and no time is after zero |
| KVStores.ReconcileString | src/kvstore/val_string.go:74-89 | one instruction list per replica, for a winning string |
| KVStores.ReconcileTombstone | src/kvstore/val_tombstone.go:55-70 | one instruction list per replica, for a winning tombstone |
| KVStores.RepairOnlyWhereNeeded | src/kvstore/val_string.go:74-89 | no instruction is sent if and only if the replica has a string with the winner's time and text; for a winning tombstone, if and only if it is that very value |
| KVStores.RepairConverges | src/kvstore/store.go:107-128 | a replica that runs its instructions ends with the kind, the time and the text of the winner under the key, and nothing else changed |

## Left out

- DependencyRuns.KeptExactly: stated for call sequences that register nothing after its execution; `RunIsInTime` shows that those of a replica are, and `IndexHoldsExactly` states the result for every run.
- DependencyRuns.AlwaysExact: the same as for `KeptExactly`.
- Agreement of a single instance on its dependencies is the hypothesis `CommitsAgree`: the code goes on to commit after phase errors and commits without a ballot check, so it does not decide it.
- Read-only instances are not covered by `NewWriteReachesEarlier`, since a prune triggered by a read can break the chain; `NoReadsEver` shows that none arises.
- DependencyRuns.Coverage: stated for orderly call sequences; `RunIsOrderly` shows that those of a replica are.
- DependencyRuns.NewWriteReachesAll: the same as for `Coverage`.
- Managers.Manager.ExecuteInstance: one attempt is atomic; waiting for, preparing and retrying uncommitted instances is left out, and so is the lock that is released in between.
- Managers.Manager.ApplyInstance: persisting does nothing in this repository, and is left out.
- Instances are values in the map of the manager, so the aliasing of instance pointers is not captured; an update that copies an instance onto itself is the identity in both.
- OrderBuilding.OrderBuilder.AddInstance: the cache of instance pointers that the original fills on the way, and its check that a pointer found is not nil, are left out.
- WireFormat.TimeFieldIsCorrect: beyond its length and version a time is an opaque value.
- Write errors on a buffer, the one in the command that is swallowed included, are left out.
- Goroutines, channels, timeouts, commit events, successor deferral, statistics, logging and persistence.
- `applyPrepareResponses`, which is unfinished and unused.
- src/cluster (sockets, peers, streaming), src/redis (an older near-copy of the store), MD5 partitioning, and the extraction of timestamps from UUIDs.
- Raw import of keys and values with zero timestamps, which is outside of what read repair promises.
