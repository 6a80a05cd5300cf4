# Verified models of garden-docker's core

garden-docker is a container backend: a thin layer over docker, and the libraries it ships with. This project
models the parts of both whose behaviour is hardest to see from the code, and proves what they promise over all
inputs, all runs and all interleavings. Each component has a specification on values, lemmas about it, and, where
the source works by updating things, classes and loops proved against that specification.

| files | component |
|---|---|
| `Goraph`, `GoraphMatching`, `GoraphGrouped`, `GoraphCode`, `GoraphSample`, `ConsistOf` | maximum bipartite matching by guide layers and disjoint alternating paths, and gomega's ConsistOf on top of it |
| `DynamicGroup`, `DynamicGroupStop`, `DynamicGroupCode`, `Broadcaster`, `OrderedGroup` | ifrit's process groups: the dynamic group's event loop, the replaying broadcasters, the ordered group |
| `Bombs`, `Spawn`, `Streamer` | garden's concurrent protocols: grace-time bombs, the iodaemon rendezvous, the output streamer |
| `Routes` | rata's path printer against pat's path matcher |
| `Dependencies`, `SpecTree`, `SpecTreeCode`, `SpecSelection`, `SpecRun`, `ParallelSplit` | ginkgo: dependency discovery, focus rewrite and collation, selection, run order of a spec, split over parallel nodes |
| `PortPool`, `Forwarding`, `AddressRange` | the pool of host ports with the forwarding requests that use it, and the range of a CIDR block |

Concurrent code is a state machine: one event per atomic step, in any order, where an event that is not enabled
changes nothing. A theorem about a run therefore covers every schedule. Channels, clocks, processes and the outcome
of calls into other code are events or parameters.

## What the proofs found

Some of what one would expect of this code is false. The model keeps the code as it is, exhibits an input, and
proves when the expectation holds.

- LargestMatching may return more edges than a matching can have, because a phase also starts paths at right nodes
  of the last layer that are taken. The result is never smaller than a maximum matching, and it is a matching
  exactly when every start was free. ConsistOf can therefore accept what it should reject, never the other way about.
  It is right whenever no two matchers overlap only in part, so with plain values it accepts exactly the
  permutations. That every start is free is not necessary for a right answer.
- A dynamic group with a pool of one ends when its only member leaves, although nobody asked it to; no other size
  does. A size of zero or less puts no bound on the members. When a group has been stopped, the members without a
  signal are exactly those inserted since, between the signal and the consumption of the close. The documentation
  says the opposite of each: that the group runs on without members until it is signalled, that the capacity bounds
  the processes, and that a signalled group takes no new members.
- An ordered group that is signalled while a member is starting neither signals nor waits for that member,
  although its documentation promises to shut down the started processes.
- A bomb's pause count differs from the number of requests inside by those that were inside when it was strapped. A
  timer can go off while a request is inside. It cannot as long as a handle is strapped only when it is not stored,
  not awaiting its clean-up and has no request inside, and the last request inside does not end between a bomb's
  expiry and its clean-up; each breach of this opens the way to such an expiry. A request that begins between the
  two is inside while the container is being destroyed; the refusal that Pause reports then is discarded.
- After a failed start of the child the call of spawn does not return, but its caller exits with the code 1 that was
  sent. The daemon can also exit with 1 while the child is running, when an accept fails between two connections.
- A created path does not come back from the matcher when a value holds a slash, or when the last component's value is
  empty or holds NUL.
- `maxDepth` below zero acts like 1 in the dependency discovery.
- A port pool whose end does not fit in 32 bits is empty for good. NetIn answers with ports 0 and 0 although its
  interface promises the resulting ports, and keeps the port when the rule is refused. A host port that a request
  names is not taken out of the pool, so another request can get it too.
- In a suite whose only focus is behind a pending container the rewrite finds no focus, and yet everything out of
  focus is skipped.
- The range made from a network holds the same addresses exactly when the mask is a prefix mask and the base address
  is masked; the comment on IPRangeFromIPNet promises it for every network. For an IPv4 address in 16 bytes with a
  mask of 4 it never does.

## Model

| member | source | states |
|---|---|---|
| GoraphCode.LargestMatching | Godeps/_workspace/src/github.com/onsi/gomega/matchers/support/goraph/bipartitegraph/bipartitegraphmatching.go:7-18 | The returned edges are distinct, touch each left node at most once, and are never fewer than the edges of any matching of the graph; they form a matching, hence a largest one, if and only if no phase starts a path at a right node that is already taken |
| GoraphMatching.LargestIs | Godeps/_workspace/src/github.com/onsi/gomega/matchers/support/goraph/bipartitegraph/bipartitegraphmatching.go:7-18 | The same for the loop entered with any edge set that touches each left node at most once; the loop stops because every phase adds edges and there are at most as many as left nodes |
| GoraphMatching.PairingIsFound | Godeps/_workspace/src/github.com/onsi/gomega/matchers/consist_of.go:49-54 | On every graph: if the two sides can be paired off, as many edges as left nodes are returned; and when no phase starts at a taken node, only then |
| GoraphSample.SampleExceeds | Godeps/_workspace/src/github.com/onsi/gomega/matchers/support/goraph/bipartitegraph/bipartitegraphmatching.go:20-49 | A graph on which five edges are returned although its matchings have at most four: the result is no matching, and ConsistOf accepts a graph without a perfect matching |
| GoraphSample.PairedIsAcceptedAnyway | Godeps/_workspace/src/github.com/onsi/gomega/matchers/support/goraph/bipartitegraph/bipartitegraphmatching.go:20-49 | The condition on the starts is not necessary for a right answer: a graph with a perfect matching on which a phase starts at a taken node, and what is returned is no matching but has the right number of edges |
| GoraphGrouped.GroupedIsMatched | Godeps/_workspace/src/github.com/onsi/gomega/matchers/support/goraph/bipartitegraph/bipartitegraphmatching.go:7-18 | A condition on the graph alone: when nodes that share a neighbour share all of them, no phase starts at a taken node, the result is a largest matching, and it covers the left side if and only if some matching does |
| GoraphGrouped.OnePhaseIsEnough | Godeps/_workspace/src/github.com/onsi/gomega/matchers/support/goraph/bipartitegraph/bipartitegraphmatching.go:10-15 | On such a graph the second phase finds nothing |
| GoraphGrouped.FirstPhaseIsMaximal | Godeps/_workspace/src/github.com/onsi/gomega/matchers/support/goraph/bipartitegraph/bipartitegraphmatching.go:20-40 | On every graph the first phase leaves no edge with both ends free |
| GoraphGrouped.Shortcut | Godeps/_workspace/src/github.com/onsi/gomega/matchers/support/goraph/bipartitegraph/bipartitegraphmatching.go:51-89 | On a graph with shared neighbours the two ends of every alternating path are joined by an edge |
| GoraphGrouped.AcceptsPermutations | Godeps/_workspace/src/github.com/onsi/gomega/matchers/consist_of.go:44-54 | When values are compared by equality, as many edges as values are returned if and only if the values are a permutation of the elements |
| ConsistOf.Match | Godeps/_workspace/src/github.com/onsi/gomega/matchers/consist_of.go:38-54 | With any matchers: values that can be paired off with matchers that accept them are accepted; if no two matchers overlap only in part, accepted if and only if they can be paired off; lists of different lengths are not accepted |
| ConsistOf.MatchEqual | Godeps/_workspace/src/github.com/onsi/gomega/matchers/consist_of.go:29-54 | With plain elements: accepted if and only if the values are a permutation of the elements |
| GoraphMatching.StuckIsMaximum | Godeps/_workspace/src/github.com/onsi/gomega/matchers/support/goraph/bipartitegraph/bipartitegraphmatching.go:7-18 | The exit certificate: when no free right node can be reached, the reached nodes give a vertex cover charged to the present edges, so no matching has more edges than there are now |
| GoraphMatching.PathsIs | Godeps/_workspace/src/github.com/onsi/gomega/matchers/support/goraph/bipartitegraph/bipartitegraphmatching.go:20-40 | The paths of one phase are augmenting, pairwise node-disjoint and as long as there are layers; non-empty guide layers yield at least one path, an empty phase leaves the exit certificate, and no node of the last layer that was left over still has a guided path avoiding the nodes used |
| GoraphMatching.PathsAreShortest | Godeps/_workspace/src/github.com/onsi/gomega/matchers/support/goraph/bipartitegraph/bipartitegraphmatching.go:20-40 | The paths of a phase are shortest: no augmenting path from a free right node has fewer nodes |
| GoraphMatching.NoShorterPath | Godeps/_workspace/src/github.com/onsi/gomega/matchers/support/goraph/bipartitegraph/bipartitegraphmatching.go:91-161 | No augmenting path from a free right node has fewer nodes than there are guide layers |
| GoraphMatching.PhaseIs | Godeps/_workspace/src/github.com/onsi/gomega/matchers/support/goraph/bipartitegraph/bipartitegraphmatching.go:10-15 | A phase with k paths gives exactly k more edges, keeps left nodes single, and keeps a matching if and only if all k starts were free |
| GoraphMatching.FlipIs | Godeps/_workspace/src/github.com/onsi/gomega/matchers/support/goraph/bipartitegraph/bipartitegraphmatching.go:11-13 | Folding the symmetric difference over disjoint augmenting paths raises the degree of exactly their starting right nodes by one, changes no other right degree, and adds one edge per path |
| GoraphMatching.FlipMatching | Godeps/_workspace/src/github.com/onsi/gomega/matchers/support/goraph/bipartitegraph/bipartitegraphmatching.go:11-13 | After the fold the edges are a matching if and only if they were one before and every start was free |
| GoraphMatching.Augment | Godeps/_workspace/src/github.com/onsi/gomega/matchers/support/goraph/edge/edge.go:42-61 | The symmetric difference with one alternating path that ends at a free left node gains one edge and one unit of degree at the path's start only |
| GoraphMatching.CollectIs | Godeps/_workspace/src/github.com/onsi/gomega/matchers/support/goraph/bipartitegraph/bipartitegraphmatching.go:20-40 | The collected paths start in the last layer, are guided by the layers, node-disjoint, avoid the used nodes, and are maximal: no start left over has a path through unused nodes |
| GoraphMatching.FindIs | Godeps/_workspace/src/github.com/onsi/gomega/matchers/support/goraph/bipartitegraph/bipartitegraphmatching.go:51-89 | The depth-first descent returns a guided path through unused nodes if there is one, and reports failure only if there is none |
| GoraphMatching.TryIs | Godeps/_workspace/src/github.com/onsi/gomega/matchers/support/goraph/bipartitegraph/bipartitegraphmatching.go:65-85 | The descent through a list of candidates: a returned path is guided and unused; a failure means that no such path goes through any candidate |
| GoraphMatching.PathExists | Godeps/_workspace/src/github.com/onsi/gomega/matchers/support/goraph/bipartitegraph/bipartitegraphmatching.go:51-89 | From every node of every layer a guided path leads down to the first layer |
| GoraphMatching.FirstStartFinds | Godeps/_workspace/src/github.com/onsi/gomega/matchers/support/goraph/bipartitegraph/bipartitegraphmatching.go:28-36 | The first start of a phase always finds a path, so a phase with layers is never empty |
| Goraph.LayersIs | Godeps/_workspace/src/github.com/onsi/gomega/matchers/support/goraph/bipartitegraph/bipartitegraphmatching.go:91-161 | The guide layers are built from the free left nodes and are complete: whatever is linked to a node below the last layer has been reached at most one layer further on, and the last layer is the first that holds a free right node; no layers means that no free right node can be reached |
| Goraph.GrowIs | Godeps/_workspace/src/github.com/onsi/gomega/matchers/support/goraph/bipartitegraph/bipartitegraphmatching.go:108-158 | The loop that adds layers, from any layers built so far: it ends with complete layers or with the certificate that it is stuck |
| Goraph.ExpandIs | Godeps/_workspace/src/github.com/onsi/gomega/matchers/support/goraph/bipartitegraph/bipartitegraphmatching.go:111-151 | A new layer lists, without repetition, exactly the unused nodes linked to the previous layer |
| Goraph.RowIs | Godeps/_workspace/src/github.com/onsi/gomega/matchers/support/goraph/bipartitegraph/bipartitegraphmatching.go:116-132 | The nodes added for one node of the previous layer are, without repetition, exactly the unused ones linked to it |
| Goraph.StuckAt | Godeps/_workspace/src/github.com/onsi/gomega/matchers/support/goraph/bipartitegraph/bipartitegraphmatching.go:153-154 | When a layer comes out empty, the nodes reached are closed under alternating steps and hold no free right node |
| GoraphCode.CreateSLAPGuideLayers | Godeps/_workspace/src/github.com/onsi/gomega/matchers/support/goraph/bipartitegraph/bipartitegraphmatching.go:91-161 | The loops over layers compute the specified guide layers |
| GoraphCode.ExpandLayer | Godeps/_workspace/src/github.com/onsi/gomega/matchers/support/goraph/bipartitegraph/bipartitegraphmatching.go:111-151 | One turn of the layer loop computes the specified layer, the used nodes and whether a free right node was seen |
| GoraphCode.ExpandNode | Godeps/_workspace/src/github.com/onsi/gomega/matchers/support/goraph/bipartitegraph/bipartitegraphmatching.go:116-132 | The inner loop appends the specified row, marks it used, and notes a free node |
| GoraphCode.FindDisjointSLAPHelper | Godeps/_workspace/src/github.com/onsi/gomega/matchers/support/goraph/bipartitegraph/bipartitegraphmatching.go:51-89 | The recursive search over the shared used map returns the edges of exactly the specified path, marks its nodes on success and leaves the map as it was on failure |
| GoraphCode.MaximalDisjointSLAPCollection | Godeps/_workspace/src/github.com/onsi/gomega/matchers/support/goraph/bipartitegraph/bipartitegraphmatching.go:20-40 | The collection loop lists the edges of exactly the specified disjoint paths |
| GoraphCode.CollectFrom | Godeps/_workspace/src/github.com/onsi/gomega/matchers/support/goraph/bipartitegraph/bipartitegraphmatching.go:26-37 | The loop over the last layer, given the guide layers, lists the paths collected from it in order |
| GoraphCode.FlipAll | Godeps/_workspace/src/github.com/onsi/gomega/matchers/support/goraph/bipartitegraph/bipartitegraphmatching.go:11-13 | The fold over the paths computes the specified edge set, without repetition |
| GoraphCode.SymmetricDifference | Godeps/_workspace/src/github.com/onsi/gomega/matchers/support/goraph/edge/edge.go:42-61 | The result lists, each once, the edges that are in the first list or occur an odd number of times in the second, but not both |
| GoraphCode.FindByNodes | Godeps/_workspace/src/github.com/onsi/gomega/matchers/support/goraph/edge/edge.go:32-40 | Finds an edge between the two nodes in either direction if and only if there is one, and then the first in the list |
| GoraphCode.IsFree | Godeps/_workspace/src/github.com/onsi/gomega/matchers/support/goraph/edge/edge.go:12-20 | A node is free if and only if no edge of the list touches it |
| GoraphCode.Contains | Godeps/_workspace/src/github.com/onsi/gomega/matchers/support/goraph/edge/edge.go:22-30 | An edge is found if and only if it is in the list |
| GoraphCode.NewBipartiteGraph | Godeps/_workspace/src/github.com/onsi/gomega/matchers/support/goraph/bipartitegraph/bipartitegraph.go:15-41 | Succeeds if and only if every comparison does; then the two sides have disjoint ids, edges lead from left to right without repetition, and join exactly the neighbouring pairs; a failure is the first failing comparison in row order |
| DynamicGroup.RunIsSafe | Godeps/_workspace/src/github.com/tedsuo/ifrit/grouper/dynamic_group.go:55-135 | In every run with poolSize at least 1 the members never exceed poolSize and inserting is open only below capacity; in every run invoking is the number of members not yet entered, inserting stays closed once the close is consumed and an empty group has then returned, and no broadcaster is closed while a member still has to report |
| DynamicGroup.ReturnIsComplete | Godeps/_workspace/src/github.com/tedsuo/ifrit/grouper/dynamic_group.go:116-132 | Run returns only after every started member has reported its entrance and its exit, each exactly as often as it was started |
| DynamicGroup.ExitsFollowEntrances | Godeps/_workspace/src/github.com/tedsuo/ifrit/grouper/dynamic_group.go:137-166 | At every moment each name has at most as many exits as entrances and at most as many entrances as starts |
| DynamicGroup.CloseIsFinal | Godeps/_workspace/src/github.com/tedsuo/ifrit/grouper/dynamic_group.go:72-80 | After the close is consumed, no continuation of the run reopens inserting or starts another member |
| DynamicGroup.EndsUnaskedIffPoolOfOne | Godeps/_workspace/src/github.com/tedsuo/ifrit/grouper/dynamic_group.go:116-132 | A group without a termination signal can end although nobody signalled or closed it if and only if its pool size is 1 |
| DynamicGroup.OneMemberEnds | Godeps/_workspace/src/github.com/tedsuo/ifrit/grouper/dynamic_group.go:126-132 | The run that shows it: the only member of a pool of one leaves, and the group returns |
| DynamicGroup.BoundedIffPositive | Godeps/_workspace/src/github.com/tedsuo/ifrit/grouper/dynamic_group.go:99-101 | The number of members has a bound over all runs if and only if poolSize is at least 1 |
| DynamicGroup.UnsignalledAreLate | Godeps/_workspace/src/github.com/tedsuo/ifrit/grouper/dynamic_group.go:68-132 | In every run the members without a signal are exactly those that were inserted and have since neither been reached by a signal or a terminating exit nor left |
| DynamicGroup.AllSignalledUnlessLate | Godeps/_workspace/src/github.com/tedsuo/ifrit/grouper/dynamic_group.go:68-132 | All members have been signalled if and only if none was inserted since the last signal or terminating exit and is still there; such an insertion came before the close was consumed |
| DynamicGroup.LateInsertIsNotSignalled | Godeps/_workspace/src/github.com/tedsuo/ifrit/grouper/dynamic_group.go:68-75 | A run in which a member inserted after the signal is not signalled |
| DynamicGroupStop.ClosedIsAsked | Godeps/_workspace/src/github.com/tedsuo/ifrit/grouper/dynamic_group.go:68-124 | In every run the group's close is notified if and only if a signal, the end of the inserts, a close by the client, or the first terminating exit was taken |
| DynamicGroupStop.ShutdownIsSignalled | Godeps/_workspace/src/github.com/tedsuo/ifrit/grouper/dynamic_group.go:68-124 | In every run the processes count as signalled if and only if a signal was taken, or an exit when there is a termination signal |
| DynamicGroupStop.AskedComesToItsEnd | Godeps/_workspace/src/github.com/tedsuo/ifrit/grouper/dynamic_group.go:66-134 | From every run in which something has asked the group to end and that has not panicked, a continuation of nothing but the close being seen, entrances and exits ends with the group returned |
| DynamicGroupStop.LastExitReturns | Godeps/_workspace/src/github.com/tedsuo/ifrit/grouper/dynamic_group.go:126-128 | After a signal was taken the exit of the last member makes the group return at once |
| DynamicGroupStop.IdleGroupStops | Godeps/_workspace/src/github.com/tedsuo/ifrit/grouper/dynamic_group.go:68-77 | A group without members that is signalled returns when it sees the close |
| DynamicGroupStop.EntrancesClose | Godeps/_workspace/src/github.com/tedsuo/ifrit/grouper/dynamic_group.go:72-114 | Once the close is consumed the entrance broadcaster is closed if and only if no member has still to enter |
| DynamicGroupStop.PanicIsDuplicate | Godeps/_workspace/src/github.com/tedsuo/ifrit/grouper/dynamic_group.go:89-97 | In every run the group has panicked if and only if a member was inserted whose name was running |
| DynamicGroupStop.ClosedInserterTakesNone | Godeps/_workspace/src/github.com/tedsuo/ifrit/grouper/dynamic_group.go:89-94 | The insert channel is closed if and only if the client closed it, and then no insertion changes anything |
| DynamicGroupStop.InsertsEndOnce | Godeps/_workspace/src/github.com/tedsuo/ifrit/grouper/dynamic_group.go:89-128 | After the end of the inserts it is not received again before a member exits, and the exit of an only member then makes the group return, with or without a signal |
| DynamicGroup.InvStep | Godeps/_workspace/src/github.com/tedsuo/ifrit/grouper/dynamic_group.go:66-134 | One turn of the event loop keeps the accounts, the capacity and the closing discipline |
| DynamicGroupCode.RunLoop | Godeps/_workspace/src/github.com/tedsuo/ifrit/grouper/dynamic_group.go:55-135 | The loop over a process set, a client, a counter and three channel variables, fed with any schedule, ends in objects whose view is the state of that run; so the process set stays within the pool size, and once it has returned it is empty and as many exits as entrances were broadcast, member by member; the client is closed if and only if something taken has asked the group to end |
| DynamicGroupCode.Group.Take | Godeps/_workspace/src/github.com/tedsuo/ifrit/grouper/dynamic_group.go:67-133 | Each case of the select turns the objects into those of the next state and keeps one watcher per process and the signals sent in step with the record |
| DynamicGroupCode.Group.HandleExit | Godeps/_workspace/src/github.com/tedsuo/ifrit/grouper/dynamic_group.go:116-132 | Remove, broadcast, shut down, return or reopen, on the process set and the client |
| DynamicGroupCode.Group.HandleInsert | Godeps/_workspace/src/github.com/tedsuo/ifrit/grouper/dynamic_group.go:89-105 | The new process is unsignalled; a name that is taken stops the loop; inserting closes when the set is full |
| DynamicGroupCode.ProcessSet.Signal | Godeps/_workspace/src/github.com/tedsuo/ifrit/grouper/dynamic_group.go:183-189 | The loop over the map sends every process exactly one more signal, and no name is added or lost |
| Broadcaster.ListenerSees | Godeps/_workspace/src/github.com/tedsuo/ifrit/grouper/entrance_events.go:39-74 | A listener attached at any moment receives the last min(capacity, n) of the n past events, then every later event up to the close, in order; the replay never exceeds the channel's buffer |
| Broadcaster.BufferHoldsLast | Godeps/_workspace/src/github.com/tedsuo/ifrit/grouper/sliding_buffer.go:14-31 | After any appends the sliding buffer holds the last items up to its capacity, in order |
| Broadcaster.AppendKeepsLast | Godeps/_workspace/src/github.com/tedsuo/ifrit/grouper/sliding_buffer.go:14-23 | One append to the last items gives the last items of the longer list, also when the capacity is 0 |
| Broadcaster.RunBasics | Godeps/_workspace/src/github.com/tedsuo/ifrit/grouper/entrance_events.go:39-74 | In every run the buffer holds the last events broadcast, there is one feed per attachment, and all feeds are closed if and only if the broadcaster is |
| Broadcaster.EventBroadcaster.AttachListener | Godeps/_workspace/src/github.com/tedsuo/ifrit/grouper/entrance_events.go:39-53 | A fresh channel is filled from the buffer without blocking and closed at once if the broadcaster is closed, else added to the listeners |
| Broadcaster.EventBroadcaster.BroadcastEvent | Godeps/_workspace/src/github.com/tedsuo/ifrit/grouper/exit_events.go:54-61 | The event is appended to the buffer and sent to every listener of a broadcaster that is not closed |
| Broadcaster.EventBroadcaster.CloseListeners | Godeps/_workspace/src/github.com/tedsuo/ifrit/grouper/exit_events.go:63-71 | Every listener's channel is closed and no listener is left to send to |
| OrderedGroup.Group.Run | Godeps/_workspace/src/github.com/tedsuo/ifrit/grouper/ordered.go:30-49 | Duplicate names start nothing and are named. Otherwise it fails if and only if some member ended with an error: the one that exited while starting, the one that exited by itself, or another one of the pool when waited for. The trace then has one event for each member that ended, with exactly its error, the one that ended by itself first and the others in reverse start order; the members are started in order, and each pooled one but the one that woke the group is sent the signal received, or else the termination signal, and waited for |
| OrderedGroup.Group.StartAndStop | Godeps/_workspace/src/github.com/tedsuo/ifrit/grouper/ordered.go:36-48 | The run after the validation: the actions are the starts in order followed by the stops of the pool with the signal of that case, and the result carries the whole trace if and only if an event of it carries an error |
| OrderedGroup.TraceReports | Godeps/_workspace/src/github.com/tedsuo/ifrit/grouper/ordered.go:30-140 | With unique names, in terms of how the members ended: one event for each that ended, with what it ended with, none for any other, in the order in which they are waited for |
| OrderedGroup.ErrorIsReported | Godeps/_workspace/src/github.com/tedsuo/ifrit/grouper/ordered.go:104-140 | A trace that reports in this sense has an error if and only if some member ended with one |
| OrderedGroup.TraceInOrder | Godeps/_workspace/src/github.com/tedsuo/ifrit/grouper/ordered.go:116-133 | Of two events of the trace the later is never that of the member that ended by itself, and the earlier is, or its member was started later |
| OrderedGroup.ActionsAre | Godeps/_workspace/src/github.com/tedsuo/ifrit/grouper/ordered.go:30-133 | In terms of the members alone: starts in order, then for exactly the pooled members other than the one that woke the group the given signal and the wait |
| OrderedGroup.Group.OrderedStart | Godeps/_workspace/src/github.com/tedsuo/ifrit/grouper/ordered.go:55-71 | The pool is the longest prefix of members that became ready; the start stops at the first member that exits or is interrupted by a signal |
| OrderedGroup.Group.Stop | Godeps/_workspace/src/github.com/tedsuo/ifrit/grouper/ordered.go:104-140 | Every pooled member not in the error trace is signalled and waited for, last to first; an error is returned if and only if some event of the trace carries one |
| OrderedGroup.Group.StopPool | Godeps/_workspace/src/github.com/tedsuo/ifrit/grouper/ordered.go:116-133 | The loop over the members from the last to the first sends exactly the specified signals and appends exactly the specified exits |
| OrderedGroup.Group.ExitedNames | Godeps/_workspace/src/github.com/tedsuo/ifrit/grouper/ordered.go:105-114 | The scan of the error trace notes an error if and only if there is one, and exactly the names mentioned |
| OrderedGroup.ReverseOrder | Godeps/_workspace/src/github.com/tedsuo/ifrit/grouper/ordered.go:116-133 | Signals go out in strictly reverse start order, each directly followed by the wait for that member, so each only after all later ones have exited; the skipped member gets none |
| OrderedGroup.OneEventEach | Godeps/_workspace/src/github.com/tedsuo/ifrit/grouper/ordered.go:30-140 | With unique names the final trace holds exactly one event for each pooled member and for a member that exited before it was ready, and none for any other |
| OrderedGroup.AllStoppedUnlessInterrupted | Godeps/_workspace/src/github.com/tedsuo/ifrit/grouper/ordered.go:55-71 | Every member that was started has an event in the trace if and only if no signal arrived while a member was starting; the member being started at that moment is neither signalled nor waited for |
| OrderedGroup.Validate | Godeps/_workspace/src/github.com/tedsuo/ifrit/grouper/members.go:26-44 | Reports the occurrences of a name after its first, in order, and none if and only if the names are pairwise distinct |
| OrderedGroup.RepeatsIs | Godeps/_workspace/src/github.com/tedsuo/ifrit/grouper/members.go:26-44 | The specified report is empty if and only if the names are pairwise distinct |
| OrderedGroup.RepeatsCount | Godeps/_workspace/src/github.com/tedsuo/ifrit/grouper/members.go:26-44 | Each name is reported once less than it occurs |
| OrderedGroup.RepeatsInOrder | Godeps/_workspace/src/github.com/tedsuo/ifrit/grouper/members.go:26-44 | The report is the list of the positions whose name has occurred before, rising and complete |
| Bombs.PausesCountRequests | Godeps/_workspace/src/github.com/cloudfoundry-incubator/garden/server/bomberman/bomberman.go:53-105 | In every run the pause count of a strapped bomb is the number of requests inside their bracket less those that were inside when it was strapped, so the two agree if and only if no request had begun before the strap |
| Bombs.HeldExactlyWhileInside | Godeps/_workspace/src/github.com/cloudfoundry-incubator/garden/server/timebomb/timebomb.go:33-78 | When no request had begun before the strap, the stored bomb has no timer if and only if some request is inside, it can go off only when none is, and at most one of its timers is armed |
| Bombs.RearmedByLast | Godeps/_workspace/src/github.com/cloudfoundry-incubator/garden/server/timebomb/timebomb.go:69-78 | The timer is set again exactly when the last bracket closes |
| Bombs.StrappedStaysSound | Godeps/_workspace/src/github.com/cloudfoundry-incubator/garden/server/timebomb/timebomb.go:27-78 | After Strap and any sequence of Pause, Unpause, Defuse and expiry: at most one timer is armed, and none while the bomb is paused or after it was defused |
| Bombs.DisciplineIsExact | Godeps/_workspace/src/github.com/cloudfoundry-incubator/garden/server/bomberman/bomberman.go:53-105 | A run keeps a rule if and only if at none of its points is a request disturbed, nor later as long as what follows keeps it. For the expiry of a timer, stored or lost, while a request is inside: strap only when the handle is not stored, not awaiting its clean-up and has no request inside, and end the last request inside only when no clean-up of a stored bomb is awaited. For a clean-up awaited while a request is inside: the same for straps, and begin a request only when no clean-up is awaited |
| Bombs.DisciplinedIsOrderly | Godeps/_workspace/src/github.com/cloudfoundry-incubator/garden/server/bomberman/bomberman.go:53-105 | Such a run never loses a timer, and a stored bomb that awaits its clean-up has none running; under the second rule at most one clean-up is awaited, and no request is inside then |
| Bombs.BreachDisturbs | Godeps/_workspace/src/github.com/cloudfoundry-incubator/garden/server/bomberman/bomberman.go:53-105 | After the first event that breaks a rule, a continuation that keeps to it disturbs a request |
| Bombs.SecondStrapGoesOff | Godeps/_workspace/src/github.com/cloudfoundry-incubator/garden/server/bomberman/bomberman.go:58-73 | A second strap loses the first timer, which goes off while a request is inside |
| Bombs.CanGoOffWhileInside | Godeps/_workspace/src/github.com/cloudfoundry-incubator/garden/server/bomberman/bomberman.go:101-102 | A bomb that fired, was re-armed by a request and then cleaned up goes off while a later request is inside |
| Bombs.EarlyPauseRearms | Godeps/_workspace/src/github.com/cloudfoundry-incubator/garden/server/bomberman/bomberman.go:75-89 | A request that began before the strap re-arms the bomb while another request is still inside |
| Bombs.StoredIsStrapped | Godeps/_workspace/src/github.com/cloudfoundry-incubator/garden/server/bomberman/bomberman.go:53-105 | In every run a handle is stored if and only if it was strapped with a grace time and has since neither been defused nor cleaned up |
| Bombs.DefusedStays | Godeps/_workspace/src/github.com/cloudfoundry-incubator/garden/server/bomberman/bomberman.go:91-99 | After Defuse, whatever follows up to the next strap, the handle is not stored, its timer cannot go off, and no expiry is added to those already lost or awaiting their clean-up |
| Bombs.InvRun | Godeps/_workspace/src/github.com/cloudfoundry-incubator/garden/server/bomberman/bomberman.go:53-105 | The accounting of pauses, timers and requests holds in every reachable state of manager, bombs, requests and expiries |
| Bombs.TimeBomb.Strap | Godeps/_workspace/src/github.com/cloudfoundry-incubator/garden/server/timebomb/timebomb.go:27-31 | Arms one timer and leaves the count at zero |
| Bombs.TimeBomb.Pause | Godeps/_workspace/src/github.com/cloudfoundry-incubator/garden/server/timebomb/timebomb.go:33-51 | Raises the count and stops the timer; false if and only if the bomb had gone off |
| Bombs.TimeBomb.Defuse | Godeps/_workspace/src/github.com/cloudfoundry-incubator/garden/server/timebomb/timebomb.go:53-67 | Stops the timer for good; false if and only if the bomb had gone off |
| Bombs.TimeBomb.Unpause | Godeps/_workspace/src/github.com/cloudfoundry-incubator/garden/server/timebomb/timebomb.go:69-78 | Lowers the count and arms a new timer exactly when it reaches zero on a bomb that is not defused |
| Bombs.Bomberman.HandleStrap | Godeps/_workspace/src/github.com/cloudfoundry-incubator/garden/server/bomberman/bomberman.go:58-73 | A zero grace time straps nothing; otherwise a new armed bomb replaces whatever the handle had |
| Bombs.Bomberman.HandlePause | Godeps/_workspace/src/github.com/cloudfoundry-incubator/garden/server/bomberman/bomberman.go:75-81 | Pauses the bomb of a known handle and changes no other; an unknown handle is ignored |
| Bombs.Bomberman.HandleUnpause | Godeps/_workspace/src/github.com/cloudfoundry-incubator/garden/server/bomberman/bomberman.go:83-89 | Unpauses the bomb of a known handle and changes no other; an unknown handle is ignored |
| Bombs.Bomberman.HandleDefuse | Godeps/_workspace/src/github.com/cloudfoundry-incubator/garden/server/bomberman/bomberman.go:91-99 | Defuses the bomb of a known handle and forgets it |
| Bombs.Bomberman.HandleCleanup | Godeps/_workspace/src/github.com/cloudfoundry-incubator/garden/server/bomberman/bomberman.go:101-102 | Forgets the handle and leaves its bomb as it is |
| Bombs.Bomberman.Consume | Godeps/_workspace/src/github.com/cloudfoundry-incubator/garden/server/bomberman/bomberman.go:53-105 | Each case of the select, and the expiry of a timer, changes the stored bombs exactly as the step of the system says |
| Bombs.ManageBombs | Godeps/_workspace/src/github.com/cloudfoundry-incubator/garden/server/bomberman/bomberman.go:53-105 | The loop over any schedule ends with exactly the bombs of that run |
| Spawn.SpawnIsSafe | Godeps/_workspace/src/github.com/cloudfoundry-incubator/garden-linux/iodaemon/spawn.go:87-178 | In every interleaving of acceptor, main routine and child runner: the child is started at most once and only after a connection, links are asked for only after Start succeeded, code 0 is sent only after the child ended, code 2 only after the timeout, and after the timeout the child never starts |
| Spawn.FatalHasACause | Godeps/_workspace/src/github.com/cloudfoundry-incubator/garden-linux/iodaemon/spawn.go:106-151 | Code 1 is sent only for a failed accept or a failed start, and a failed start is the only code then |
| Spawn.FailedStartIsFinal | Godeps/_workspace/src/github.com/cloudfoundry-incubator/garden-linux/iodaemon/spawn.go:106-116 | After a failed start none of the three routines goes on: spawn does not return, and the one code sent is 1 |
| Spawn.FinishesUnlessStartFailed | Godeps/_workspace/src/github.com/cloudfoundry-incubator/garden-linux/iodaemon/spawn.go:87-178 | From every reachable state the call of spawn can still return if and only if the child's start has not failed |
| Spawn.ExitStatusIs | Godeps/_workspace/src/github.com/cloudfoundry-incubator/garden-linux/iodaemon/main.go:57-64 | The process exits with the first code sent. From every reachable state exactly these statuses are still possible: once a code was sent, that one; else 0 unless the timeout was taken or the acceptor has failed before a connection, 2 if the timeout was or can still be taken, and 1 until accepting is stopped unless the first connection came after the timeout |
| Spawn.ProcessCanExit | Godeps/_workspace/src/github.com/cloudfoundry-incubator/garden-linux/iodaemon/main.go:57-64 | The process can always come to its exit; with 0 only after the child ended, with 2 only if it was never started, with 1 only for a failed start or a failed accept |
| Spawn.ExitsWhileChildRuns | Godeps/_workspace/src/github.com/cloudfoundry-incubator/garden-linux/iodaemon/spawn.go:87-100 | An accept that fails between two connections makes the process exit with 1 while the child is running |
| Spawn.ServesClients | Godeps/_workspace/src/github.com/cloudfoundry-incubator/garden-linux/iodaemon/spawn.go:157-166 | From every state with a client connected and the listener open, any number of further clients can link one after another, and nothing else changes: no second start, no code, the child and the main routine where they were |
| Spawn.ListenerIsClosed | Godeps/_workspace/src/github.com/cloudfoundry-incubator/garden-linux/iodaemon/spawn.go:91-151 | In every run the listener is closed if and only if the exit code is due or sent, or a fatal error has sent 1 |
| Spawn.ServesNoMore | Godeps/_workspace/src/github.com/cloudfoundry-incubator/garden-linux/iodaemon/spawn.go:87-100 | Once the listener is closed and the last connection has ended no link request is processed any more |
| Spawn.StartCanFail | Godeps/_workspace/src/github.com/cloudfoundry-incubator/garden-linux/iodaemon/spawn.go:106-116 | A run in which the start fails after the rendezvous |
| Spawn.InvRun | Godeps/_workspace/src/github.com/cloudfoundry-incubator/garden-linux/iodaemon/spawn.go:87-178 | The positions of the three routines, the child's life and the codes sent agree in every reachable state |
| Streamer.DeliveredInOrder | Godeps/_workspace/src/github.com/cloudfoundry-incubator/garden/server/streamer.go:52-75 | In every interleaving the connection has received the accepted chunks in order and without duplication, and the rest is in the queue within its capacity. The accepted chunks are those of the writes that found room in the queue, or a parked reader at an unbuffered one, in the order written; they are all that was written if and only if every write did |
| Streamer.StopLosesNothing | Godeps/_workspace/src/github.com/cloudfoundry-incubator/garden/server/streamer.go:52-95 | When the handler has returned, every chunk accepted before the stop has been delivered; if nothing was dropped before the stop, everything written before it has |
| Streamer.WrittenIsDelivered | Godeps/_workspace/src/github.com/cloudfoundry-incubator/garden/server/streamer.go:52-95 | Stated on the events alone: once the handler has returned, the chunks of the writes before the stop that found room have been delivered, in order; if every write before the stop did, that is everything written before it |
| Streamer.AcceptedIsTaken | Godeps/_workspace/src/github.com/cloudfoundry-incubator/garden/server/chanwriter.go:7-20 | In every run a write is taken if and only if it finds room, or a parked reader at an unbuffered channel |
| Streamer.AllIsTaken | Godeps/_workspace/src/github.com/cloudfoundry-incubator/garden/server/chanwriter.go:7-20 | All that is written is taken if and only if every write finds room |
| Streamer.ReaderCatchesUp | Godeps/_workspace/src/github.com/cloudfoundry-incubator/garden/server/streamer.go:57-61 | An attached handler that is left to itself delivers all that was accepted, stopped or not |
| Streamer.HandlerReturns | Godeps/_workspace/src/github.com/cloudfoundry-incubator/garden/server/streamer.go:52-75 | After the stop a handler that has not returned can, attached before or only now, and has then delivered all that was accepted |
| Streamer.ReturnIsTheCut | Godeps/_workspace/src/github.com/cloudfoundry-incubator/garden/server/streamer.go:57-74 | A handler returns only once the queue is drained, and nothing is delivered after it |
| Streamer.ChanWriter.Write | Godeps/_workspace/src/github.com/cloudfoundry-incubator/garden/server/chanwriter.go:7-20 | Queues a fresh copy of the bytes if there is room and drops them otherwise, exactly as the write of the interleaved runs does, and always reports all of them written |
| Streamer.DrainAll | Godeps/_workspace/src/github.com/cloudfoundry-incubator/garden/server/streamer.go:62-72 | The drain loop delivers what is queued, in order, and returns |
| Routes.RoundTrip | Godeps/_workspace/src/github.com/tedsuo/rata/routes.go:72-92 | For every route of colon-free literals and named components, with parameters supplied: matching the created path gives exactly the expected captures if and only if no value holds a slash and the last component, if it is a name, has a non-empty value without NUL |
| Routes.RoundTripValues | Godeps/_workspace/src/github.com/bmizerany/pat/mux.go:214-241 | The same for the map of values that the matcher returns: it is the expected one under the same condition and no other |
| Routes.CreateAndMatch | Godeps/_workspace/src/github.com/tedsuo/rata/routes.go:72-92 | Printing and then matching, as code: the values returned are the parameters of the named components, each under its name and nothing else, if and only if that condition holds |
| Routes.RoundTripFrom | Godeps/_workspace/src/github.com/bmizerany/pat/mux.go:214-241 | The same from any pair of component boundaries, with any captures made so far |
| Routes.CreatePath | Godeps/_workspace/src/github.com/tedsuo/rata/routes.go:72-92 | A path is made if and only if every named component has a parameter, and is the components joined, each literal one as it is and each named one replaced by its parameter; otherwise the first component without one is reported |
| Routes.JoinSplit | Godeps/_workspace/src/github.com/tedsuo/rata/routes.go:73-75 | Joining the slash-separated components gives the pattern back |
| Routes.TailSplits | Godeps/_workspace/src/github.com/bmizerany/pat/mux.go:186-207 | For every pattern that ends in a slash and is not the single slash: if the pattern accepts the path, the path is a prefix followed by Tail, and the pattern accepts that prefix with the same captures |
| Routes.TryPath | Godeps/_workspace/src/github.com/bmizerany/pat/mux.go:214-241 | For every pattern and path: accepted if and only if the path is the pattern's text with its names replaced by values, each cut at the first slash, following character of the pattern or end, followed by a tail only if the pattern ends in a slash and is longer than one; the values returned are then those, by name |
| Routes.TryIsMatching | Godeps/_workspace/src/github.com/bmizerany/pat/mux.go:214-241 | The scan accepts a path if and only if some values and a tail make it out of the pattern, and captures exactly those values |
| Routes.MatchIsAccepted | Godeps/_workspace/src/github.com/bmizerany/pat/mux.go:214-241 | A path made out of the pattern by values cut where they should be is accepted from any pair of boundaries, with those values, and Tail gives its tail |
| Routes.AcceptedIsMatch | Godeps/_workspace/src/github.com/bmizerany/pat/mux.go:214-241 | An accepted path is made out of the pattern by the values captured, each cut where it should be |
| Routes.Tail | Godeps/_workspace/src/github.com/bmizerany/pat/mux.go:186-207 | The two-index loop returns what follows the pattern with its names replaced, for every path that the pattern matches, and the empty string for an empty path |
| Routes.Match | Godeps/_workspace/src/github.com/bmizerany/pat/mux.go:249-258 | Scans the longest run of accepted characters and reports the next one, NUL at the end |
| Dependencies.NewDependencies | Godeps/_workspace/src/github.com/onsi/ginkgo/ginkgo/watch/dependencies.go:14-37 | For every import graph: depth 0 records nothing; otherwise an unknown root is the only failure, and a package other than the root is recorded if and only if it is reachable within the depth, with its shortest distance; the root is recorded if and only if a package short of that depth imports it, one step after the nearest that does; a negative depth acts like 1. Name by name: what the root or its tests import, outside the standard library and not filtered out, is recorded at depth 1, what a recorded package short of the last level imports is recorded at most one deeper, and every entry is there because of such an import |
| Dependencies.ExactLists | Godeps/_workspace/src/github.com/onsi/ginkgo/ginkgo/watch/dependencies.go:14-91 | Shortest distances over the import graph are a list with these three properties |
| Dependencies.ListsIsUnique | Godeps/_workspace/src/github.com/onsi/ginkgo/ginkgo/watch/dependencies.go:14-91 | There is only one list with these three properties |
| Dependencies.Explore | Godeps/_workspace/src/github.com/onsi/ginkgo/ginkgo/watch/dependencies.go:14-37 | The level loop: reachable within the depth, with the shortest distance, and nothing else |
| Dependencies.LevelIsExact | Godeps/_workspace/src/github.com/onsi/ginkgo/ginkgo/watch/dependencies.go:57-63 | One level of the breadth-first loop turns exact distances up to n into exact distances up to n + 1 |
| Dependencies.StaysExact | Godeps/_workspace/src/github.com/onsi/ginkgo/ginkgo/watch/dependencies.go:28-34 | Stopping at the first level that adds nothing is exact for every larger bound |
| Dependencies.Saturated | Godeps/_workspace/src/github.com/onsi/ginkgo/ginkgo/watch/dependencies.go:28-34 | When a level adds nothing, every package reachable in any number of steps is recorded |
| Dependencies.LevelIsRootExact | Godeps/_workspace/src/github.com/onsi/ginkgo/ginkgo/watch/dependencies.go:57-63 | A level records the root exactly if it is not recorded and a package at that distance imports it |
| Dependencies.StaysRootExact | Godeps/_workspace/src/github.com/onsi/ginkgo/ginkgo/watch/dependencies.go:28-34 | Stopping at the first level that adds nothing is exact for the root too |
| Dependencies.Dependencies.AddDepsForDepth | Godeps/_workspace/src/github.com/onsi/ginkgo/ginkgo/watch/dependencies.go:57-63 | Visiting the growing map in any order adds the imports of exactly the packages that had this depth before |
| Dependencies.Dependencies.SeedWithDepsForPackageAtPath | Godeps/_workspace/src/github.com/onsi/ginkgo/ginkgo/watch/dependencies.go:43-55 | Records the imports and test imports of the root at depth 1 and takes the root out again; an unknown root changes nothing |
| Dependencies.Dependencies.AddDepsForDep | Godeps/_workspace/src/github.com/onsi/ginkgo/ginkgo/watch/dependencies.go:65-72 | Adds the imports of a package; one that cannot be resolved adds none |
| Dependencies.Dependencies.ResolveAndAdd | Godeps/_workspace/src/github.com/onsi/ginkgo/ginkgo/watch/dependencies.go:74-84 | Adds the directories of exactly the imports that resolve outside the standard library |
| Dependencies.Dependencies.AddDepIfNotPresent | Godeps/_workspace/src/github.com/onsi/ginkgo/ginkgo/watch/dependencies.go:86-91 | A recorded depth is never overwritten |
| SpecTree.UnfocusIsTidy | Godeps/_workspace/src/github.com/onsi/ginkgo/internal/containernode/container_node.go:56-78 | The rewrite keeps whether a focus is reachable, and leaves no focused container above a reachable focused node |
| SpecTree.FocusesIs | Godeps/_workspace/src/github.com/onsi/ginkgo/internal/containernode/container_node.go:56-78 | A tree counts as focused if and only if some node of it is focused with no pending container above it |
| SpecTree.InnermostFocusWins | Godeps/_workspace/src/github.com/onsi/ginkgo/internal/containernode/container_node.go:56-78 | A leaf is under focus afterwards if and only if it, or a container above it, was a lowest focused node |
| SpecTree.UnfocusKeepsLeaves | Godeps/_workspace/src/github.com/onsi/ginkgo/internal/containernode/container_node.go:56-78 | The rewrite keeps every leaf the same and in its place, pending as before |
| SpecTree.LeavesAreAll | Godeps/_workspace/src/github.com/onsi/ginkgo/internal/containernode/container_node.go:84-103 | The addresses listed are those of the leaves, each once, in tree order |
| SpecTree.CollateIs | Godeps/_workspace/src/github.com/onsi/ginkgo/internal/containernode/container_node.go:84-103 | The entry for each leaf, in that order, holds the leaf and the containers from the root down to it |
| SpecTreeCode.ContainerNode.BackPropagateProgrammaticFocus | Godeps/_workspace/src/github.com/onsi/ginkgo/internal/containernode/container_node.go:56-78 | The recursive update in place turns the tree into the specified one and returns whether a focus is reachable |
| SpecTreeCode.ContainerNode.PropagateInChildren | Godeps/_workspace/src/github.com/onsi/ginkgo/internal/containernode/container_node.go:61-68 | The loop over the children rewrites each container below and reports whether any child had a reachable focus |
| SpecTreeCode.ContainerNode.Collate | Godeps/_workspace/src/github.com/onsi/ginkgo/internal/containernode/container_node.go:80-103 | The recursive walk collects the specified entries |
| SpecTreeCode.ContainerNode.PushContainerNode | Godeps/_workspace/src/github.com/onsi/ginkgo/internal/containernode/container_node.go:105-107 | Adds a container as the last child |
| SpecTreeCode.ContainerNode.PushSubjectNode | Godeps/_workspace/src/github.com/onsi/ginkgo/internal/containernode/container_node.go:109-111 | Adds a leaf as the last child |
| SpecSelection.SelectionIsIntended | Godeps/_workspace/src/github.com/onsi/ginkgo/internal/suite/suite.go:66-90 | After rewrite, collation and selection, each spec is pending, skipped or to be run exactly as the flags on its path in the tree as written demand |
| SpecSelection.ReachableFocusDecides | Godeps/_workspace/src/github.com/onsi/ginkgo/internal/containernode/container_node.go:56-78 | The selection is that of the focus the rewrite can reach if and only if there is a reachable focus exactly when some subject is under focus, or every subject is |
| SpecSelection.HiddenFocusSkips | Godeps/_workspace/src/github.com/onsi/ginkgo/internal/spec/specs.go:52-68 | A suite in which the only focus is behind a pending container: nothing is found in focus, and yet the other subject is skipped and nothing runs |
| SpecSelection.GenerateSpecs | Godeps/_workspace/src/github.com/onsi/ginkgo/internal/suite/suite.go:66-90 | The steps as code, on the node objects: there is one spec for every subject, in the order of the tree, with the state that the flags as written demand |
| SpecSelection.MakeSpecs | Godeps/_workspace/src/github.com/onsi/ginkgo/internal/suite/suite.go:69-71 | One new spec per collated subject, in order, with the flags of its containers |
| SpecSelection.Spec.constructor | Godeps/_workspace/src/github.com/onsi/ginkgo/internal/spec/spec.go:25-39 | A spec is focused if it or a container around it is, and pending if any of them is |
| SpecSelection.Spec.Skip | Godeps/_workspace/src/github.com/onsi/ginkgo/internal/spec/spec.go:49-51 | Marks the spec as skipped and leaves its focus |
| SpecSelection.Specs.ApplyProgrammaticFocus | Godeps/_workspace/src/github.com/onsi/ginkgo/internal/spec/specs.go:52-68 | If any spec is focused, exactly those that are not are skipped, pending ones too; otherwise every spec keeps its state |
| SpecSelection.ChainFlags | Godeps/_workspace/src/github.com/onsi/ginkgo/internal/spec/spec.go:25-47 | The flags of a spec computed from its chain of containers agree with the flags along its path in the tree |
| ParallelSplit.SharesPartition | Godeps/_workspace/src/github.com/onsi/ginkgo/internal/spec/specs.go:101-108 | The shares of nodes 1 to total, one after the other, are the original list |
| ParallelSplit.Balanced | Godeps/_workspace/src/github.com/onsi/ginkgo/internal/spec/index_computer.go:3-55 | The sizes of any two nodes' shares differ by at most one |
| ParallelSplit.RangeFollows | Godeps/_workspace/src/github.com/onsi/ginkgo/internal/spec/index_computer.go:3-55 | A node's share begins where the share of the node before it ends |
| ParallelSplit.Specs.TrimForParallelization | Godeps/_workspace/src/github.com/onsi/ginkgo/internal/spec/specs.go:101-108 | Keeps exactly the node's share |
| SpecRun.RunSample | Godeps/_workspace/src/github.com/onsi/ginkgo/internal/spec/spec.go:126-170 | For every nest of containers and every pattern of outcomes, without a plan: only declared nodes are run, BeforeEach before JustBeforeEach before the subject before AfterEach, setup from the outermost container inwards and teardown from the innermost outwards, within a container as declared; after a failure only teardown is run, every setup node and the subject is run unless a failure comes before it, and an AfterEach is run if and only if no BeforeEach of a container further out failed; the verdict is the first outcome of the trace that is not passed |
| SpecRun.TraceRuns | Godeps/_workspace/src/github.com/onsi/ginkgo/internal/spec/spec.go:126-170 | The same of the specified trace |
| SpecRun.OutwardsCovers | Godeps/_workspace/src/github.com/onsi/ginkgo/internal/spec/spec.go:131-143 | The teardown is every AfterEach node of the containers entered, once, from the innermost container outwards and within a container as declared |
| SpecRun.InwardsCovers | Godeps/_workspace/src/github.com/onsi/ginkgo/internal/spec/spec.go:145-164 | The setup of a kind is every node of the kind, once, from the outermost container inwards and within a container as declared |
| SpecRun.EnteredIs | Godeps/_workspace/src/github.com/onsi/ginkgo/internal/spec/spec.go:131-156 | A container is entered if and only if no BeforeEach of a container further out failed |
| SpecRun.TeardownIsComplete | Godeps/_workspace/src/github.com/onsi/ginkgo/internal/spec/spec.go:131-143 | Every AfterEach of every container entered is in the trace exactly as often as declared, and none of any other container |
| SpecRun.VerdictIsFirst | Godeps/_workspace/src/github.com/onsi/ginkgo/internal/spec/spec.go:126-170 | The verdict is passed if and only if every outcome is, and otherwise the first that is not |
| SpecRun.ExecutedIs | Godeps/_workspace/src/github.com/onsi/ginkgo/internal/spec/spec.go:145-169 | The setup part runs until the first outcome that is not passed, and no further |
| SpecRun.RunSetup | Godeps/_workspace/src/github.com/onsi/ginkgo/internal/spec/spec.go:145-169 | BeforeEach outer to inner, then JustBeforeEach outer to inner, then the subject, stopping at the first failure, with the innermost container entered |
| SpecRun.RunInwards | Godeps/_workspace/src/github.com/onsi/ginkgo/internal/spec/spec.go:145-164 | One pass over the containers from the outermost in |
| SpecRun.Unwind | Godeps/_workspace/src/github.com/onsi/ginkgo/internal/spec/spec.go:131-143 | Every AfterEach of the containers entered, once each, inner to outer and in a container as declared, whatever its outcome; the first failure is kept |
| SpecRun.Run | Godeps/_workspace/src/github.com/onsi/ginkgo/internal/spec/spec.go:111-124 | Samples are run until one does not pass; the state is that sample's verdict, or passed |
| SpecRun.SetupNodesOfType | Godeps/_workspace/src/github.com/onsi/ginkgo/internal/containernode/container_node.go:117-125 | Keeps exactly the nodes of one kind, each once and in the order declared |
| PortPool.PoolIsConserved | Godeps/_workspace/src/github.com/cloudfoundry-incubator/garden-linux/old/port_pool/port_pool.go:30-99 | In every run from a new pool the free ports are distinct and in range, and with the held ports make up exactly the range; an acquisition fails if and only if every port is held |
| PortPool.RangeIsIntended | Godeps/_workspace/src/github.com/cloudfoundry-incubator/garden-linux/old/port_pool/port_pool.go:30-36 | The ports offered are start to start + size - 1 if and only if that end fits in 32 bits or the size is 0; otherwise there are none |
| PortPool.WrappedPoolStaysEmpty | Godeps/_workspace/src/github.com/cloudfoundry-incubator/garden-linux/old/port_pool/port_pool.go:84-87 | A pool whose end wraps stays empty whatever is released to it |
| PortPool.ReissuedLast | Godeps/_workspace/src/github.com/cloudfoundry-incubator/garden-linux/old/port_pool/port_pool.go:45-99 | A released port is issued again by an acquisition only after every port that was free at the release has left the pool |
| PortPool.NothingOvertakes | Godeps/_workspace/src/github.com/cloudfoundry-incubator/garden-linux/old/port_pool/port_pool.go:45-99 | No port gets in front of one that stays in the pool |
| PortPool.AheadUntilIssued | Godeps/_workspace/src/github.com/cloudfoundry-incubator/garden-linux/old/port_pool/port_pool.go:45-99 | A port in front of one that stays keeps its place until it is issued |
| PortPool.IssuedOnce | net.go:25-44 | A port issued twice was released in between, also when the first request was refused by the chain; requests never release, so the host ports they take from a shared pool are pairwise distinct |
| PortPool.RemovedUntilReleased | Godeps/_workspace/src/github.com/cloudfoundry-incubator/garden-linux/old/port_pool/port_pool.go:60-82 | In every run a free port that is removed is not free again before it is released and the others keep their order; removing any other port changes nothing |
| PortPool.PortPool.constructor | Godeps/_workspace/src/github.com/cloudfoundry-incubator/garden-linux/old/port_pool/port_pool.go:30-43 | The loop lists the ports from start up to the wrapped end |
| PortPool.PortPool.Acquire | Godeps/_workspace/src/github.com/cloudfoundry-incubator/garden-linux/old/port_pool/port_pool.go:45-58 | Issues the port at the head of the queue, or none from an empty pool |
| PortPool.PortPool.Remove | Godeps/_workspace/src/github.com/cloudfoundry-incubator/garden-linux/old/port_pool/port_pool.go:60-82 | Takes out the given port and keeps the order of the others; fails if and only if it is held or out of range |
| PortPool.PortPool.Release | Godeps/_workspace/src/github.com/cloudfoundry-incubator/garden-linux/old/port_pool/port_pool.go:84-99 | Puts a held port at the end of the queue; a free or foreign port changes nothing |
| PortPool.NetHandler.NetIn | net.go:25-44 | A missing host port is taken from the pool and a missing container port is the host port; the rule is added if and only if the chain accepts it; the port stays held when it does not |
| PortPool.RefusedRequestLeaks | net.go:28-41 | A request that the chain refuses leaves the pool as it was if and only if it named a host port or found the pool empty; otherwise the port it took stays held |
| PortPool.ReplyNamesPorts | net.go:39-43 | The reply to an installed rule names its ports if and only if no port was asked for and the pool issued port 0 |
| Forwarding.DistinctHostsExactly | net.go:25-44 | The host ports of the installed rules are pairwise distinct at every point of a run, and later as long as what follows keeps the rule, if and only if a request names a host port only when no rule has it and the pool does not hold it free, and a port of the pool is released only when no rule has it |
| Forwarding.BreachIsShared | net.go:25-44 | After the first breach, events that keep the rule lead to two rules with one host port |
| Forwarding.NamedPortIsShared | net.go:28-33 | A request that names a free port of the pool, and one that asks for any port, get the same host port |
| Forwarding.InstalledIsAsked | net.go:35-41 | The host port recorded for an accepted request is that of the rule it asks of the chain |
| AddressRange.RangeIsNetwork | Godeps/_workspace/src/github.com/cloudfoundry-incubator/garden/net_out_rule.go:54-57 | For an address and a mask of any one length, the range from the base to lastIP holds the same addresses as the network if and only if the mask is a prefix mask and the base is masked by it |
| AddressRange.MappedRangeIsWrong | Godeps/_workspace/src/github.com/cloudfoundry-incubator/garden/net_out_rule.go:54-80 | For an IPv4 address in 16 bytes with a mask of 4 the range ends at the complement of the mask followed by zeros, and never holds the same addresses as the network |
| AddressRange.PrefixRange | Godeps/_workspace/src/github.com/cloudfoundry-incubator/garden/net_out_rule.go:70-80 | On bits: under a prefix mask and a masked base, an address matches the mask if and only if it lies between the base and the base with the unmasked bits set |
| AddressRange.Stray | Godeps/_workspace/src/github.com/cloudfoundry-incubator/garden/net_out_rule.go:70-80 | For a mask with a gap there is an address in the range outside the network |
| AddressRange.ComputeLastIP | Godeps/_workspace/src/github.com/cloudfoundry-incubator/garden/net_out_rule.go:70-80 | The loop fills a fresh address with the base's bits, set where the mask is zero |
| AddressRange.LastIPBits | Godeps/_workspace/src/github.com/cloudfoundry-incubator/garden/net_out_rule.go:74-79 | The byte arithmetic of the loop, bit by bit |

## Left out

- Routes.Tail: excludes an empty pattern with a non-empty path, on which the source indexes the empty pattern and panics.
- Routes.CreatePath: `url.Parse` and `String` are the identity; escaping of values, and the failure of Parse, are not modelled.
- Routes.RoundTrip: patterns with a colon inside a literal or with a name that is not alphanumeric are outside it, since printer and matcher then disagree on what a component is.
- ParallelSplit.RangeFollows: node numbers outside 1 to total, and a total of 0, on which the source divides by zero, are not modelled.
- AddressRange.RangeIsNetwork: compares addresses byte by byte at one length; a mask longer than the address makes the source panic, and the library's normalisation of 16-byte IPv4 addresses is modelled only for masks of 4 bytes.
- Dependencies.Dependencies.ResolveAndAdd: the build tool is an arbitrary finite import graph with a set of filtered directories; the regular expression of the filter is not modelled.
- SpecRun.RunSample: setup nodes and subjects are outcomes given by an arbitrary function of the position in the trace; the failure texts are not modelled.
- Spawn.ExitStatusIs: failures before the first accept, which end the process with 1, are not modelled.
- Spawn.SpawnIsSafe: pipes, terminals, gob encoding and process creation are reduced to the steps of the channel rendezvous, each succeeding or failing freely.
- Streamer.DeliveredInOrder: the registry of stream ids and the HTTP connection are not modelled; one registered stream is.
- Bombs.TimeBomb.Pause: time is an event; the length of the countdown is not modelled.
- DynamicGroupCode.RunLoop: the names and errors of the processes asked for and reported are not modelled beyond who entered and who left; a process is the number of signals it was sent.
- GoraphMatching.LargestIs: the exact condition for the result to be a matching speaks of the phases; GoraphGrouped.GroupedIsMatched gives a condition on the graph that suffices, a condition on the graph that is also necessary is left open.
- GoraphMatching.PairingIsFound: its second half has the same condition on the phases; GoraphGrouped.GroupedIsMatched has one on the graph.
- ConsistOf.Match: with matchers that overlap in part, values that cannot be paired off may be accepted, and nothing says exactly when; the unwrapping of a single list argument, maps, and errors of matchers, which count as no match, are not modelled.
- ConsistOf.MatchEqual: equality is that of the values' type; the equality matcher's refusal to compare nil with nil, and values that do not equal themselves, are not modelled.
- SpecSelection.GenerateSpecs: shuffling, focus and skip expressions and the skipping of measurements are not modelled.
- OrderedGroup.Group.Run: the moment at which a member exits or a signal arrives is given by an arbitrary description of the environment.
- The order of a Go map's iteration is arbitrary in the source; results that depend on it are stated as sets.
- ifrit's parallel group, whose select is built by reflection.
- The docker command line, the container store, limits, properties and the HTTP client and server: process and file plumbing, or plain map access.
- iptables, pty and the system calls of the container daemon.
- gomega's other matchers, ginkgo's reporters and the generated fakes: messages and recording.
